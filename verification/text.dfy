/**
 The two string operations the core relies on: Java's `String.trim()`, which
 the `@NotBlank` constraint uses (a string is blank when trimming leaves it
 empty), and `String.toUpperCase()`, restricted to ASCII letters.
 */
module Text {

  /** `trim()` strips every leading and trailing character at or below U+0020. */
  predicate IsTrimmable(c: char) {
    c <= ' '
  }

  function TrimLeading(s: string): string {
    if |s| > 0 && IsTrimmable(s[0]) then TrimLeading(s[1..]) else s
  }

  function TrimTrailing(s: string): string {
    if |s| > 0 && IsTrimmable(s[|s| - 1]) then TrimTrailing(s[..|s| - 1]) else s
  }

  function Trim(s: string): string {
    TrimTrailing(TrimLeading(s))
  }

  /** Jakarta's `@NotBlank` on a string that is present: something is left after `trim()`. */
  predicate NotBlank(s: string) {
    |Trim(s)| > 0
  }

  /** Trimming the front drops exactly a prefix of trimmable characters. */
  lemma {:induction false} TrimLeadingDropsPrefix(s: string)
    ensures var r := TrimLeading(s);
      && |r| <= |s| && r == s[|s| - |r|..]
      && (|r| > 0 ==> !IsTrimmable(r[0]))
      && forall i :: 0 <= i < |s| - |r| ==> IsTrimmable(s[i])
  {
    if |s| > 0 && IsTrimmable(s[0]) {
      TrimLeadingDropsPrefix(s[1..]);
    }
  }

  /** Trimming the back drops exactly a suffix of trimmable characters. */
  lemma {:induction false} TrimTrailingDropsSuffix(s: string)
    ensures var r := TrimTrailing(s);
      && |r| <= |s| && r == s[..|r|]
      && (|r| > 0 ==> !IsTrimmable(r[|r| - 1]))
      && forall i :: |r| <= i < |s| ==> IsTrimmable(s[i])
  {
    if |s| > 0 && IsTrimmable(s[|s| - 1]) {
      TrimTrailingDropsSuffix(s[..|s| - 1]);
    }
  }

  /** A string is non-blank exactly when one of its characters lies above U+0020. */
  lemma NotBlankIff(s: string)
    ensures NotBlank(s) <==> exists i :: 0 <= i < |s| && !IsTrimmable(s[i])
  {
    var l := TrimLeading(s);
    TrimLeadingDropsPrefix(s);
    TrimTrailingDropsSuffix(l);
    if |Trim(s)| > 0 {
      assert !IsTrimmable(l[0]);
      assert l[0] == s[|s| - |l|];
    }
  }

  function UpperChar(c: char): (u: char)
    ensures 'a' <= c <= 'z' ==> 'A' <= u <= 'Z' && u as int - 'A' as int == c as int - 'a' as int
    ensures !('a' <= c <= 'z') ==> u == c
  {
    if 'a' <= c <= 'z' then (c as int - 32) as char else c
  }

  /** `toUpperCase()` on ASCII: lower-case letters become capitals, all else stays. */
  function ToUpper(s: string): (r: string)
    ensures |r| == |s|
    ensures forall i :: 0 <= i < |s| ==> r[i] == UpperChar(s[i])
  {
    seq(|s|, i requires 0 <= i < |s| => UpperChar(s[i]))
  }

  predicate HasNoLowerCase(s: string) {
    forall i :: 0 <= i < |s| ==> !('a' <= s[i] <= 'z')
  }

  /** Upper-casing twice is upper-casing once, and upper-case text is left alone. */
  lemma ToUpperIdempotent(s: string)
    ensures HasNoLowerCase(ToUpper(s))
    ensures ToUpper(ToUpper(s)) == ToUpper(s)
    ensures HasNoLowerCase(s) ==> ToUpper(s) == s
  {
  }
}
