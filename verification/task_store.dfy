/**
 The in-memory task store: a table from task id to task.

 The queries (`findById`, `findAll`, `findByDocumentId`, ...) read the
 table and change nothing; they are functions of its contents here. The
 listings scan the table's values in the hash map's iteration order, which
 nothing specifies: `KeyOrder` picks some order of the keys, and every
 property below holds for whichever order it picks. The class
 `TaskRepository` holds the table and the operations that change it.
 */
module TaskStore {
  import opened TaskModel

  type Store = map<string, Task>

  /** Every record sits under its own id, as `save` and `update` put it there. */
  ghost predicate KeysMatchIds(m: Store) {
    forall k :: k in m ==> m[k].id == k
  }

  ghost predicate Distinct(ks: seq<string>) {
    forall i, j :: 0 <= i < j < |ks| ==> ks[i] != ks[j]
  }

  ghost predicate IdsDistinct(s: seq<Task>) {
    forall i, j :: 0 <= i < j < |s| ==> s[i].id != s[j].id
  }

  /** `createdAt` never increases along the list: newest first. */
  ghost predicate SortedByCreatedDesc(s: seq<Task>) {
    forall i, j :: 0 <= i < j < |s| ==> s[i].createdAt >= s[j].createdAt
  }

  // ---------------------------------------------------------------------
  // Scanning the table

  /** Some enumeration of a key set: each key exactly once, in an unspecified order. */
  ghost function KeyOrder(ks: set<string>): (r: seq<string>)
    ensures |r| == |ks|
    ensures forall k :: k in r <==> k in ks
    ensures Distinct(r)
  {
    if ks == {} then []
    else
      var k :| k in ks;
      [k] + KeyOrder(ks - {k})
  }

  function ValuesAt(m: Store, ks: seq<string>): (r: seq<Task>)
    requires forall k :: k in ks ==> k in m
    ensures |r| == |ks|
    ensures forall i :: 0 <= i < |ks| ==> r[i] == m[ks[i]]
  {
    if ks == [] then [] else [m[ks[0]]] + ValuesAt(m, ks[1..])
  }

  /** Reading the values along a key order that covers the table misses no record. */
  lemma ValuesAtCovers(m: Store, ks: seq<string>)
    requires forall k :: k in ks <==> k in m
    ensures forall t :: t in ValuesAt(m, ks) <==> t in m.Values
  {
    var r := ValuesAt(m, ks);
    forall t | t in m.Values ensures t in r {
      var k :| k in m && m[k] == t;
      var i :| 0 <= i < |ks| && ks[i] == k;
      assert r[i] == t;
    }
    forall t | t in r ensures t in m.Values {
      var i :| 0 <= i < |r| && r[i] == t;
      assert ks[i] in m && m[ks[i]] == t;
    }
  }

  /** Reading along distinct keys of a table whose records sit under their own ids repeats no id. */
  lemma ValuesAtIdsDistinct(m: Store, ks: seq<string>)
    requires forall k :: k in ks ==> k in m
    requires Distinct(ks) && KeysMatchIds(m)
    ensures IdsDistinct(ValuesAt(m, ks))
  {
  }

  /** `taskStore.values().stream()`: every stored record once, in iteration order. */
  ghost function Values(m: Store): (r: seq<Task>)
    ensures |r| == |m|
    ensures forall t :: t in r <==> t in m.Values
    ensures KeysMatchIds(m) ==> IdsDistinct(r)
  {
    var ks := KeyOrder(m.Keys);
    assert |ks| == |m.Keys| == |m|;
    ValuesAtCovers(m, ks);
    if KeysMatchIds(m) then
      ValuesAtIdsDistinct(m, ks);
      ValuesAt(m, ks)
    else ValuesAt(m, ks)
  }

  /**
   * `stream.filter(p)`: the elements satisfying `p`. `FilterCounts` states that
   * each is kept as often as it occurs, and `FilterAppend` that the input's
   * order is kept.
   */
  function Filter(s: seq<Task>, p: Task -> bool): (r: seq<Task>)
    ensures |r| <= |s|
    ensures forall t :: t in r <==> t in s && p(t)
  {
    if s == [] then []
    else if p(s[0]) then [s[0]] + Filter(s[1..], p)
    else Filter(s[1..], p)
  }

  /** Each element passing the filter occurs in the result exactly as often as in the input. */
  lemma {:induction false} FilterCounts(s: seq<Task>, p: Task -> bool)
    ensures forall t :: multiset(Filter(s, p))[t] == if p(t) then multiset(s)[t] else 0
  {
    if s != [] {
      assert s == [s[0]] + s[1..];
      FilterCounts(s[1..], p);
    }
  }

  /**
   * Filtering a concatenation filters each part and concatenates the results,
   * so passing elements keep their relative order.
   */
  lemma {:induction false} FilterAppend(a: seq<Task>, b: seq<Task>, p: Task -> bool)
    ensures Filter(a + b, p) == Filter(a, p) + Filter(b, p)
    decreases |a|
  {
    if a == [] {
      assert a + b == b;
    } else {
      var ab := a + b;
      assert ab[0] == a[0] && ab[1..] == a[1..] + b;
      FilterAppend(a[1..], b, p);
      if p(a[0]) {
        calc {
          Filter(ab, p);
          [a[0]] + Filter(a[1..] + b, p);
          [a[0]] + (Filter(a[1..], p) + Filter(b, p));
          ([a[0]] + Filter(a[1..], p)) + Filter(b, p);
        }
      } else {
        calc {
          Filter(ab, p);
          Filter(a[1..] + b, p);
        }
      }
    }
  }

  /** A filter that no element passes yields the empty list. */
  lemma {:induction false} FilterRejectingAll(s: seq<Task>, p: Task -> bool)
    requires forall t :: t in s ==> !p(t)
    ensures Filter(s, p) == []
  {
    if s != [] {
      assert s[0] in s;
      FilterRejectingAll(s[1..], p);
    }
  }

  /** Filtering keeps a subsequence, so distinct ids stay distinct. */
  lemma {:induction false} FilterKeepsIdsDistinct(s: seq<Task>, p: Task -> bool)
    ensures IdsDistinct(s) ==> IdsDistinct(Filter(s, p))
  {
    if s != [] && IdsDistinct(s) {
      FilterKeepsIdsDistinct(s[1..], p);
      var rest := Filter(s[1..], p);
      if p(s[0]) {
        forall u | u in rest ensures u.id != s[0].id {
          var j :| 0 <= j < |s[1..]| && s[1..][j] == u;
          assert s[j + 1] == u;
        }
        assert IdsDistinct([s[0]] + rest);
      }
    }
  }

  /** Places `t` before the first element that is not newer than it (a stable insertion). */
  function InsertByCreatedDesc(t: Task, s: seq<Task>): (r: seq<Task>)
    ensures |r| == |s| + 1
    ensures forall u :: u in r <==> u == t || u in s
  {
    if s == [] || s[0].createdAt <= t.createdAt then [t] + s
    else [s[0]] + InsertByCreatedDesc(t, s[1..])
  }

  /** `sorted(comparing(Task::getCreatedAt).reversed())`: a stable sort, newest first. */
  function SortByCreatedDesc(s: seq<Task>): (r: seq<Task>)
    ensures |r| == |s|
    ensures forall t :: t in r <==> t in s
  {
    if s == [] then [] else InsertByCreatedDesc(s[0], SortByCreatedDesc(s[1..]))
  }

  lemma {:induction false} InsertKeepsSorted(t: Task, s: seq<Task>)
    requires SortedByCreatedDesc(s)
    ensures SortedByCreatedDesc(InsertByCreatedDesc(t, s))
  {
    if !(s == [] || s[0].createdAt <= t.createdAt) {
      InsertKeepsSorted(t, s[1..]);
      var rest := InsertByCreatedDesc(t, s[1..]);
      forall u | u in rest ensures s[0].createdAt >= u.createdAt {
        if u != t {
          var j :| 0 <= j < |s[1..]| && s[1..][j] == u;
          assert s[j + 1] == u;
        }
      }
      assert SortedByCreatedDesc([s[0]] + rest);
    }
  }

  /** The sort's output is newest first. */
  lemma {:induction false} SortIsSorted(s: seq<Task>)
    ensures SortedByCreatedDesc(SortByCreatedDesc(s))
  {
    if s != [] {
      SortIsSorted(s[1..]);
      InsertKeepsSorted(s[0], SortByCreatedDesc(s[1..]));
    }
  }

  lemma {:induction false} InsertIsPermutation(t: Task, s: seq<Task>)
    ensures multiset(InsertByCreatedDesc(t, s)) == multiset(s) + multiset{t}
  {
    if !(s == [] || s[0].createdAt <= t.createdAt) {
      InsertIsPermutation(t, s[1..]);
      assert s == [s[0]] + s[1..];
    }
  }

  /** The sort's output is a permutation of its input. */
  lemma {:induction false} SortIsPermutation(s: seq<Task>)
    ensures multiset(SortByCreatedDesc(s)) == multiset(s)
  {
    if s != [] {
      SortIsPermutation(s[1..]);
      InsertIsPermutation(s[0], SortByCreatedDesc(s[1..]));
      assert s == [s[0]] + s[1..];
    }
  }

  lemma {:induction false} InsertKeepsIdsDistinct(t: Task, s: seq<Task>)
    requires IdsDistinct(s)
    requires forall u :: u in s ==> u.id != t.id
    ensures IdsDistinct(InsertByCreatedDesc(t, s))
  {
    if s == [] || s[0].createdAt <= t.createdAt {
      assert IdsDistinct([t] + s);
    } else {
      assert forall u :: u in s[1..] ==> u in s;
      InsertKeepsIdsDistinct(t, s[1..]);
      var rest := InsertByCreatedDesc(t, s[1..]);
      forall u | u in rest ensures u.id != s[0].id {
        if u != t {
          var j :| 0 <= j < |s[1..]| && s[1..][j] == u;
          assert s[j + 1] == u;
        }
      }
      assert IdsDistinct([s[0]] + rest);
    }
  }

  /** Sorting only reorders, so distinct ids stay distinct. */
  lemma {:induction false} SortKeepsIdsDistinct(s: seq<Task>)
    ensures IdsDistinct(s) ==> IdsDistinct(SortByCreatedDesc(s))
  {
    if s != [] && IdsDistinct(s) {
      assert IdsDistinct(s[1..]);
      SortKeepsIdsDistinct(s[1..]);
      forall u | u in SortByCreatedDesc(s[1..]) ensures u.id != s[0].id {
        var j :| 0 <= j < |s[1..]| && s[1..][j] == u;
        assert s[j + 1] == u;
      }
      InsertKeepsIdsDistinct(s[0], SortByCreatedDesc(s[1..]));
    }
  }

  // ---------------------------------------------------------------------
  // Queries

  /** `findById`: the record under `id`, active or not. */
  function FindById(m: Store, id: string): (r: Option<Task>)
    ensures r.Some? <==> id in m
    ensures r.Some? ==> r.value in m.Values
    ensures r.Some? && KeysMatchIds(m) ==> r.value.id == id
  {
    if id in m then Some(m[id]) else None
  }

  /** `existsById`: whether the id is a key, whatever the record's `active` flag. */
  predicate ExistsById(m: Store, id: string): (b: bool)
    ensures b <==> FindById(m, id).Some?
    ensures b && KeysMatchIds(m) ==> m[id].id == id
  {
    id in m
  }

  /** Filter the scanned values by `p`, then sort newest first. */
  ghost function Listing(m: Store, p: Task -> bool): (r: seq<Task>)
    ensures forall t :: t in r <==> t in m.Values && p(t)
    ensures SortedByCreatedDesc(r)
    ensures KeysMatchIds(m) ==> IdsDistinct(r)
  {
    var filtered := Filter(Values(m), p);
    SortIsSorted(filtered);
    FilterKeepsIdsDistinct(Values(m), p);
    SortKeepsIdsDistinct(filtered);
    SortByCreatedDesc(filtered)
  }

  /** `findAll`: exactly the active records, newest first, each once. */
  ghost function FindAll(m: Store): (r: seq<Task>)
    ensures forall t :: t in r <==> t in m.Values && t.active
    ensures SortedByCreatedDesc(r)
    ensures KeysMatchIds(m) ==> IdsDistinct(r)
  {
    Listing(m, (t: Task) => t.active)
  }

  /** `findByDocumentId`: the active records of one document, newest first, each once. */
  ghost function FindByDocumentId(m: Store, documentId: string): (r: seq<Task>)
    ensures forall t :: t in r <==> t in m.Values && t.documentId == documentId && t.active
    ensures SortedByCreatedDesc(r)
    ensures KeysMatchIds(m) ==> IdsDistinct(r)
  {
    // The source filters on `active` twice; the second filter keeps everything.
    var filtered := Filter(Filter(Values(m), (t: Task) => t.documentId == documentId && t.active), (t: Task) => t.active);
    SortIsSorted(filtered);
    FilterKeepsIdsDistinct(Values(m), (t: Task) => t.documentId == documentId && t.active);
    FilterKeepsIdsDistinct(Filter(Values(m), (t: Task) => t.documentId == documentId && t.active), (t: Task) => t.active);
    SortKeepsIdsDistinct(filtered);
    SortByCreatedDesc(filtered)
  }

  /** `findByAssignedUserId`: the active records of one user, newest first, each once. */
  ghost function FindByAssignedUserId(m: Store, assignedUserId: string): (r: seq<Task>)
    ensures forall t :: t in r <==> t in m.Values && t.assignedUserId == assignedUserId && t.active
    ensures SortedByCreatedDesc(r)
    ensures KeysMatchIds(m) ==> IdsDistinct(r)
  {
    Listing(m, (t: Task) => t.assignedUserId == assignedUserId && t.active)
  }

  /**
   `String.equals(Object)` with a `TaskStatus` argument: an enum constant is
   never a `String`, so the comparison is false whatever the two values are.
   */
  predicate StringEqualsStatus(s: string, status: TaskStatus) {
    false
  }

  /** `findByStatus` as written: it compares the stored string to the enum constant. */
  ghost function FindByStatus(m: Store, status: TaskStatus): (r: seq<Task>)
    ensures r == []
  {
    var p := (t: Task) => StringEqualsStatus(t.status, status) && t.active;
    FilterRejectingAll(Values(m), p);
    SortByCreatedDesc(Filter(Values(m), p))
  }

  /** An active PENDING record exists, yet `findByStatus(PENDING)` does not list it. */
  lemma FindByStatusMissesMatchingRecord(t: Task)
    requires t.status == "PENDING" && t.active
    ensures FindByStatus(map[t.id := t], Pending) == []
    ensures t in FindByStatusIntended(map[t.id := t], Pending)
  {
  }

  /** `findByStatus` comparing the stored string to the literal's name, as evidently intended. */
  ghost function FindByStatusIntended(m: Store, status: TaskStatus): (r: seq<Task>)
    ensures forall t :: t in r <==> t in m.Values && t.status == StatusName(status) && t.active
    ensures SortedByCreatedDesc(r)
    ensures KeysMatchIds(m) ==> IdsDistinct(r)
  {
    Listing(m, (t: Task) => t.status == StatusName(status) && t.active)
  }

  /** `count`: the length of the filtered value stream. */
  ghost function Count(m: Store): (n: nat)
    ensures n == |FindAll(m)|
  {
    |Filter(Values(m), (t: Task) => t.active)|
  }

  ghost function ActiveIds(m: Store): set<string> {
    set k | k in m && m[k].active
  }

  /** The keys among `ks` whose record satisfies `p`. */
  ghost function MatchingKeys(m: Store, ks: seq<string>, p: Task -> bool): (r: set<string>)
    requires forall k :: k in ks ==> k in m
    ensures forall k :: k in r <==> k in ks && p(m[k])
  {
    if ks == [] then {}
    else (if p(m[ks[0]]) then {ks[0]} else {}) + MatchingKeys(m, ks[1..], p)
  }

  /** Filtering the values under distinct keys keeps one element per matching key. */
  lemma {:induction false} FilterValuesAtCount(m: Store, ks: seq<string>, p: Task -> bool)
    requires forall k :: k in ks ==> k in m
    requires Distinct(ks)
    ensures |Filter(ValuesAt(m, ks), p)| == |MatchingKeys(m, ks, p)|
  {
    if ks != [] {
      var rest := ks[1..];
      assert Distinct(rest);
      FilterValuesAtCount(m, rest, p);
      assert ValuesAt(m, ks)[1..] == ValuesAt(m, rest);
      assert ks[0] !in MatchingKeys(m, rest, p);
    }
  }

  /** `count` is the number of keys whose record is active. */
  lemma CountIsActiveIds(m: Store)
    ensures Count(m) == |ActiveIds(m)|
  {
    var ks := KeyOrder(m.Keys);
    assert Values(m) == ValuesAt(m, ks);
    FilterValuesAtCount(m, ks, (t: Task) => t.active);
    ActiveKeysMatch(m, ks);
  }

  /** Along a key order that covers the table, the keys of active records are the active ids. */
  lemma ActiveKeysMatch(m: Store, ks: seq<string>)
    requires forall k :: k in ks <==> k in m
    ensures MatchingKeys(m, ks, (t: Task) => t.active) == ActiveIds(m)
  {
  }

  /** Under matching keys, a task is stored exactly when its own id maps to it. */
  lemma StoredUnderOwnId(m: Store, t: Task)
    requires KeysMatchIds(m)
    ensures t in m.Values <==> t.id in m && m[t.id] == t
  {
  }

  // ---------------------------------------------------------------------
  // Logical deletion

  /**
   The table after `deleteById(id)` at time `now`: the same keys, the
   record under `id` switched off and stamped, every other record as it was.
   */
  function LogicallyDeleted(m: Store, id: string, now: Instant): (d: Store)
    ensures d.Keys == m.Keys
    ensures id in m ==> !d[id].active && d[id].updatedAt == now
                        && d[id].(active := m[id].active, updatedAt := m[id].updatedAt) == m[id]
    ensures forall k :: k in m && k != id ==> d[k] == m[k]
  {
    if id in m then m[id := m[id].(active := false, updatedAt := now)] else m
  }

  /** Deletion never changes which ids exist: a deleted record still exists. */
  lemma DeleteKeepsExistence(m: Store, id: string, now: Instant)
    ensures forall k :: ExistsById(LogicallyDeleted(m, id, now), k) <==> ExistsById(m, k)
  {
  }

  /** Deleting an absent id changes nothing. */
  lemma DeleteAbsentIsNoOp(m: Store, id: string, now: Instant)
    requires id !in m
    ensures LogicallyDeleted(m, id, now) == m
  {
  }

  /**
   Deleting a present id keeps every key, keeps the record except for its
   `active` flag and `updatedAt`, and drops the id from the active ones.
   */
  lemma DeletePresent(m: Store, id: string, now: Instant)
    requires id in m
    ensures var d := LogicallyDeleted(m, id, now);
      && d.Keys == m.Keys
      && d[id] == m[id].(active := false, updatedAt := now)
      && (forall k :: k in m && k != id ==> d[k] == m[k])
      && ActiveIds(d) == ActiveIds(m) - {id}
      && ExistsById(d, id) && FindById(d, id).value.active == false
  {
  }

  /** Deletion writes the record back under its own key. */
  lemma DeleteKeepsKeysMatchIds(m: Store, id: string, now: Instant)
    requires KeysMatchIds(m)
    ensures KeysMatchIds(LogicallyDeleted(m, id, now))
  {
  }

  /** After a delete, `findAll` no longer lists the deleted id. */
  lemma DeleteUnlists(m: Store, id: string, now: Instant)
    requires KeysMatchIds(m)
    ensures forall t :: t in FindAll(LogicallyDeleted(m, id, now)) ==> t.id != id
  {
    var d := LogicallyDeleted(m, id, now);
    DeleteKeepsKeysMatchIds(m, id, now);
    forall t | t in FindAll(d) ensures t.id != id {
      StoredUnderOwnId(d, t);
    }
  }

  /** A delete keeps every record under another id stored as it was. */
  lemma DeleteKeepsOtherRecord(m: Store, id: string, now: Instant, t: Task)
    requires KeysMatchIds(m) && t in m.Values && t.id != id
    ensures t in LogicallyDeleted(m, id, now).Values
  {
    StoredUnderOwnId(m, t);
    var d := LogicallyDeleted(m, id, now);
    assert t.id in d && d[t.id] == t;
  }

  /** A delete leaves every other listed record listed. */
  lemma DeleteKeepsOthersListed(m: Store, id: string, now: Instant)
    requires KeysMatchIds(m)
    ensures forall t :: t in FindAll(m) && t.id != id ==> t in FindAll(LogicallyDeleted(m, id, now))
  {
    forall t | t in FindAll(m) && t.id != id ensures t in FindAll(LogicallyDeleted(m, id, now)) {
      DeleteKeepsOtherRecord(m, id, now, t);
    }
  }

  lemma DeleteDropsActiveId(m: Store, id: string, now: Instant)
    requires id in m && m[id].active
    ensures ActiveIds(LogicallyDeleted(m, id, now)) == ActiveIds(m) - {id}
    ensures |ActiveIds(LogicallyDeleted(m, id, now))| == |ActiveIds(m)| - 1
  {
    assert ActiveIds(LogicallyDeleted(m, id, now)) == ActiveIds(m) - {id};
  }

  /** Deleting an active record lowers `count` by one. */
  lemma DeleteDecrementsCount(m: Store, id: string, now: Instant)
    requires id in m && m[id].active
    ensures Count(LogicallyDeleted(m, id, now)) == Count(m) - 1
  {
    CountIsActiveIds(m);
    CountIsActiveIds(LogicallyDeleted(m, id, now));
    DeleteDropsActiveId(m, id, now);
  }

  /** A fresh active record is listed by `findAll` and the two filtered listings that match it. */
  lemma InsertIsListed(m: Store, t: Task)
    requires t.active
    ensures t in FindAll(m[t.id := t])
    ensures t in FindByDocumentId(m[t.id := t], t.documentId)
    ensures t in FindByAssignedUserId(m[t.id := t], t.assignedUserId)
  {
    assert m[t.id := t][t.id] == t;
  }

  /** Inserting under a fresh id drops nothing from `findAll`. */
  lemma InsertKeepsListed(m: Store, t: Task)
    requires KeysMatchIds(m) && t.id !in m
    ensures forall u :: u in FindAll(m) ==> u in FindAll(m[t.id := t])
  {
    var s := m[t.id := t];
    forall u | u in FindAll(m) ensures u in FindAll(s) {
      StoredUnderOwnId(m, u);
      assert s[u.id] == u;
    }
  }

  /** Inserting an active record under a fresh id raises `count` by one. */
  lemma InsertIncrementsCount(m: Store, t: Task)
    requires t.id !in m && t.active
    ensures Count(m[t.id := t]) == Count(m) + 1
  {
    CountIsActiveIds(m);
    CountIsActiveIds(m[t.id := t]);
    InsertAddsActiveId(m, t);
  }

  lemma InsertAddsActiveId(m: Store, t: Task)
    requires t.id !in m && t.active
    ensures ActiveIds(m[t.id := t]) == ActiveIds(m) + {t.id}
    ensures |ActiveIds(m[t.id := t])| == |ActiveIds(m)| + 1
  {
    assert ActiveIds(m[t.id := t]) == ActiveIds(m) + {t.id};
  }

  // ---------------------------------------------------------------------
  // Timestamp order

  /** No record was last updated before it was created. */
  ghost predicate TimestampsOrdered(m: Store) {
    forall k :: k in m ==> m[k].createdAt <= m[k].updatedAt
  }

  /** Writing a record whose own timestamps are in order keeps the table in order. */
  lemma WriteKeepsTimestampsOrdered(m: Store, t: Task)
    requires TimestampsOrdered(m) && t.createdAt <= t.updatedAt
    ensures TimestampsOrdered(m[t.id := t])
  {
  }

  /**
   With a clock that has not gone back since the record's last write, a
   delete keeps the table in order, and stamps the deleted record strictly
   after its creation when the clock has moved on.
   */
  lemma DeleteKeepsTimestampsOrdered(m: Store, id: string, now: Instant)
    requires TimestampsOrdered(m)
    requires id in m ==> m[id].updatedAt <= now
    ensures TimestampsOrdered(LogicallyDeleted(m, id, now))
    ensures id in m && m[id].updatedAt < now ==>
      LogicallyDeleted(m, id, now)[id].createdAt < LogicallyDeleted(m, id, now)[id].updatedAt
  {
  }

  /** The clock is not monotonic: a reading earlier than the creation breaks the order. */
  lemma DeleteWithEarlierClock()
    ensures var t := Task("a", "D1", "X", None, "PENDING", "U1", "MEDIUM", 20, 10, 10, true);
      && TimestampsOrdered(map["a" := t])
      && !TimestampsOrdered(LogicallyDeleted(map["a" := t], "a", 5))
  {
    var t := Task("a", "D1", "X", None, "PENDING", "U1", "MEDIUM", 20, 10, 10, true);
    assert LogicallyDeleted(map["a" := t], "a", 5)["a"].updatedAt == 5;
  }

  // ---------------------------------------------------------------------
  // The repository object

  class TaskRepository {
    var taskStore: Store

    ghost predicate Valid()
      reads this
    {
      KeysMatchIds(taskStore)
    }

    constructor ()
      ensures taskStore == map[] && Valid()
    {
      taskStore := map[];
    }

    /** `save`: insert or overwrite under the task's own id. */
    method Save(task: Task) returns (saved: Task)
      modifies this
      ensures taskStore == old(taskStore)[task.id := task]
      ensures saved == task
      ensures FindById(taskStore, task.id) == Some(task)
      ensures forall k :: k != task.id ==> FindById(taskStore, k) == FindById(old(taskStore), k)
      ensures old(Valid()) ==> Valid()
    {
      taskStore := taskStore[task.id := task];
      saved := task;
    }

    /** `update`: the same put-by-id as `save`. */
    method Update(task: Task) returns (updated: Task)
      modifies this
      ensures taskStore == old(taskStore)[task.id := task]
      ensures updated == task
      ensures FindById(taskStore, task.id) == Some(task)
      ensures forall k :: k != task.id ==> FindById(taskStore, k) == FindById(old(taskStore), k)
      ensures old(Valid()) ==> Valid()
    {
      taskStore := taskStore[task.id := task];
      updated := task;
    }

    /** `deleteById`: flip `active` off and stamp `updatedAt`; an absent id is ignored. */
    method DeleteById(id: string, now: Instant)
      modifies this
      ensures taskStore == LogicallyDeleted(old(taskStore), id, now)
      ensures id !in old(taskStore) ==> taskStore == old(taskStore)
      ensures old(Valid()) ==> Valid()
    {
      if id in taskStore {
        var task := taskStore[id];
        task := task.(active := false);
        task := task.(updatedAt := now);
        taskStore := taskStore[id := task];
      }
    }

    /** `clear`: drop every record. */
    method Clear()
      modifies this
      ensures taskStore == map[] && Valid()
      ensures forall id :: !ExistsById(taskStore, id)
      ensures Count(taskStore) == 0 && FindAll(taskStore) == []
    {
      taskStore := map[];
    }
  }
}
