/**
 * The store's `LinkedHashMap<Integer, Task>`: every task filed under its own id, in
 * insertion order. Only the map operations the store uses are modelled: `get`, `put`,
 * and removal by a condition.
 */
module TaskMap {
  import opened Base
  import opened Records

  predicate DistinctIds(ts: seq<Task>) {
    forall i, j :: 0 <= i < j < |ts| ==> ts[i].id != ts[j].id
  }

  /** The map's entries in iteration order; the key of each entry is its task's id. */
  type TaskTable = ts: seq<Task> | DistinctIds(ts) witness []

  function Ids(ts: seq<Task>): set<Int32> {
    set i | 0 <= i < |ts| :: ts[i].id
  }

  function IndexOf(ts: seq<Task>, id: Int32): (r: Option<nat>)
    ensures r.Some? ==> r.value < |ts| && ts[r.value].id == id
    ensures r.None? ==> forall i :: 0 <= i < |ts| ==> ts[i].id != id
    decreases |ts|
  {
    if ts == [] then None
    else if ts[0].id == id then Some(0)
    else
      match IndexOf(ts[1..], id)
      case None => None
      case Some(k) => Some(k + 1)
  }

  /** `map.get(id)`. */
  function Lookup(ts: TaskTable, id: Int32): (r: Option<Task>)
    ensures r.Some? <==> id in Ids(ts)
    ensures r.Some? ==> r.value.id == id && r.value in ts
  {
    match IndexOf(ts, id)
    case None => None
    case Some(i) => Some(ts[i])
  }

  /** Every entry is found under its own id. */
  lemma LookupAt(ts: TaskTable, i: nat)
    requires i < |ts|
    ensures Lookup(ts, ts[i].id) == Some(ts[i])
  {
    var j := IndexOf(ts, ts[i].id);
    assert j.Some?;
    assert ts[j.value].id == ts[i].id;
  }

  /** `map.put(t.id, t)`: an existing entry for the id is replaced where it stands, otherwise `t` goes last. */
  function Put(ts: TaskTable, t: Task): (r: TaskTable)
    ensures Ids(r) == Ids(ts) + {t.id}
    ensures t.id !in Ids(ts) ==> r == ts + [t]
    ensures t.id in Ids(ts) ==> |r| == |ts| && forall i :: 0 <= i < |ts| ==> r[i] == (if ts[i].id == t.id then t else ts[i])
  {
    match IndexOf(ts, t.id)
    case None =>
      var r := ts + [t];
      assert forall i :: 0 <= i < |ts| ==> r[i] == ts[i];
      assert Ids(r) == Ids(ts) + {t.id} by {
        forall k | k in Ids(r) ensures k in Ids(ts) + {t.id} {
          var i :| 0 <= i < |r| && r[i].id == k;
          if i < |ts| {
            assert ts[i].id == k;
          }
        }
        assert r[|ts|] == t;
      }
      r
    case Some(i) =>
      var r := ts[i := t];
      assert forall j :: 0 <= j < |ts| ==> r[j].id == ts[j].id;
      assert forall j :: 0 <= j < |ts| && j != i ==> ts[j].id != t.id;
      assert Ids(r) == Ids(ts);
      r
  }

  /** What `get` sees after a `put`: the new task under its id, every other id as before. */
  lemma LookupPut(ts: TaskTable, t: Task, k: Int32)
    ensures Lookup(Put(ts, t), k) == if k == t.id then Some(t) else Lookup(ts, k)
  {
    var r := Put(ts, t);
    if k == t.id {
      if t.id in Ids(ts) {
        var i := IndexOf(ts, t.id).value;
        LookupAt(r, i);
      } else {
        LookupAt(r, |ts|);
      }
    } else if k in Ids(ts) {
      var j := IndexOf(ts, k).value;
      LookupAt(ts, j);
      assert r[j] == ts[j];
      LookupAt(r, j);
    }
  }

  /** `b` is `a` with some entries left out and the rest in their original order. */
  predicate Subsequence(b: seq<Task>, a: seq<Task>)
    decreases |a|
  {
    if a == [] then b == []
    else (b != [] && b[0] == a[0] && Subsequence(b[1..], a[1..])) || Subsequence(b, a[1..])
  }

  /** How many entries satisfy `p`. */
  function Count(ts: seq<Task>, p: Task -> bool): (n: nat)
    ensures n <= |ts|
    decreases |ts|
  {
    if ts == [] then 0 else (if p(ts[0]) then 1 else 0) + Count(ts[1..], p)
  }

  /** Removal by a condition (`removeIf`): keeps, in order, exactly the entries `keep` accepts. */
  function Filter(ts: TaskTable, keep: Task -> bool): (r: TaskTable)
    ensures forall t :: t in r <==> t in ts && keep(t)
    ensures Subsequence(r, ts)
    ensures |r| == Count(ts, keep)
    decreases |ts|
  {
    if ts == [] then []
    else
      var rest: TaskTable := ts[1..];
      var tail := Filter(rest, keep);
      if keep(ts[0]) then
        assert forall t :: t in tail ==> t.id != ts[0].id by {
          forall t | t in tail ensures t.id != ts[0].id {
            var j :| 0 <= j < |rest| && rest[j] == t;
            assert ts[j + 1] == t;
          }
        }
        var r := [ts[0]] + tail;
        assert r[1..] == tail;
        assert DistinctIds(r) by {
          forall i, j | 0 <= i < j < |r| ensures r[i].id != r[j].id {
            if i == 0 {
              assert r[j] in tail;
            } else {
              assert r[i] == tail[i - 1] && r[j] == tail[j - 1];
            }
          }
        }
        r
      else
        tail
  }

  /** Ids are keys: a table holds as many entries as distinct ids. */
  lemma {:induction false} IdsCount(ts: TaskTable)
    ensures |Ids(ts)| == |ts|
    decreases |ts|
  {
    if ts != [] {
      var rest: TaskTable := ts[1..];
      IdsCount(rest);
      assert Ids(ts) == {ts[0].id} + Ids(rest) by {
        forall k | k in Ids(ts) ensures k in {ts[0].id} + Ids(rest) {
          var i :| 0 <= i < |ts| && ts[i].id == k;
          if i > 0 {
            assert rest[i - 1].id == k;
          }
        }
        forall k | k in Ids(rest) ensures k in Ids(ts) {
          var i :| 0 <= i < |rest| && rest[i].id == k;
          assert ts[i + 1].id == k;
        }
      }
      assert ts[0].id !in Ids(rest) by {
        forall i | 0 <= i < |rest| ensures rest[i].id != ts[0].id {
          assert rest[i] == ts[i + 1];
        }
      }
    }
  }

  /** Two entries of a table with the same id are the same entry. */
  lemma SameIdSameTask(ts: TaskTable, a: Task, b: Task)
    requires a in ts && b in ts && a.id == b.id
    ensures a == b
  {
    var i :| 0 <= i < |ts| && ts[i] == a;
    var j :| 0 <= j < |ts| && ts[j] == b;
    assert ts[i].id == ts[j].id;
  }

  /** What `get` sees after removal by a condition: an entry survives exactly when `keep` accepts it. */
  lemma LookupFilter(ts: TaskTable, keep: Task -> bool, k: Int32)
    ensures Lookup(Filter(ts, keep), k)
         == if Lookup(ts, k).Some? && keep(Lookup(ts, k).value) then Lookup(ts, k) else None
  {
    var r := Filter(ts, keep);
    var l := Lookup(ts, k);
    var m := Lookup(r, k);
    if m.Some? {
      assert m.value in ts && keep(m.value);
      var i :| 0 <= i < |ts| && ts[i] == m.value;
      assert ts[i].id == k;
      SameIdSameTask(ts, m.value, l.value);
    }
    if l.Some? && keep(l.value) {
      assert l.value in r;
      var i :| 0 <= i < |r| && r[i] == l.value;
      assert r[i].id == k;
    }
  }
}
