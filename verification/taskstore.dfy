/**
 * `TaskStore`: the in-memory table of tasks plus the counter `nextId` from which new
 * ids are drawn. Each operation is a pure transformer of the store's state.
 */
module TaskStore {
  import opened Base
  import opened JavaText
  import opened Records
  import opened TaskMap

  /** The store's state: its task table and the next id to hand out. */
  datatype Store = Store(tasks: TaskTable, nextId: Int32)

  /** A freshly constructed store, and the state `load` starts from. */
  const Empty: Store := Store([], 1)

  /** The counter invariant: the counter is positive and above every id in the table. */
  predicate CounterAhead(s: Store) {
    1 <= s.nextId && forall i :: 0 <= i < |s.tasks| ==> s.tasks[i].id < s.nextId
  }

  /** `get(id)`: the task filed under `id`, if any. */
  function Get(s: Store, id: Int32): (r: Option<Task>)
    ensures r.Some? <==> id in Ids(s.tasks)
    ensures r.Some? ==> r.value.id == id && r.value in s.tasks
  {
    Lookup(s.tasks, id)
  }

  /** `size()`: the number of distinct ids in the store. */
  function Size(s: Store): (n: nat)
    ensures n == |Ids(s.tasks)|
  {
    IdsCount(s.tasks);
    |s.tasks|
  }

  /** `all()`: every task, in iteration order, each found by `get` under its own id. */
  function All(s: Store): (r: seq<Task>)
    ensures |r| == Size(s)
    ensures forall i :: 0 <= i < |r| ==> Get(s, r[i].id) == Some(r[i])
    ensures forall id :: Get(s, id).Some? ==> Get(s, id).value in r
  {
    assert forall i :: 0 <= i < |s.tasks| ==> Get(s, s.tasks[i].id) == Some(s.tasks[i]) by {
      forall i | 0 <= i < |s.tasks| ensures Get(s, s.tasks[i].id) == Some(s.tasks[i]) {
        LookupAt(s.tasks, i);
      }
    }
    s.tasks
  }

  datatype Added = Added(store: Store, task: Task)

  /**
   * `add(title, due, p, tags)`: a task under the current counter value, with priority
   * MEDIUM when none is given and no tags when the tag set is null; the counter then
   * moves on (wrapping like a Java `int`).
   */
  function Add(s: Store, title: Option<string>, due: Option<Date>, priority: Option<Priority>,
               tags: Option<OrderedSet>): (r: Added)
    ensures r.task == Task(s.nextId, title, due, priority.GetOr(MEDIUM), false, tags.GetOr([]))
    ensures r.store.nextId == Increment(s.nextId)
    ensures Get(r.store, s.nextId) == Some(r.task)
    ensures forall k :: k != s.nextId ==> Get(r.store, k) == Get(s, k)
    ensures CounterAhead(s) ==> r.store.tasks == s.tasks + [r.task]
    ensures CounterAhead(s) && s.nextId < MaxInt32 ==> CounterAhead(r.store) && r.store.nextId == s.nextId + 1
  {
    var given := tags.GetOr([]);
    assert AddAll([], given) == given by {
      assert [] + given == given;
      AddAllDistinct([], given);
    }
    var t := Task(s.nextId, title, due, priority.GetOr(MEDIUM), false, AddAll([], given));
    var r := Added(Store(Put(s.tasks, t), Increment(s.nextId)), t);
    assert forall k :: Get(r.store, k) == if k == t.id then Some(t) else Get(s, k) by {
      forall k ensures Get(r.store, k) == if k == t.id then Some(t) else Get(s, k) {
        LookupPut(s.tasks, t, k);
      }
    }
    assert CounterAhead(s) ==> r.store.tasks == s.tasks + [t] by {
      if CounterAhead(s) {
        assert s.nextId !in Ids(s.tasks);
      }
    }
    r
  }

  datatype Deleted = Deleted(removed: bool, store: Store)

  /** `delete(id)`: removes the task filed under `id` and reports whether there was one. */
  function Delete(s: Store, id: Int32): (r: Deleted)
    ensures r.removed <==> Get(s, id).Some?
    ensures Get(r.store, id) == None
    ensures forall k :: k != id ==> Get(r.store, k) == Get(s, k)
    ensures Subsequence(r.store.tasks, s.tasks)
    ensures r.store.nextId == s.nextId
    ensures CounterAhead(s) ==> CounterAhead(r.store)
  {
    var keep := (t: Task) => t.id != id;
    var r := Deleted(id in Ids(s.tasks), Store(Filter(s.tasks, keep), s.nextId));
    assert forall k :: Get(r.store, k) == if Get(s, k).Some? && keep(Get(s, k).value) then Get(s, k) else None by {
      forall k ensures Get(r.store, k) == if Get(s, k).Some? && keep(Get(s, k).value) then Get(s, k) else None {
        LookupFilter(s.tasks, keep, k);
      }
    }
    assert forall i :: 0 <= i < |r.store.tasks| ==> r.store.tasks[i] in s.tasks;
    r
  }

  predicate IsDone(t: Task) {
    t.done
  }

  predicate IsOpen(t: Task) {
    !t.done
  }

  lemma {:induction false} CountOpenDone(ts: seq<Task>)
    ensures Count(ts, IsOpen) + Count(ts, IsDone) == |ts|
    decreases |ts|
  {
    if ts != [] {
      CountOpenDone(ts[1..]);
    }
  }

  /** `clearCompleted()`: drops every done task and keeps the others in their order. */
  function ClearCompleted(s: Store): (r: Store)
    ensures forall t :: t in r.tasks <==> t in s.tasks && !t.done
    ensures forall k :: Get(r, k) == if Get(s, k).Some? && !Get(s, k).value.done then Get(s, k) else None
    ensures Subsequence(r.tasks, s.tasks)
    ensures |s.tasks| - |r.tasks| == Count(s.tasks, IsDone)
    ensures r.nextId == s.nextId
    ensures CounterAhead(s) ==> CounterAhead(r)
  {
    var r := Store(Filter(s.tasks, IsOpen), s.nextId);
    assert forall k :: Get(r, k) == if Get(s, k).Some? && IsOpen(Get(s, k).value) then Get(s, k) else None by {
      forall k ensures Get(r, k) == if Get(s, k).Some? && IsOpen(Get(s, k).value) then Get(s, k) else None {
        LookupFilter(s.tasks, IsOpen, k);
      }
    }
    CountOpenDone(s.tasks);
    assert forall i :: 0 <= i < |r.tasks| ==> r.tasks[i] in s.tasks;
    r
  }

  /** The fields an edit supplies; an absent field is left as it is. */
  datatype Patch = Patch(
    title: Option<string>,
    due: Option<Option<Date>>,
    priority: Option<Priority>,
    done: Option<bool>,
    tags: Option<OrderedSet>)

  /** A task with the supplied fields replaced; its id never changes. */
  function Patched(t: Task, p: Patch): (r: Task)
    ensures r.id == t.id
    ensures p.title.Some? ==> r.title == p.title
    ensures p.title.None? ==> r.title == t.title
    ensures r.due == p.due.GetOr(t.due)
    ensures r.priority == p.priority.GetOr(t.priority)
    ensures r.done == p.done.GetOr(t.done)
    ensures r.tags == p.tags.GetOr(t.tags)
  {
    t.(title := if p.title.Some? then p.title else t.title,
       due := p.due.GetOr(t.due),
       priority := p.priority.GetOr(t.priority),
       done := p.done.GetOr(t.done),
       tags := p.tags.GetOr(t.tags))
  }

  datatype StoreError = NoSuchTask(id: Int32)

  /**
   * Changing a task found by `get` in place, as the `done`, `undone` and `edit` commands
   * do: an unknown id is an error and leaves the store alone.
   */
  function Update(s: Store, id: Int32, p: Patch): (r: Result<Store, StoreError>)
    ensures r.Err? <==> Get(s, id).None?
    ensures r.Err? ==> r.error == NoSuchTask(id)
    ensures r.Ok? ==> Get(r.value, id) == Some(Patched(Get(s, id).value, p))
    ensures r.Ok? ==> forall k :: k != id ==> Get(r.value, k) == Get(s, k)
    ensures r.Ok? ==> && r.value.nextId == s.nextId
                      && |r.value.tasks| == |s.tasks|
                      && forall i :: 0 <= i < |s.tasks| ==> r.value.tasks[i].id == s.tasks[i].id
    ensures r.Ok? && CounterAhead(s) ==> CounterAhead(r.value)
  {
    match Get(s, id)
    case None => Err(NoSuchTask(id))
    case Some(t) =>
      var u := Patched(t, p);
      var r := Store(Put(s.tasks, u), s.nextId);
      assert forall k :: Get(r, k) == if k == u.id then Some(u) else Get(s, k) by {
        forall k ensures Get(r, k) == if k == u.id then Some(u) else Get(s, k) {
          LookupPut(s.tasks, u, k);
        }
      }
      Ok(r)
  }

  /** One store operation, as the command loop issues them. */
  datatype Op =
    | AddOp(title: Option<string>, due: Option<Date>, priority: Option<Priority>, tags: Option<OrderedSet>)
    | DeleteOp(id: Int32)
    | ClearCompletedOp
    | UpdateOp(id: Int32, patch: Patch)

  function Apply(s: Store, op: Op): Store {
    match op
    case AddOp(title, due, priority, tags) => Add(s, title, due, priority, tags).store
    case DeleteOp(id) => Delete(s, id).store
    case ClearCompletedOp => ClearCompleted(s)
    case UpdateOp(id, patch) =>
      match Update(s, id, patch)
      case Ok(s') => s'
      case Err(_) => s
  }

  function Run(s: Store, ops: seq<Op>): Store
    decreases |ops|
  {
    if ops == [] then s else Run(Apply(s, ops[0]), ops[1..])
  }

  /** The ids the additions among `ops` hand out, in order. */
  function Issued(s: Store, ops: seq<Op>): seq<Int32>
    decreases |ops|
  {
    if ops == [] then []
    else (if ops[0].AddOp? then [s.nextId] else []) + Issued(Apply(s, ops[0]), ops[1..])
  }

  function AddCount(ops: seq<Op>): nat
    decreases |ops|
  {
    if ops == [] then 0 else (if ops[0].AddOp? then 1 else 0) + AddCount(ops[1..])
  }

  /** One operation keeps the counter ahead; only an addition moves it, by one. */
  lemma ApplyKeepsCounterAhead(s: Store, op: Op)
    requires CounterAhead(s)
    requires op.AddOp? ==> s.nextId < MaxInt32
    ensures CounterAhead(Apply(s, op))
    ensures Apply(s, op).nextId == s.nextId + (if op.AddOp? then 1 else 0)
  {
    match op
    case AddOp(title, due, priority, tags) =>
    case DeleteOp(id) =>
    case ClearCompletedOp =>
    case UpdateOp(id, patch) =>
  }

  /**
   * Over any run of operations that does not exhaust the `int` range, the counter stays
   * ahead of every id, never goes down, and the additions receive consecutive ids
   * starting at the counter's value: no id at or below an earlier id is handed out.
   */
  lemma {:induction false} RunKeepsCounterAhead(s: Store, ops: seq<Op>)
    requires CounterAhead(s)
    requires s.nextId + AddCount(ops) <= MaxInt32
    ensures CounterAhead(Run(s, ops))
    ensures Run(s, ops).nextId == s.nextId + AddCount(ops)
    ensures |Issued(s, ops)| == AddCount(ops)
    ensures forall i :: 0 <= i < |Issued(s, ops)| ==> Issued(s, ops)[i] == s.nextId + i
    decreases |ops|
  {
    if ops != [] {
      var s' := Apply(s, ops[0]);
      var head: seq<Int32> := if ops[0].AddOp? then [s.nextId] else [];
      ApplyKeepsCounterAhead(s, ops[0]);
      assert AddCount(ops) == |head| + AddCount(ops[1..]);
      RunKeepsCounterAhead(s', ops[1..]);
      var rest := Issued(s', ops[1..]);
      assert Issued(s, ops) == head + rest;
      forall i | 0 <= i < |head| + |rest| ensures (head + rest)[i] == s.nextId + i {
        if i >= |head| {
          assert (head + rest)[i] == rest[i - |head|];
        }
      }
    }
  }

  /**
   * The range bound above is needed: the counter is an `int` and `nextId++` wraps. From
   * the largest `int`, two additions hand out the largest and then the smallest `int`,
   * and the counter is left below an id in the store.
   */
  lemma CounterWrapsAtLimit(a: Op, b: Op)
    requires a.AddOp? && b.AddOp?
    ensures Issued(Store([], MaxInt32), [a, b]) == [MaxInt32, MinInt32]
    ensures !CounterAhead(Run(Store([], MaxInt32), [a, b]))
  {
    var s0 := Store([], MaxInt32);
    var s1 := Apply(s0, a);
    var s2 := Apply(s1, b);
    assert s1.nextId == MinInt32 && Get(s1, MaxInt32).Some?;
    assert [a, b][1..] == [b] && [b][1..] == [];
    assert Issued(s0, [a, b]) == [MaxInt32] + Issued(s1, [b]);
    assert Issued(s1, [b]) == [MinInt32] + Issued(s2, []);
    assert Run(s0, [a, b]) == Run(s1, [b]);
    assert Run(s1, [b]) == Run(s2, []);
    assert Get(s2, MaxInt32).Some?;
  }

  /** Once deleted, an id is never handed out again by later additions. */
  lemma DeletedIdNeverReissued(s: Store, id: Int32, ops: seq<Op>)
    requires CounterAhead(s) && Get(s, id).Some?
    requires s.nextId + AddCount(ops) <= MaxInt32
    ensures id !in Issued(Delete(s, id).store, ops)
  {
    var s' := Delete(s, id).store;
    RunKeepsCounterAhead(s', ops);
    var k :| 0 <= k < |s.tasks| && s.tasks[k].id == id;
  }
}
