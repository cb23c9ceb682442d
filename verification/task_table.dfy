/** The Convex `tasks` table as a value, and the queries and mutations of
    convex/task.ts as functions on it. The class TaskStore.Store runs the
    mutations in place; this module is their specification. */
module TaskTable {
  import opened Common

  /** The arguments object of the createTask mutation. */
  datatype CreateArgs = CreateArgs(
    title: string,
    description: string,
    requester: string,
    location: string,
    timeEstimate: int,
    sizeEstimate: string)

  /** The table: records by id, the ids in insertion order (the order in which
      `collect()` returns documents) and the next id the table will issue. */
  datatype Db = Db(tasks: map<TaskId, Task>, order: seq<TaskId>, nextId: nat)

  const Empty: Db := Db(map[], [], 0)

  ghost predicate Distinct(ids: seq<TaskId>) {
    forall i, j :: 0 <= i < j < |ids| ==> ids[i] != ids[j]
  }

  /** Every record is listed once in `order`, is stored under its own id,
      and has an id below the counter. */
  ghost predicate Wf(db: Db) {
    && Distinct(db.order)
    && (forall id :: id in db.order <==> id in db.tasks)
    && (forall id :: id in db.tasks ==> id < db.nextId && db.tasks[id].id == id)
  }

  /** The four mutations of convex/task.ts. */
  datatype Mutation =
    | CreateTask(args: CreateArgs)
    | UpdateTaskCompletion(id: TaskId)
    | UpdateTaskWithAnswer(id: TaskId, answer: string)
    | DeleteTask(id: TaskId)

  /** What a mutation hands back: the new id, nothing, or an exception. */
  datatype Reply = IdReply(id: TaskId) | VoidReply | Thrown(fault: Fault)

  /** The document createTask inserts: no answer yet and not completed. */
  function NewRecord(id: TaskId, args: CreateArgs): Task {
    Task(id, args.title, args.description, args.requester, false,
         args.location, args.timeEstimate, args.sizeEstimate, None)
  }

  /** `ids` with `x` taken out, the rest in the same order. */
  function Without(ids: seq<TaskId>, x: TaskId): (r: seq<TaskId>)
    ensures forall y :: y in r <==> y in ids && y != x
    ensures Distinct(ids) ==> Distinct(r)
  {
    if ids == [] then []
    else
      var rest := Without(ids[1..], x);
      assert Distinct(ids) ==> ids[0] !in ids[1..];
      (if ids[0] == x then [] else [ids[0]]) + rest
  }

  /** Taking out an id that is not listed changes nothing. */
  lemma {:induction false} WithoutAbsent(ids: seq<TaskId>, x: TaskId)
    requires x !in ids
    ensures Without(ids, x) == ids
  {
    if ids != [] {
      WithoutAbsent(ids[1..], x);
      assert ids == [ids[0]] + ids[1..];
    }
  }

  /** Taking out a listed id closes the gap it leaves: the ids before it and
      the ids after it keep their order. */
  lemma {:induction false} WithoutSplice(p: seq<TaskId>, q: seq<TaskId>, x: TaskId)
    requires x !in p && x !in q
    ensures Without(p + [x] + q, x) == p + q
  {
    var ids := p + [x] + q;
    if p == [] {
      assert ids == [x] + q && ids[1..] == q;
      WithoutAbsent(q, x);
    } else {
      assert ids[0] == p[0] && ids[1..] == p[1..] + [x] + q;
      WithoutSplice(p[1..], q, x);
      assert p + q == [p[0]] + (p[1..] + q);
    }
  }

  /** The table after deleteTask removed a stored id. */
  function Deleted(db: Db, id: TaskId): (r: Db)
    ensures Wf(db) ==> Wf(r)
  {
    Db(db.tasks - {id}, Without(db.order, id), db.nextId)
  }

  /** One mutation as one transaction. `patch` and `delete` of an id that is
      not in the table throw, and the transaction leaves the table as it was. */
  function Apply(db: Db, m: Mutation): (r: (Db, Reply))
    ensures Wf(db) ==> Wf(r.0)
    ensures r.1.IdReply? <==> m.CreateTask?
    ensures r.1.IdReply? ==> r.1.id == db.nextId && r.0.nextId == db.nextId + 1
    ensures !r.1.IdReply? ==> r.0.nextId == db.nextId
    ensures r.1.Thrown? <==> !m.CreateTask? && m.id !in db.tasks
    ensures r.1.Thrown? ==> r.1.fault == NotFound && r.0 == db
  {
    match m
    case CreateTask(args) =>
      var id := db.nextId;
      assert Wf(db) ==> id !in db.order;
      (Db(db.tasks[id := NewRecord(id, args)], db.order + [id], db.nextId + 1), IdReply(id))
    case UpdateTaskCompletion(id) =>
      if id in db.tasks then
        (db.(tasks := db.tasks[id := db.tasks[id].(completed := true)]), VoidReply)
      else (db, Thrown(NotFound))
    case UpdateTaskWithAnswer(id, answer) =>
      if id in db.tasks then
        (db.(tasks := db.tasks[id := db.tasks[id].(answer := Some(answer))]), VoidReply)
      else (db, Thrown(NotFound))
    case DeleteTask(id) =>
      if id in db.tasks then (Deleted(db, id), VoidReply)
      else (db, Thrown(NotFound))
  }

  /** Mutations issued one after another; each one that throws is dropped. */
  function Run(db: Db, ms: seq<Mutation>): (r: (Db, seq<Reply>))
    ensures |r.1| == |ms|
    decreases |ms|
  {
    if ms == [] then (db, [])
    else
      var step := Apply(db, ms[0]);
      var rest := Run(step.0, ms[1..]);
      (rest.0, [step.1] + rest.1)
  }

  /** Issuing two mutations is applying one after the other. */
  lemma RunTwo(db: Db, first: Mutation, second: Mutation)
    ensures var mid := Apply(db, first); var last := Apply(mid.0, second);
      Run(db, [first, second]) == (last.0, [mid.1, last.1])
  {
    var ms := [first, second];
    var mid := Apply(db, first);
    assert ms[1..] == [second];
    var last := Apply(mid.0, second);
    assert [second][0] == second && [second][1..] == [];
    assert Run(last.0, []) == (last.0, []);
    assert Run(mid.0, [second]) == (last.0, [last.1] + []);
    assert [last.1] + [] == [last.1];
    assert Run(db, ms) == (last.0, [mid.1] + [last.1]);
    assert [mid.1] + [last.1] == [mid.1, last.1];
  }

  // ---------------------------------------------------------------- queries

  /** The records stored under `ids`, in the order of `ids`. */
  function Collect(ids: seq<TaskId>, tasks: map<TaskId, Task>): (r: seq<Task>)
    requires forall id :: id in ids ==> id in tasks
    ensures |r| == |ids|
    ensures forall i :: 0 <= i < |ids| ==> r[i] == tasks[ids[i]]
  {
    if ids == [] then [] else [tasks[ids[0]]] + Collect(ids[1..], tasks)
  }

  /** allTasks: every stored record once, in insertion order. */
  function AllTasks(db: Db): (r: seq<Task>)
    requires Wf(db)
    ensures |r| == |db.order|
    ensures forall i :: 0 <= i < |r| ==> r[i].id == db.order[i] && r[i] == db.tasks[r[i].id]
  {
    Collect(db.order, db.tasks)
  }

  /** The tasks of `ts` whose `completed` flag equals `completed`, in order. */
  function FilterCompleted(ts: seq<Task>, completed: bool): (r: seq<Task>)
    ensures |r| <= |ts|
    ensures forall t :: t in r <==> t in ts && t.completed == completed
  {
    if ts == [] then []
    else (if ts[0].completed == completed then [ts[0]] else []) + FilterCompleted(ts[1..], completed)
  }

  /** The table scan with the `completed` filter pushed into it. */
  function CollectWhere(ids: seq<TaskId>, tasks: map<TaskId, Task>, completed: bool): (r: seq<Task>)
    requires forall id :: id in ids ==> id in tasks
    ensures |r| <= |ids|
    ensures forall t :: t in r ==> t.completed == completed
  {
    if ids == [] then []
    else
      (if tasks[ids[0]].completed == completed then [tasks[ids[0]]] else [])
      + CollectWhere(ids[1..], tasks, completed)
  }

  /** completedTasks: `query("tasks").filter(completed == true).collect()`. */
  function CompletedTasks(db: Db): (r: seq<Task>)
    requires Wf(db)
    ensures forall t :: t in r ==> t.completed
  {
    CollectWhere(db.order, db.tasks, true)
  }

  // ----------------------------------------------------------------- lemmas

  /** allTasks holds exactly the stored records. */
  lemma AllTasksMembers(db: Db)
    requires Wf(db)
    ensures forall t: Task :: t in AllTasks(db) <==> t.id in db.tasks && db.tasks[t.id] == t
  {
    var r := AllTasks(db);
    forall t: Task | t.id in db.tasks && db.tasks[t.id] == t
      ensures t in r
    {
      var i :| 0 <= i < |db.order| && db.order[i] == t.id;
      assert r[i] == t;
    }
  }

  lemma {:induction false} FilterCompletedAppend(a: seq<Task>, b: seq<Task>, completed: bool)
    ensures FilterCompleted(a + b, completed) == FilterCompleted(a, completed) + FilterCompleted(b, completed)
  {
    if a == [] {
      assert a + b == b;
    } else {
      assert (a + b)[1..] == a[1..] + b;
      FilterCompletedAppend(a[1..], b, completed);
    }
  }

  lemma {:induction false} FilterCompletedIdempotent(ts: seq<Task>, completed: bool)
    ensures FilterCompleted(FilterCompleted(ts, completed), completed) == FilterCompleted(ts, completed)
  {
    if ts != [] {
      var head := if ts[0].completed == completed then [ts[0]] else [];
      FilterCompletedAppend(head, FilterCompleted(ts[1..], completed), completed);
      FilterCompletedIdempotent(ts[1..], completed);
    }
  }

  lemma {:induction false} CollectWhereIsFilter(ids: seq<TaskId>, tasks: map<TaskId, Task>, completed: bool)
    requires forall id :: id in ids ==> id in tasks
    ensures CollectWhere(ids, tasks, completed) == FilterCompleted(Collect(ids, tasks), completed)
  {
    if ids != [] {
      CollectWhereIsFilter(ids[1..], tasks, completed);
      assert Collect(ids, tasks)[1..] == Collect(ids[1..], tasks);
    }
  }

  /** completedTasks is allTasks filtered to the completed ones, in the same order. */
  lemma CompletedTasksIsFilteredAll(db: Db)
    requires Wf(db)
    ensures CompletedTasks(db) == FilterCompleted(AllTasks(db), true)
  {
    CollectWhereIsFilter(db.order, db.tasks, true);
  }

  /** createTask inserts one fresh record holding the arguments, not completed
      and with no answer, appends it to the listing and changes nothing else. */
  lemma CreateTaskAddsOne(db: Db, args: CreateArgs)
    requires Wf(db)
    ensures var (d, reply) := Apply(db, CreateTask(args));
      && reply == IdReply(db.nextId)
      && db.nextId !in db.tasks
      && d.tasks.Keys == db.tasks.Keys + {db.nextId}
      && |d.tasks| == |db.tasks| + 1
      && (forall id :: id in db.tasks ==> d.tasks[id] == db.tasks[id])
      && var t := d.tasks[db.nextId];
      && t.id == db.nextId && !t.completed && t.answer == None
      && t.title == args.title && t.description == args.description
      && t.requester == args.requester && t.location == args.location
      && t.timeEstimate == args.timeEstimate && t.sizeEstimate == args.sizeEstimate
      && AllTasks(d) == AllTasks(db) + [t]
  {
    var d := Apply(db, CreateTask(args)).0;
    var t := d.tasks[db.nextId];
    assert db.nextId !in db.order;
    assert AllTasks(d) == AllTasks(db) + [t];
  }

  /** updateTaskCompletion sets `completed` and touches nothing else; a
      missing id throws NotFound and leaves the table unchanged. */
  lemma UpdateTaskCompletionSetsOnlyCompleted(db: Db, id: TaskId)
    ensures var (d, reply) := Apply(db, UpdateTaskCompletion(id));
      if id in db.tasks then
        && reply == VoidReply
        && d.order == db.order && d.nextId == db.nextId && d.tasks.Keys == db.tasks.Keys
        && d.tasks[id].completed
        && d.tasks[id] == db.tasks[id].(completed := d.tasks[id].completed)
        && (forall k :: k in db.tasks && k != id ==> d.tasks[k] == db.tasks[k])
      else reply == Thrown(NotFound) && d == db
  {
  }

  /** Marking a task completed twice is the same as marking it once. */
  lemma UpdateTaskCompletionIdempotent(db: Db, id: TaskId)
    ensures var once := Apply(db, UpdateTaskCompletion(id)).0;
      Apply(once, UpdateTaskCompletion(id)).0 == once
  {
  }

  /** updateTaskWithAnswer overwrites `answer`, whatever it was, and touches
      nothing else; a missing id throws NotFound and changes nothing. */
  lemma UpdateTaskWithAnswerOverwrites(db: Db, id: TaskId, answer: string)
    ensures var (d, reply) := Apply(db, UpdateTaskWithAnswer(id, answer));
      if id in db.tasks then
        && reply == VoidReply
        && d.order == db.order && d.nextId == db.nextId && d.tasks.Keys == db.tasks.Keys
        && d.tasks[id].answer == Some(answer)
        && d.tasks[id] == db.tasks[id].(answer := d.tasks[id].answer)
        && (forall k :: k in db.tasks && k != id ==> d.tasks[k] == db.tasks[k])
      else reply == Thrown(NotFound) && d == db
  {
  }

  /** The later of two answers wins. */
  lemma LastAnswerWins(db: Db, id: TaskId, first: string, second: string)
    ensures Run(db, [UpdateTaskWithAnswer(id, first), UpdateTaskWithAnswer(id, second)]).0
         == Apply(db, UpdateTaskWithAnswer(id, second)).0
  {
    RunTwo(db, UpdateTaskWithAnswer(id, first), UpdateTaskWithAnswer(id, second));
  }

  /** Completion followed by the answer leaves the task completed and answered,
      whatever its prior state, with its other fields and all other tasks as before. */
  lemma {:induction false} CompleteThenAnswer(db: Db, id: TaskId, answer: string)
    ensures var (d, replies) := Run(db, [UpdateTaskCompletion(id), UpdateTaskWithAnswer(id, answer)]);
      if id in db.tasks then
        && replies == [VoidReply, VoidReply]
        && d.order == db.order && d.nextId == db.nextId && d.tasks.Keys == db.tasks.Keys
        && d.tasks[id].completed && d.tasks[id].answer == Some(answer)
        && d.tasks[id] == db.tasks[id].(completed := true, answer := Some(answer))
        && (forall k :: k in db.tasks && k != id ==> d.tasks[k] == db.tasks[k])
      else replies == [Thrown(NotFound), Thrown(NotFound)] && d == db
  {
    RunTwo(db, UpdateTaskCompletion(id), UpdateTaskWithAnswer(id, answer));
  }

  /** deleteTask removes exactly that record and its place in the listing;
      the counter is kept, so the id is not issued again. */
  lemma DeleteTaskRemovesOnlyIt(db: Db, id: TaskId)
    requires Wf(db)
    ensures var (d, reply) := Apply(db, DeleteTask(id));
      if id in db.tasks then
        && reply == VoidReply
        && d.tasks.Keys == db.tasks.Keys - {id}
        && |d.tasks| == |db.tasks| - 1
        && (forall k :: k in d.tasks ==> d.tasks[k] == db.tasks[k])
        && d.order == Without(db.order, id)
        && d.nextId == db.nextId
        && exists k :: 0 <= k < |db.order| && db.order[k] == id
             && d.order == db.order[..k] + db.order[k+1..]
             && AllTasks(d) == AllTasks(db)[..k] + AllTasks(db)[k+1..]
      else reply == Thrown(NotFound) && d == db
  {
    if id in db.tasks {
      assert Apply(db, DeleteTask(id)) == (Deleted(db, id), VoidReply);
      DeletedRecords(db, id);
      var k :| 0 <= k < |db.order| && db.order[k] == id;
      DeleteClosesGap(db, id, k);
    } else {
      assert Apply(db, DeleteTask(id)) == (db, Thrown(NotFound));
    }
  }

  /** The records deleteTask leaves: all but the deleted one, untouched. */
  lemma DeletedRecords(db: Db, id: TaskId)
    requires id in db.tasks
    ensures var d := Deleted(db, id);
      && d.tasks.Keys == db.tasks.Keys - {id}
      && |d.tasks| == |db.tasks| - 1
      && (forall k :: k in d.tasks ==> d.tasks[k] == db.tasks[k])
  {
    assert |db.tasks.Keys - {id}| == |db.tasks.Keys| - 1;
  }

  /** The delete at listing position `k`: the records before and after it keep
      their order in both the id listing and allTasks. */
  lemma DeleteClosesGap(db: Db, id: TaskId, k: nat)
    requires Wf(db) && k < |db.order| && db.order[k] == id
    ensures var d := Deleted(db, id);
      && d.order == db.order[..k] + db.order[k+1..]
      && AllTasks(d) == AllTasks(db)[..k] + AllTasks(db)[k+1..]
  {
    var before, after := db.order[..k], db.order[k+1..];
    assert db.order == before + [id] + after;
    assert id !in before && id !in after;
    WithoutSplice(before, after, id);
    CollectClosesGap(before, after, db.tasks, id);
  }

  /** Collecting a listing with one id cut out, from the map without that id,
      is the full collection with that id's record cut out. */
  lemma CollectClosesGap(before: seq<TaskId>, after: seq<TaskId>, tasks: map<TaskId, Task>, x: TaskId)
    requires x !in before && x !in after
    requires forall id :: id in before + [x] + after ==> id in tasks
    ensures forall id :: id in before + after ==> id in tasks - {x}
    ensures var all := Collect(before + [x] + after, tasks);
      Collect(before + after, tasks - {x}) == all[..|before|] + all[|before|+1..]
  {
    var ids := before + [x] + after;
    assert forall id :: id in before ==> id in ids;
    assert forall id :: id in after ==> id in ids;
    assert x in tasks by { assert ids[|before|] == x; }
    assert ids == before + ([x] + after);
    CollectAppend([x], after, tasks);
    CollectAppend(before, [x] + after, tasks);
    CollectDrop(before, tasks, x);
    CollectDrop(after, tasks, x);
    CollectAppend(before, after, tasks - {x});
    var all := Collect(ids, tasks);
    assert all == Collect(before, tasks) + ([tasks[x]] + Collect(after, tasks));
    assert all[..|before|] == Collect(before, tasks);
    var tail := [tasks[x]] + Collect(after, tasks);
    assert all[|before|..] == tail;
    assert tail[1..] == Collect(after, tasks);
    assert all[|before|+1..] == all[|before|..][1..];
  }

  /** Collecting two listings one after the other is collecting their concatenation. */
  lemma CollectAppend(a: seq<TaskId>, b: seq<TaskId>, tasks: map<TaskId, Task>)
    requires forall id :: id in a ==> id in tasks
    requires forall id :: id in b ==> id in tasks
    ensures forall id :: id in a + b ==> id in tasks
    ensures Collect(a + b, tasks) == Collect(a, tasks) + Collect(b, tasks)
  {
  }

  /** Records that a listing does not name play no part in collecting it. */
  lemma CollectDrop(ids: seq<TaskId>, tasks: map<TaskId, Task>, x: TaskId)
    requires x !in ids && forall id :: id in ids ==> id in tasks
    ensures forall id :: id in ids ==> id in tasks - {x}
    ensures Collect(ids, tasks - {x}) == Collect(ids, tasks)
  {
  }

  /** Over any run of mutations the ids createTask hands back are strictly
      increasing and never below the counter at the start, so no id that was
      ever issued (and maybe deleted since) comes back. */
  lemma {:induction false} RunIssuesFreshIds(db: Db, ms: seq<Mutation>)
    requires Wf(db)
    decreases |ms|
    ensures var (d, replies) := Run(db, ms);
      && Wf(d)
      && d.nextId >= db.nextId
      && (forall i :: 0 <= i < |replies| && replies[i].IdReply? ==>
            db.nextId <= replies[i].id < d.nextId && replies[i].id !in db.tasks)
      && (forall i, j :: 0 <= i < j < |replies| && replies[i].IdReply? && replies[j].IdReply? ==>
            replies[i].id < replies[j].id)
  {
    if ms != [] {
      var step := Apply(db, ms[0]);
      RunIssuesFreshIds(step.0, ms[1..]);
      var replies := Run(db, ms).1;
      assert replies == [step.1] + Run(step.0, ms[1..]).1;
      forall i, j | 0 <= i < j < |replies| && replies[i].IdReply? && replies[j].IdReply?
        ensures replies[i].id < replies[j].id
      {
        if i > 0 {
          assert replies[i] == Run(step.0, ms[1..]).1[i - 1];
        }
        assert replies[j] == Run(step.0, ms[1..]).1[j - 1];
      }
      forall i | 0 <= i < |replies| && replies[i].IdReply?
        ensures db.nextId <= replies[i].id < Run(db, ms).0.nextId && replies[i].id !in db.tasks
      {
        if i > 0 {
          assert replies[i] == Run(step.0, ms[1..]).1[i - 1];
        }
      }
    }
  }
}
