/** The tasks table as a mutable object: the mutations of convex/task.ts
    insert, patch and delete in place. Each method is proved to do what
    TaskTable.Apply says that mutation does. */
module TaskStore {
  import opened Common
  import opened TaskTable

  class Store {
    var tasks: map<TaskId, Task>
    var order: seq<TaskId>
    var nextId: nat

    /** The table as a value. */
    function State(): Db
      reads this
    {
      Db(tasks, order, nextId)
    }

    ghost predicate Valid()
      reads this
    {
      Wf(State())
    }

    constructor ()
      ensures Valid() && State() == Empty
    {
      tasks, order, nextId := map[], [], 0;
    }

    /** createTask: insert a record with `completed = false` and return its id. */
    method CreateTask(args: CreateArgs) returns (id: TaskId)
      requires Valid()
      modifies this
      ensures Valid()
      ensures (State(), IdReply(id)) == Apply(old(State()), Mutation.CreateTask(args))
    {
      id := nextId;
      tasks := tasks[id := NewRecord(id, args)];
      order := order + [id];
      nextId := nextId + 1;
      assert State() == Apply(old(State()), Mutation.CreateTask(args)).0;
    }

    /** updateTaskCompletion: `patch(id, {completed: true})`. */
    method UpdateTaskCompletion(id: TaskId) returns (reply: Reply)
      requires Valid()
      modifies this
      ensures Valid()
      ensures (State(), reply) == Apply(old(State()), Mutation.UpdateTaskCompletion(id))
    {
      if id !in tasks {
        return Thrown(NotFound);
      }
      tasks := tasks[id := tasks[id].(completed := true)];
      reply := VoidReply;
    }

    /** updateTaskWithAnswer: `patch(id, {answer})`. */
    method UpdateTaskWithAnswer(id: TaskId, answer: string) returns (reply: Reply)
      requires Valid()
      modifies this
      ensures Valid()
      ensures (State(), reply) == Apply(old(State()), Mutation.UpdateTaskWithAnswer(id, answer))
    {
      if id !in tasks {
        return Thrown(NotFound);
      }
      tasks := tasks[id := tasks[id].(answer := Some(answer))];
      reply := VoidReply;
    }

    /** deleteTask: `delete(id)`; the counter is left alone. */
    method DeleteTask(id: TaskId) returns (reply: Reply)
      requires Valid()
      modifies this
      ensures Valid()
      ensures (State(), reply) == Apply(old(State()), Mutation.DeleteTask(id))
    {
      if id !in tasks {
        return Thrown(NotFound);
      }
      tasks := tasks - {id};
      order := Without(order, id);
      reply := VoidReply;
    }
  }
}
