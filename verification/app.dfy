/** The page of src/App.tsx: it reads the whole tasks table, derives the two
    tab lists for this viewer, and turns card and form events into store
    mutations. The viewer's `downvotedTasks` list comes from local storage
    and this component never writes it (its setter is bound to `_`). */
module QuestApp {
  import opened Common
  import opened TaskTable
  import opened TaskStore
  import Visibility

  /** The createTask arguments onSubmit builds from the form's ClientTask:
      every field but `completed`. */
  function ForwardedArgs(task: ClientTask): CreateArgs {
    CreateArgs(task.title, task.description, task.requester, task.location,
               task.timeEstimate, task.sizeEstimate)
  }

  class App {
    const store: Store
    var downvoted: seq<TaskId>
    var newTaskModalOpen: bool

    constructor (store: Store, downvoted: seq<TaskId>)
      ensures this.store == store && this.downvoted == downvoted && !newTaskModalOpen
    {
      this.store := store;
      this.downvoted := downvoted;
      newTaskModalOpen := false;
    }

    /** notCompletedTasks: every stored open task the viewer has not
        downvoted, and nothing else. */
    function NotCompletedTasks(): (r: seq<Task>)
      reads this, store
      requires store.Valid()
      ensures forall t :: t in r <==>
        t.id in store.tasks && store.tasks[t.id] == t && !t.completed && t.id !in downvoted
    {
      AllTasksMembers(store.State());
      Visibility.NotCompletedTasks(AllTasks(store.State()), downvoted)
    }

    /** completedTasks: every stored completed task the viewer has not
        downvoted, and nothing else. */
    function CompletedTasks(): (r: seq<Task>)
      reads this, store
      requires store.Valid()
      ensures forall t :: t in r <==>
        t.id in store.tasks && store.tasks[t.id] == t && t.completed && t.id !in downvoted
    {
      AllTasksMembers(store.State());
      Visibility.CompletedTasks(AllTasks(store.State()), downvoted)
    }

    /** A card's onComplete. On the todo tab it issues updateTaskCompletion and
        then updateTaskWithAnswer with the notes; on the completed tab it is
        `() => {}`. */
    method OnComplete(tab: Visibility.Tab, id: TaskId, notes: string)
      requires store.Valid()
      modifies store
      ensures store.Valid()
      ensures downvoted == old(downvoted) && newTaskModalOpen == old(newTaskModalOpen)
      ensures store.State() == Run(old(store.State()),
        if tab == Visibility.Todo then [UpdateTaskCompletion(id), UpdateTaskWithAnswer(id, notes)] else []).0
    {
      if tab == Visibility.Todo {
        var _ := store.UpdateTaskCompletion(id);
        var _ := store.UpdateTaskWithAnswer(id, notes);
        RunTwo(old(store.State()), UpdateTaskCompletion(id), UpdateTaskWithAnswer(id, notes));
      }
    }

    /** A card's onDownvote, on either tab: deleteTask on the shared table. */
    method OnDownvote(id: TaskId)
      requires store.Valid()
      modifies store
      ensures store.Valid()
      ensures downvoted == old(downvoted) && newTaskModalOpen == old(newTaskModalOpen)
      ensures store.State() == Apply(old(store.State()), DeleteTask(id)).0
    {
      var _ := store.DeleteTask(id);
    }

    /** The form's onSubmit: createTask with the six fields other than
        `completed`, which the new record always has false. */
    method OnSubmit(task: ClientTask) returns (id: TaskId)
      requires store.Valid()
      modifies store
      ensures store.Valid()
      ensures downvoted == old(downvoted) && newTaskModalOpen == old(newTaskModalOpen)
      ensures (store.State(), IdReply(id)) == Apply(old(store.State()), CreateTask(ForwardedArgs(task)))
      ensures id !in old(store.tasks) && id in store.tasks
      ensures var t := store.tasks[id];
        && t.title == task.title && t.description == task.description
        && t.requester == task.requester && t.location == task.location
        && t.timeEstimate == task.timeEstimate && t.sizeEstimate == task.sizeEstimate
        && !t.completed && t.answer == None
    {
      id := store.CreateTask(ForwardedArgs(task));
      CreateTaskAddsOne(old(store.State()), ForwardedArgs(task));
    }

    /** The form's onClose: close the new-quest dialog. */
    method OnClose()
      modifies this
      ensures !newTaskModalOpen && downvoted == old(downvoted)
    {
      newTaskModalOpen := false;
    }
  }
}
