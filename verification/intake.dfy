/** handleSubmit of src/components/NewTaskForm.tsx: set `loading`, check
    for a location, moderate `description + " By " + requester`, generate the
    title, then estimate time and size (one await after the other), hand the
    new ClientTask to onSubmit, call onClose, and clear `loading` in `finally`.
    The three vendor replies are oracle inputs; the calls the handler makes
    are written to a trace. */
module Intake {
  import opened Common
  import opened TaskTable
  import opened TaskStore
  import Ai
  import QuestApp

  /** What the handler does that can be observed, in the order it does it. */
  datatype Event =
    | Loading(on: bool)                 // setLoading
    | Moderation(text: string)          // moderationCheck(text)
    | TitleGeneration(description: string)
    | Estimation(description: string)   // estimateTimeAndSize(description)
    | Submit(task: ClientTask)          // onSubmit(task)
    | Close                             // onClose()

  /** How the handler ended. */
  datatype Outcome =
    | NoLocation            // alert and return before any call
    | Blocked               // moderation flagged the text: alert and return
    | Failed(fault: Fault)  // an awaited call threw
    | Submitted(task: ClientTask)

  /** The replies the vendor calls would give this submission. */
  datatype Replies = Replies(
    moderation: Result<seq<Ai.ModerationResult>>,
    title: Result<string>,
    estimate: Result<Ai.ParsedEstimate>)

  datatype Attempt = Attempt(outcome: Outcome, events: seq<Event>)

  /** The body of the `try` block. */
  function Steps(description: string, requester: string, location: Option<string>, replies: Replies): Attempt {
    if location.None? then Attempt(NoLocation, [])
    else
      var text := description + " By " + requester;
      var flagged := Ai.ModerationCheck(replies.moderation);
      if flagged.Err? then Attempt(Failed(flagged.fault), [Moderation(text)])
      else if flagged.value then Attempt(Blocked, [Moderation(text)])
      else
        var title := Ai.GenerateTitle(replies.title);
        if title.Err? then Attempt(Failed(title.fault), [Moderation(text), TitleGeneration(description)])
        else
          var estimate := Ai.EstimateTimeAndSize(replies.estimate);
          if estimate.Err? then
            Attempt(Failed(estimate.fault), [Moderation(text), TitleGeneration(description), Estimation(description)])
          else
            var task := ClientTask(title.value, description, requester, false, location.value,
                                   estimate.value.time, estimate.value.size);
            Attempt(Submitted(task), [Moderation(text), TitleGeneration(description), Estimation(description),
                                      Submit(task), Close])
  }

  /** The whole handler: `setLoading(true)`, the `try` block, and the `finally`. */
  function Submission(description: string, requester: string, location: Option<string>, replies: Replies): Attempt {
    var body := Steps(description, requester, location, replies);
    Attempt(body.outcome, [Loading(true)] + body.events + [Loading(false)])
  }

  /** The store mutation an outcome leads to through App's onSubmit. */
  function StoreCalls(outcome: Outcome): seq<Mutation> {
    if outcome.Submitted? then [CreateTask(QuestApp.ForwardedArgs(outcome.task))] else []
  }

  /** The position of each kind of event in the pipeline. */
  function Stage(e: Event): nat {
    match e
    case Loading(on) => if on then 0 else 6
    case Moderation(_) => 1
    case TitleGeneration(_) => 2
    case Estimation(_) => 3
    case Submit(_) => 4
    case Close => 5
  }

  // ----------------------------------------------------------------- lemmas

  /** Without a location the handler only toggles `loading`. */
  lemma NoLocationNoCalls(description: string, requester: string, replies: Replies)
    ensures Submission(description, requester, None, replies) == Attempt(NoLocation, [Loading(true), Loading(false)])
  {
  }

  /** With a location, the first call is moderation of `description + " By " + requester`. */
  lemma ModeratesDescriptionByRequester(description: string, requester: string, location: string, replies: Replies)
    ensures var a := Submission(description, requester, Some(location), replies);
      |a.events| >= 3 && a.events[1] == Moderation(description + " By " + requester)
  {
  }

  /** Flagged text ends the handler right after moderation: no title,
      no estimate, no onSubmit, no onClose. */
  lemma BlockedStopsAfterModeration(description: string, requester: string, location: string, replies: Replies)
    requires replies.moderation.Ok? && replies.moderation.value != [] && replies.moderation.value[0].flagged
    ensures Submission(description, requester, Some(location), replies)
         == Attempt(Blocked, [Loading(true), Moderation(description + " By " + requester), Loading(false)])
  {
  }

  /** The stages come in pipeline order, each at most once: generateTitle is
      awaited before estimateTimeAndSize, onSubmit comes after both, and the
      handler stops at the first stage that does not go through. */
  lemma {:induction false} StagesInOrder(description: string, requester: string, location: Option<string>, replies: Replies)
    ensures var a := Submission(description, requester, location, replies);
      forall i, j :: 0 <= i < j < |a.events| ==> Stage(a.events[i]) < Stage(a.events[j])
  {
    var body := Steps(description, requester, location, replies);
    var a := Submission(description, requester, location, replies);
    assert forall k :: 0 <= k < |body.events| ==> Stage(body.events[k]) == k + 1;
    forall i, j | 0 <= i < j < |a.events| ensures Stage(a.events[i]) < Stage(a.events[j]) {
      if 0 < i && j < |a.events| - 1 {
        assert a.events[i] == body.events[i - 1] && a.events[j] == body.events[j - 1];
      }
    }
  }

  /** `loading` goes on first and off last on every path, and nothing in
      between touches it. */
  lemma LoadingBrackets(description: string, requester: string, location: Option<string>, replies: Replies)
    ensures var a := Submission(description, requester, location, replies);
      && |a.events| >= 2
      && a.events[0] == Loading(true) && a.events[|a.events| - 1] == Loading(false)
      && forall i :: 0 < i < |a.events| - 1 ==> !a.events[i].Loading?
  {
  }

  /** onSubmit is reached exactly when there is a location, moderation does
      not flag the text and both inferences return; it is then called once,
      with `completed: false`, the generated title with its quotes removed and
      the estimate as given. */
  lemma SubmitsOnlyWhenEverythingPassed(description: string, requester: string, location: Option<string>, replies: Replies)
    ensures var a := Submission(description, requester, location, replies);
      && (a.outcome.Submitted? <==>
            && location.Some?
            && Ai.ModerationCheck(replies.moderation) == Ok(false)
            && Ai.GenerateTitle(replies.title).Ok?
            && Ai.EstimateTimeAndSize(replies.estimate).Ok?)
      && ((exists i :: 0 <= i < |a.events| && a.events[i].Submit?) <==> a.outcome.Submitted?)
      && (a.outcome.Submitted? ==>
            var t := a.outcome.task;
            && a.events == [Loading(true), Moderation(description + " By " + requester),
                            TitleGeneration(description), Estimation(description),
                            Submit(t), Close, Loading(false)]
            && !t.completed && '"' !in t.title
            && replies.title.Ok? && t.title == Ai.StripQuotes(replies.title.value)
            && t.description == description && t.requester == requester && t.location == location.value
            && Some(t.timeEstimate) == replies.estimate.value.time
            && Some(t.sizeEstimate) == replies.estimate.value.size)
  {
    var a := Submission(description, requester, location, replies);
    if a.outcome.Submitted? {
      assert a.events[4].Submit?;
    }
  }

  /** If an awaited call throws, neither onSubmit nor onClose is reached. */
  lemma FailureSkipsSubmitAndClose(description: string, requester: string, location: Option<string>, replies: Replies)
    ensures var a := Submission(description, requester, location, replies);
      a.outcome.Failed? ==> forall e :: e in a.events ==> !e.Submit? && !e.Close?
  {
  }

  /** onClose is only ever called after onSubmit. */
  lemma CloseOnlyAfterSubmit(description: string, requester: string, location: Option<string>, replies: Replies)
    ensures var a := Submission(description, requester, location, replies);
      forall j :: 0 <= j < |a.events| && a.events[j] == Close ==>
        exists i :: 0 <= i < j && a.events[i].Submit?
  {
    var a := Submission(description, requester, location, replies);
    forall j | 0 <= j < |a.events| && a.events[j] == Close
      ensures exists i :: 0 <= i < j && a.events[i].Submit?
    {
      assert a.events[4].Submit?;
    }
  }

  // ------------------------------------------------------------------ form

  /** The form's state when it is submitted: the text fields, the selected
      location (formatted as "lat,lng"), the `loading` flag, and the trace
      of what its handler has done so far. */
  class Form {
    var description: string
    var requester: string
    var location: Option<string>
    var loading: bool
    var trace: seq<Event>

    constructor (description: string, requester: string, location: Option<string>)
      ensures this.description == description && this.requester == requester && this.location == location
      ensures !loading && trace == []
    {
      this.description, this.requester, this.location := description, requester, location;
      loading, trace := false, [];
    }

    /** handleSubmit, with `app` as the onSubmit and onClose callbacks. */
    method HandleSubmit(app: QuestApp.App, replies: Replies) returns (outcome: Outcome)
      requires app.store.Valid()
      modifies this, app, app.store
      ensures app.store.Valid()
      ensures description == old(description) && requester == old(requester) && location == old(location)
      ensures !loading
      ensures trace == old(trace) + Submission(description, requester, location, replies).events
      ensures outcome == Submission(description, requester, location, replies).outcome
      ensures app.store.State() == Run(old(app.store.State()), StoreCalls(outcome)).0
      ensures app.downvoted == old(app.downvoted)
      ensures app.newTaskModalOpen == (if outcome.Submitted? then false else old(app.newTaskModalOpen))
    {
      ghost var steps := Steps(description, requester, location, replies);
      ghost var before := app.store.State();
      loading := true;
      trace := trace + [Loading(true)];
      ghost var start := trace;
      label body: {
        if location.None? {
          outcome := NoLocation;
          assert trace == start + steps.events;
          break body;
        }
        var text := description + " By " + requester;
        trace := trace + [Moderation(text)];
        var flagged := Ai.ModerationCheck(replies.moderation);
        if flagged.Err? {
          outcome := Failed(flagged.fault);
          assert trace == start + steps.events;
          break body;
        }
        if flagged.value {
          outcome := Blocked;
          assert trace == start + steps.events;
          break body;
        }
        trace := trace + [TitleGeneration(description)];
        var title := Ai.GenerateTitle(replies.title);
        if title.Err? {
          outcome := Failed(title.fault);
          assert trace == start + steps.events;
          break body;
        }
        trace := trace + [Estimation(description)];
        var estimate := Ai.EstimateTimeAndSize(replies.estimate);
        if estimate.Err? {
          outcome := Failed(estimate.fault);
          assert trace == start + steps.events;
          break body;
        }
        var task := ClientTask(title.value, description, requester, false, location.value,
                               estimate.value.time, estimate.value.size);
        trace := trace + [Submit(task)];
        var _ := app.OnSubmit(task);
        outcome := Submitted(task);
        trace := trace + [Close];
        app.OnClose();
        assert trace == start + steps.events;
        assert app.store.State() == Apply(before, CreateTask(QuestApp.ForwardedArgs(task))).0;
      }
      assert outcome == steps.outcome && trace == start + steps.events;
      loading := false;
      trace := trace + [Loading(false)];
    }
  }
}
