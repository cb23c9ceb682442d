/** The two tab lists of src/App.tsx: the tasks whose `completed` flag
    matches the tab, minus the ids in the viewer's `downvotedTasks` list,
    newest first (`filter`, `filter`, `slice(0)`, `reverse()`). */
module Visibility {
  import opened Common
  import TaskTable

  /** The tabs of the page: "todo" (open quests) and "completed". */
  datatype Tab = Todo | Completed

  /** The tasks of `ts` whose id is not in `downvoted`, in order. */
  function WithoutDownvoted(ts: seq<Task>, downvoted: seq<TaskId>): (r: seq<Task>)
    ensures |r| <= |ts|
    ensures forall t :: t in r <==> t in ts && t.id !in downvoted
  {
    if ts == [] then []
    else (if ts[0].id in downvoted then [] else [ts[0]]) + WithoutDownvoted(ts[1..], downvoted)
  }

  function Reverse<T>(s: seq<T>): (r: seq<T>)
    ensures |r| == |s|
    ensures forall i :: 0 <= i < |s| ==> r[i] == s[|s| - 1 - i]
    ensures multiset(r) == multiset(s)
  {
    if s == [] then []
    else
      assert s == [s[0]] + s[1..];
      Reverse(s[1..]) + [s[0]]
  }

  /** The tasks a tab keeps, still in store order. */
  function Kept(ts: seq<Task>, downvoted: seq<TaskId>, completed: bool): seq<Task> {
    WithoutDownvoted(TaskTable.FilterCompleted(ts, completed), downvoted)
  }

  /** The list a tab renders. `slice(0)` copies before `reverse()`, and a
      Dafny sequence is a value, so `ts` itself is never reordered. */
  function TabList(ts: seq<Task>, downvoted: seq<TaskId>, tab: Tab): (r: seq<Task>)
    ensures |r| <= |ts|
    ensures forall t :: t in r <==> t in ts && t.completed == (tab == Completed) && t.id !in downvoted
  {
    var kept := Kept(ts, downvoted, tab == Completed);
    assert forall t :: t in Reverse(kept) <==> t in multiset(kept);
    Reverse(kept)
  }

  /** notCompletedTasks (App.tsx lines 20-28). */
  function NotCompletedTasks(ts: seq<Task>, downvoted: seq<TaskId>): seq<Task> {
    TabList(ts, downvoted, Todo)
  }

  /** completedTasks (App.tsx lines 33-41). */
  function CompletedTasks(ts: seq<Task>, downvoted: seq<TaskId>): seq<Task> {
    TabList(ts, downvoted, Completed)
  }

  // ----------------------------------------------------------------- lemmas

  lemma {:induction false} WithoutDownvotedAppend(a: seq<Task>, b: seq<Task>, downvoted: seq<TaskId>)
    ensures WithoutDownvoted(a + b, downvoted) == WithoutDownvoted(a, downvoted) + WithoutDownvoted(b, downvoted)
  {
    if a == [] {
      assert a + b == b;
    } else {
      assert (a + b)[1..] == a[1..] + b;
      WithoutDownvotedAppend(a[1..], b, downvoted);
    }
  }

  lemma {:induction false} WithoutDownvotedIdempotent(ts: seq<Task>, downvoted: seq<TaskId>)
    ensures WithoutDownvoted(WithoutDownvoted(ts, downvoted), downvoted) == WithoutDownvoted(ts, downvoted)
  {
    if ts != [] {
      var head := if ts[0].id in downvoted then [] else [ts[0]];
      WithoutDownvotedAppend(head, WithoutDownvoted(ts[1..], downvoted), downvoted);
      WithoutDownvotedIdempotent(ts[1..], downvoted);
    }
  }

  lemma ReverseAppend<T>(a: seq<T>, b: seq<T>)
    ensures Reverse(a + b) == Reverse(b) + Reverse(a)
  {
    var r, s := Reverse(a + b), Reverse(b) + Reverse(a);
    assert |r| == |s|;
    forall i | 0 <= i < |r| ensures r[i] == s[i] {
      if i < |b| {
        assert r[i] == (a + b)[|a| + |b| - 1 - i];
      } else {
        assert r[i] == (a + b)[|a| + |b| - 1 - i];
      }
    }
  }

  lemma ReverseReverse<T>(s: seq<T>)
    ensures Reverse(Reverse(s)) == s
  {
    assert forall i :: 0 <= i < |s| ==> Reverse(Reverse(s))[i] == s[i];
  }

  /** The filters keep the relative order of what they keep. */
  lemma KeptAppend(a: seq<Task>, b: seq<Task>, downvoted: seq<TaskId>, completed: bool)
    ensures Kept(a + b, downvoted, completed) == Kept(a, downvoted, completed) + Kept(b, downvoted, completed)
  {
    TaskTable.FilterCompletedAppend(a, b, completed);
    WithoutDownvotedAppend(TaskTable.FilterCompleted(a, completed), TaskTable.FilterCompleted(b, completed), downvoted);
  }

  lemma {:induction false} KeptReverse(ts: seq<Task>, downvoted: seq<TaskId>, completed: bool)
    ensures Kept(Reverse(ts), downvoted, completed) == Reverse(Kept(ts, downvoted, completed))
  {
    if ts != [] {
      KeptReverse(ts[1..], downvoted, completed);
      KeptAppend(Reverse(ts[1..]), [ts[0]], downvoted, completed);
      assert ts == [ts[0]] + ts[1..];
      KeptAppend([ts[0]], ts[1..], downvoted, completed);
      ReverseAppend(Kept([ts[0]], downvoted, completed), Kept(ts[1..], downvoted, completed));
      assert Reverse(Kept([ts[0]], downvoted, completed)) == Kept([ts[0]], downvoted, completed);
    }
  }

  lemma KeptIdempotent(ts: seq<Task>, downvoted: seq<TaskId>, completed: bool)
    ensures Kept(Kept(ts, downvoted, completed), downvoted, completed) == Kept(ts, downvoted, completed)
  {
    var f := TaskTable.FilterCompleted(ts, completed);
    var w := WithoutDownvoted(f, downvoted);
    // dropping downvoted ids and filtering on the flag commute
    FilterOfWithout(f, downvoted, completed);
    TaskTable.FilterCompletedIdempotent(ts, completed);
    WithoutDownvotedIdempotent(f, downvoted);
  }

  lemma {:induction false} FilterOfWithout(ts: seq<Task>, downvoted: seq<TaskId>, completed: bool)
    requires forall t :: t in ts ==> t.completed == completed
    ensures TaskTable.FilterCompleted(WithoutDownvoted(ts, downvoted), completed) == WithoutDownvoted(ts, downvoted)
  {
    if ts != [] {
      FilterOfWithout(ts[1..], downvoted, completed);
      var head := if ts[0].id in downvoted then [] else [ts[0]];
      TaskTable.FilterCompletedAppend(head, WithoutDownvoted(ts[1..], downvoted), completed);
    }
  }

  /** The two tabs never share a task, and together they hold exactly the
      tasks the viewer has not downvoted, each as often as the store has it. */
  lemma {:induction false} TabsPartition(ts: seq<Task>, downvoted: seq<TaskId>)
    ensures forall t :: !(t in NotCompletedTasks(ts, downvoted) && t in CompletedTasks(ts, downvoted))
    ensures multiset(NotCompletedTasks(ts, downvoted)) + multiset(CompletedTasks(ts, downvoted))
         == multiset(WithoutDownvoted(ts, downvoted))
  {
    KeptPartition(ts, downvoted);
  }

  lemma KeptSingle(t: Task, downvoted: seq<TaskId>, completed: bool)
    ensures WithoutDownvoted([t], downvoted) == if t.id in downvoted then [] else [t]
    ensures Kept([t], downvoted, completed)
         == if t.completed == completed && t.id !in downvoted then [t] else []
  {
    assert [t][1..] == [];
    assert TaskTable.FilterCompleted([t], completed) == if t.completed == completed then [t] else [];
  }

  lemma {:induction false} KeptPartition(ts: seq<Task>, downvoted: seq<TaskId>)
    ensures multiset(Kept(ts, downvoted, false)) + multiset(Kept(ts, downvoted, true))
         == multiset(WithoutDownvoted(ts, downvoted))
  {
    if ts != [] {
      var h, rest := ts[0], ts[1..];
      assert ts == [h] + rest;
      KeptPartition(rest, downvoted);
      KeptAppend([h], rest, downvoted, false);
      KeptAppend([h], rest, downvoted, true);
      WithoutDownvotedAppend([h], rest, downvoted);
      SinglePartition(h, downvoted);
      var open, done := Kept(rest, downvoted, false), Kept(rest, downvoted, true);
      var openH, doneH := Kept([h], downvoted, false), Kept([h], downvoted, true);
      assert multiset(openH + open) + multiset(doneH + done)
          == (multiset(openH) + multiset(doneH)) + (multiset(open) + multiset(done));
    }
  }

  lemma SinglePartition(h: Task, downvoted: seq<TaskId>)
    ensures multiset(Kept([h], downvoted, false)) + multiset(Kept([h], downvoted, true))
         == multiset(WithoutDownvoted([h], downvoted))
  {
    KeptSingle(h, downvoted, false);
    KeptSingle(h, downvoted, true);
  }

  /** A task appended to the store heads the list of the tab that keeps it,
      above everything that was there; other tabs are unchanged. */
  lemma NewestFirst(ts: seq<Task>, t: Task, downvoted: seq<TaskId>, tab: Tab)
    ensures TabList(ts + [t], downvoted, tab)
         == (if t.completed == (tab == Completed) && t.id !in downvoted then [t] else [])
            + TabList(ts, downvoted, tab)
  {
    var c := tab == Completed;
    var old_, new_ := Kept(ts, downvoted, c), Kept([t], downvoted, c);
    KeptAppend(ts, [t], downvoted, c);
    ReverseAppend(old_, new_);
    KeptSingle(t, downvoted, c);
    assert Reverse(new_) == new_;
  }

  /** A list every task of which the tab keeps comes out reversed, whole. */
  lemma {:induction false} AllKept(ts: seq<Task>, downvoted: seq<TaskId>, tab: Tab)
    requires forall t :: t in ts ==> t.completed == (tab == Completed) && t.id !in downvoted
    ensures TabList(ts, downvoted, tab) == Reverse(ts)
  {
    KeptAll(ts, downvoted, tab == Completed);
  }

  lemma {:induction false} KeptAll(ts: seq<Task>, downvoted: seq<TaskId>, completed: bool)
    requires forall t :: t in ts ==> t.completed == completed && t.id !in downvoted
    ensures Kept(ts, downvoted, completed) == ts
  {
    if ts != [] {
      KeptAll(ts[1..], downvoted, completed);
      assert ts == [ts[0]] + ts[1..];
      KeptAppend([ts[0]], ts[1..], downvoted, completed);
      KeptSingle(ts[0], downvoted, completed);
    }
  }

  /** Three open tasks inserted in the order t1, t2, t3 show as [t3, t2, t1]. */
  lemma ThreeOpenNewestFirst(t1: Task, t2: Task, t3: Task, downvoted: seq<TaskId>)
    requires !t1.completed && !t2.completed && !t3.completed
    requires t1.id !in downvoted && t2.id !in downvoted && t3.id !in downvoted
    ensures NotCompletedTasks([t1, t2, t3], downvoted) == [t3, t2, t1]
  {
    var ts := [t1, t2, t3];
    assert forall t :: t in ts ==> t.completed == (Todo == Completed) && t.id !in downvoted;
    AllKept(ts, downvoted, Todo);
    ReverseThree(t1, t2, t3);
  }

  lemma ReverseThree<T>(a: T, b: T, c: T)
    ensures Reverse([a, b, c]) == [c, b, a]
  {
  }

  /** Each tab list is the store order, restricted to the kept tasks, reversed. */
  lemma TabListIsReversedStoreOrder(ts: seq<Task>, downvoted: seq<TaskId>, tab: Tab)
    ensures Reverse(TabList(ts, downvoted, tab)) == Kept(ts, downvoted, tab == Completed)
  {
    ReverseReverse(Kept(ts, downvoted, tab == Completed));
  }

  /** Running the tab's derivation again over its own output keeps the same
      tasks (only the order flips back); it never grows a list. */
  lemma RefilterKeepsSameTasks(ts: seq<Task>, downvoted: seq<TaskId>, tab: Tab)
    ensures TabList(TabList(ts, downvoted, tab), downvoted, tab) == Reverse(TabList(ts, downvoted, tab))
    ensures multiset(TabList(TabList(ts, downvoted, tab), downvoted, tab)) == multiset(TabList(ts, downvoted, tab))
  {
    var c := tab == Completed;
    var k := Kept(ts, downvoted, c);
    KeptReverse(k, downvoted, c);
    KeptIdempotent(ts, downvoted, c);
    ReverseReverse(k);
  }
}
