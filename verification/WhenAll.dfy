/**
 `when_all`: a parent starts any number of tasks against a shared counter, registers itself, and
 goes on when all of them have finished, whether they finish while being started or later on any
 thread.
 */
module WhenAll {

  /** A task, up to its last action: taking one off the counter and, if that was the last one,
      resuming the parent. */
  datatype Task = NotStarted | Running | Resuming | Finished

  /** The parent: starting task `next`, with its handle stored, suspended, or past the await. */
  datatype Parent = Starting(next: nat) | Stored | Suspended | Continued

  /** `continued` counts how often the parent went on; `broken` records a resume without a stored
      handle or of a parent that is not suspended, or a counter below zero. */
  datatype State = State(count: nat, handleStored: bool, tasks: seq<Task>, parent: Parent, continued: nat, broken: bool)

  function Initial(n: nat): State {
    State(n + 1, false, seq(n, _ => NotStarted), Starting(0), 0, false)
  }

  datatype Action = StartTask | StoreHandle | Register | Notify(i: nat) | Resume(i: nat)

  predicate Enabled(s: State, a: Action) {
    match a
    case StartTask => s.parent.Starting? && s.parent.next < |s.tasks|
    case StoreHandle => s.parent == Starting(|s.tasks|)
    case Register => s.parent == Stored
    case Notify(i) => i < |s.tasks| && s.tasks[i] == Running
    case Resume(i) => i < |s.tasks| && s.tasks[i] == Resuming
  }

  function Decrement(s: State): State {
    if s.count == 0 then s.(broken := true) else s.(count := s.count - 1)
  }

  function Apply(s: State, a: Action): State
    requires Enabled(s, a)
  {
    match a
    case StartTask => s.(tasks := s.tasks[s.parent.next := Running], parent := Starting(s.parent.next + 1))
    case StoreHandle => s.(handleStored := true, parent := Stored)
    case Register =>
      if s.count > 1 then Decrement(s).(parent := Suspended)
      else Decrement(s).(parent := Continued, continued := s.continued + 1)
    case Notify(i) =>
      Decrement(s).(tasks := s.tasks[i := if s.count == 1 then Resuming else Finished])
    case Resume(i) =>
      s.(tasks := s.tasks[i := Finished], parent := Continued, continued := s.continued + 1,
         broken := s.broken || !s.handleStored || s.parent != Suspended)
  }

  ghost predicate Runs(s: State, actions: seq<Action>, s': State)
    decreases actions
  {
    if actions == [] then s == s'
    else Enabled(s, actions[0]) && Runs(Apply(s, actions[0]), actions[1..], s')
  }

  // ----- Invariant -----

  function Weight(t: Task): nat {
    if t == NotStarted || t == Running then 1 else 0
  }

  function Unfinished(tasks: seq<Task>): nat {
    if tasks == [] then 0 else Weight(tasks[0]) + Unfinished(tasks[1..])
  }

  lemma {:induction false} UnfinishedUpdate(tasks: seq<Task>, i: nat, t: Task)
    requires i < |tasks|
    ensures Unfinished(tasks[i := t]) + Weight(tasks[i]) == Unfinished(tasks) + Weight(t)
  {
    if i == 0 {
      assert tasks[0 := t][1..] == tasks[1..];
    } else {
      assert tasks[i := t][1..] == tasks[1..][i - 1 := t];
      UnfinishedUpdate(tasks[1..], i - 1, t);
    }
  }

  lemma {:induction false} UnfinishedZero(tasks: seq<Task>)
    ensures Unfinished(tasks) == 0 <==> forall i :: 0 <= i < |tasks| ==> Weight(tasks[i]) == 0
  {
    if tasks != [] {
      UnfinishedZero(tasks[1..]);
      if forall i :: 0 <= i < |tasks| ==> Weight(tasks[i]) == 0 {
        assert forall i :: 0 <= i < |tasks[1..]| ==> tasks[1..][i] == tasks[i + 1];
      }
      if Unfinished(tasks) == 0 {
        assert forall i :: 1 <= i < |tasks| ==> tasks[i] == tasks[1..][i - 1];
      }
    }
  }

  lemma {:induction false} UnfinishedInitially(n: nat)
    ensures Unfinished(Initial(n).tasks) == n
  {
    if n > 0 {
      assert Initial(n).tasks[1..] == Initial(n - 1).tasks;
      UnfinishedInitially(n - 1);
    }
  }

  predicate Registered(s: State) {
    s.parent == Suspended || s.parent == Continued
  }

  ghost predicate SomeResuming(s: State) {
    exists i :: 0 <= i < |s.tasks| && s.tasks[i] == Resuming
  }

  ghost predicate OneResuming(s: State) {
    forall i, j :: 0 <= i < |s.tasks| && 0 <= j < |s.tasks| && s.tasks[i] == s.tasks[j] == Resuming ==> i == j
  }

  ghost predicate Inv(s: State) {
    && !s.broken
    && s.count == Unfinished(s.tasks) + (if Registered(s) then 0 else 1)
    && (s.parent.Starting? ==> s.parent.next <= |s.tasks|)
    && (forall i :: 0 <= i < |s.tasks| ==> (s.tasks[i] == NotStarted <==> s.parent.Starting? && s.parent.next <= i))
    && (s.handleStored <==> !s.parent.Starting?)
    && (SomeResuming(s) ==> s.parent == Suspended && s.count == 0)
    && OneResuming(s)
    && (s.parent == Suspended ==> s.count > 0 || SomeResuming(s))
    && (s.parent == Continued ==> s.count == 0)
    && s.continued == (if s.parent == Continued then 1 else 0)
  }

  lemma InvInitial(n: nat)
    ensures Inv(Initial(n))
  {
    UnfinishedInitially(n);
  }

  lemma InvNotify(s: State, i: nat)
    requires Inv(s) && Enabled(s, Notify(i))
    ensures Inv(Apply(s, Notify(i)))
  {
    var t := if s.count == 1 then Resuming else Finished;
    UnfinishedUpdate(s.tasks, i, t);
    UnfinishedZero(s.tasks);
    var s' := Apply(s, Notify(i));
    assert s.count > 0 by { assert Weight(s.tasks[i]) == 1; }
    assert s'.tasks[i] == t;
    if s.parent == Suspended && s.count == 1 {
      assert SomeResuming(s');
    }
  }

  lemma InvResume(s: State, i: nat)
    requires Inv(s) && Enabled(s, Resume(i))
    ensures Inv(Apply(s, Resume(i)))
  {
    UnfinishedUpdate(s.tasks, i, Finished);
    assert SomeResuming(s);
  }

  lemma InvStep(s: State, a: Action)
    requires Inv(s) && Enabled(s, a)
    ensures Inv(Apply(s, a))
  {
    match a
    case StartTask => UnfinishedUpdate(s.tasks, s.parent.next, Running);
    case StoreHandle =>
    case Register => UnfinishedZero(s.tasks);
    case Notify(i) => InvNotify(s, i);
    case Resume(i) => InvResume(s, i);
  }

  lemma {:induction false} RunsSnoc(s: State, actions: seq<Action>, s': State, a: Action)
    requires Runs(s, actions, s') && Enabled(s', a)
    ensures Runs(s, actions + [a], Apply(s', a))
    decreases actions
  {
    if actions == [] {
      assert Runs(Apply(s, a), [], Apply(s', a));
    } else {
      assert (actions + [a])[1..] == actions[1..] + [a];
      RunsSnoc(Apply(s, actions[0]), actions[1..], s', a);
    }
  }

  /** A run that goes on from another is that one and a run from where it ended. */
  lemma {:induction false} RunsSuffix(s: State, actions: seq<Action>, mid: State, more: seq<Action>, s': State)
    requires Runs(s, actions, mid) && actions <= more && Runs(s, more, s')
    ensures Runs(mid, more[|actions|..], s')
    decreases actions
  {
    if actions != [] {
      assert more[1..][|actions[1..]|..] == more[|actions|..];
      RunsSuffix(Apply(s, actions[0]), actions[1..], mid, more[1..], s');
    }
  }

  lemma {:induction false} InvRun(s: State, actions: seq<Action>, s': State)
    requires Inv(s) && Runs(s, actions, s')
    ensures Inv(s')
    decreases actions
  {
    if actions != [] {
      InvStep(s, actions[0]);
      InvRun(Apply(s, actions[0]), actions[1..], s');
    }
  }

  // ----- Every run of every number of tasks -----

  ghost predicate AllFinished(tasks: seq<Task>) {
    forall i :: 0 <= i < |tasks| ==> tasks[i] == Finished
  }

  /** The parent goes on at most once, with its handle stored, and then every task has finished;
      until it has registered, the counter is one above the unfinished tasks. */
  lemma JoinsExactlyOnce(n: nat, actions: seq<Action>, s: State)
    requires Runs(Initial(n), actions, s)
    ensures !s.broken && s.continued <= 1 && (s.continued == 1 <==> s.parent == Continued)
    ensures s.count == Unfinished(s.tasks) + (if Registered(s) then 0 else 1)
    ensures forall i: nat :: Enabled(s, Resume(i)) ==> s.handleStored && s.parent == Suspended
    ensures (exists i: nat :: Enabled(s, Notify(i))) || Enabled(s, Register) ==> s.count > 0
    ensures s.parent == Continued ==> s.handleStored && AllFinished(s.tasks)
  {
    InvInitial(n);
    InvRun(Initial(n), actions, s);
    UnfinishedZero(s.tasks);
    forall i: nat | Enabled(s, Resume(i))
      ensures s.handleStored && s.parent == Suspended
    {
      assert SomeResuming(s);
    }
    forall i: nat | Enabled(s, Notify(i))
      ensures s.count > 0
    {
      assert Weight(s.tasks[i]) == 1;
    }
    if s.parent == Continued {
      forall i | 0 <= i < |s.tasks|
        ensures s.tasks[i] == Finished
      {
        assert Weight(s.tasks[i]) == 0;
        assert s.tasks[i] == Resuming ==> SomeResuming(s);
      }
    }
  }

  /** A suspended parent is never stranded: some task is still running, or one is about to resume it. */
  lemma NeverStranded(n: nat, actions: seq<Action>, s: State)
    requires Runs(Initial(n), actions, s)
    ensures s.parent == Suspended ==>
              exists i :: 0 <= i < |s.tasks| && (Enabled(s, Notify(i)) || Enabled(s, Resume(i)))
    ensures s.parent != Suspended && s.parent != Continued ==>
              Enabled(s, StartTask) || Enabled(s, StoreHandle) || Enabled(s, Register)
  {
    InvInitial(n);
    InvRun(Initial(n), actions, s);
    UnfinishedZero(s.tasks);
    if s.parent == Suspended {
      if SomeResuming(s) {
        var i :| 0 <= i < |s.tasks| && s.tasks[i] == Resuming;
        assert Enabled(s, Resume(i));
      } else {
        var i :| 0 <= i < |s.tasks| && Weight(s.tasks[i]) != 0;
        assert Enabled(s, Notify(i));
      }
    }
  }

  // ----- Every run ends, with the parent past its await -----

  /** The actions a task still has before it. */
  function TaskSteps(t: Task): nat {
    match t
    case NotStarted => 3
    case Running => 2
    case Resuming => 1
    case Finished => 0
  }

  function TasksSteps(tasks: seq<Task>): nat {
    if tasks == [] then 0 else TaskSteps(tasks[0]) + TasksSteps(tasks[1..])
  }

  function StepsLeft(s: State): nat {
    TasksSteps(s.tasks) + (match s.parent case Starting(_) => 2 case Stored => 1 case _ => 0)
  }

  lemma {:induction false} TasksStepsUpdate(tasks: seq<Task>, i: nat, t: Task)
    requires i < |tasks|
    ensures TasksSteps(tasks[i := t]) + TaskSteps(tasks[i]) == TasksSteps(tasks) + TaskSteps(t)
  {
    if i == 0 {
      assert tasks[0 := t][1..] == tasks[1..];
    } else {
      assert tasks[i := t][1..] == tasks[1..][i - 1 := t];
      TasksStepsUpdate(tasks[1..], i - 1, t);
    }
  }

  lemma {:induction false} StepsLeftInitially(n: nat)
    ensures StepsLeft(Initial(n)) == 3 * n + 2
  {
    if n > 0 {
      assert Initial(n).tasks[1..] == Initial(n - 1).tasks;
      StepsLeftInitially(n - 1);
    }
  }

  lemma StepsDecrease(s: State, a: Action)
    requires Inv(s) && Enabled(s, a)
    ensures StepsLeft(Apply(s, a)) < StepsLeft(s)
  {
    match a
    case StartTask => TasksStepsUpdate(s.tasks, s.parent.next, Running);
    case Notify(i) => TasksStepsUpdate(s.tasks, i, if s.count == 1 then Resuming else Finished);
    case Resume(i) => TasksStepsUpdate(s.tasks, i, Finished);
    case _ =>
  }

  lemma {:induction false} RunsAreShort(s: State, actions: seq<Action>, s': State)
    requires Inv(s) && Runs(s, actions, s')
    ensures |actions| + StepsLeft(s') <= StepsLeft(s)
    decreases actions
  {
    if actions != [] {
      InvStep(s, actions[0]);
      StepsDecrease(s, actions[0]);
      RunsAreShort(Apply(s, actions[0]), actions[1..], s');
    }
  }

  /** Exactly once: no run of `n` tasks has more than `3 n + 2` actions, and when none is enabled any more
      the parent has gone on once and every task has finished. */
  lemma EveryRunJoins(n: nat, actions: seq<Action>, s: State)
    requires Runs(Initial(n), actions, s)
    ensures |actions| <= 3 * n + 2
    ensures (forall a :: !Enabled(s, a)) <==> s.continued == 1
  {
    InvInitial(n);
    RunsAreShort(Initial(n), actions, s);
    StepsLeftInitially(n);
    JoinsExactlyOnce(n, actions, s);
    if s.continued != 1 {
      NeverStranded(n, actions, s);
    }
  }

  // ----- The code -----

  /** Who performs an action. */
  datatype Party = TheParent | TheTask(i: nat)

  function By(a: Action): Party {
    match a
    case Notify(i) => TheTask(i)
    case Resume(i) => TheTask(i)
    case _ => TheParent
  }

  /** What the others' actions leave alone: the position of a parent that is not suspended, and that
      of a task that has been started. */
  ghost predicate Undisturbed(p: Party, s: State, s': State) {
    && |s'.tasks| == |s.tasks|
    && match p
       case TheParent => s.parent != Suspended ==> s'.parent == s.parent
       case TheTask(i) => i < |s.tasks| && s.tasks[i] != NotStarted ==> s'.tasks[i] == s.tasks[i]
  }

  lemma OthersLeaveAlone(p: Party, s: State, a: Action)
    requires Inv(s) && Enabled(s, a) && By(a) != p
    ensures Undisturbed(p, s, Apply(s, a))
  {
    if a.Resume? {
      assert SomeResuming(s);
    }
  }

  lemma Extend(n: nat, trace: seq<Action>, s: State, a: Action)
    requires Runs(Initial(n), trace, s) && Enabled(s, a)
    ensures Runs(Initial(n), trace + [a], Apply(s, a)) && Inv(s) && Inv(Apply(s, a))
  {
    InvInitial(n);
    InvRun(Initial(n), trace, s);
    InvStep(s, a);
    RunsSnoc(Initial(n), trace, s, a);
  }

  /** The awaitable with its counter and its tasks.  `others` says what the other parties do in the
      successive gaps between the steps of a method: any actions at all, of which the enabled ones happen.
      `trace` records every action, so that `Valid` says that the object's history is a run. */
  class WhenAllReadyAwaitable {
    const size: nat
    var count: nat
    var awaitingStored: bool
    var tasks: seq<Task>
    var parent: Parent
    var continued: nat
    var others: seq<seq<Action>>
    ghost var trace: seq<Action>

    function View(): State
      reads this
    {
      State(count, awaitingStored, tasks, parent, continued, false)
    }

    ghost predicate Valid()
      reads this
    {
      Runs(Initial(size), trace, View())
    }

    constructor (n: nat, others: seq<seq<Action>>)
      ensures Valid() && size == n && View() == Initial(n) && trace == [] && this.others == others
    {
      size, count, awaitingStored, tasks := n, n + 1, false, seq(n, _ => NotStarted);
      parent, continued, trace := Starting(0), 0, [];
      this.others := others;
    }

    method StartTask()
      requires Valid() && Enabled(View(), Action.StartTask)
      modifies this`tasks, this`parent, this`trace
      ensures Valid() && View() == Apply(old(View()), Action.StartTask) && trace == old(trace) + [Action.StartTask]
    {
      Extend(size, trace, View(), Action.StartTask);
      tasks := tasks[parent.next := Running];
      parent := Starting(parent.next + 1);
      trace := trace + [Action.StartTask];
    }

    method StoreAwaiting()
      requires Valid() && Enabled(View(), StoreHandle)
      modifies this`awaitingStored, this`parent, this`trace
      ensures Valid() && View() == Apply(old(View()), StoreHandle) && trace == old(trace) + [StoreHandle]
    {
      Extend(size, trace, View(), StoreHandle);
      awaitingStored, parent := true, Stored;
      trace := trace + [StoreHandle];
    }

    /** The atomic decrement; the value before it is returned, as `fetch_sub` does. */
    method FetchSub() returns (was: nat)
      requires count > 0
      modifies this`count
      ensures was == old(count) && count == was - 1
    {
      was, count := count, count - 1;
    }

    method RegisterParent() returns (suspend: bool)
      requires Valid() && Enabled(View(), Register)
      modifies this`count, this`parent, this`continued, this`trace
      ensures Valid() && View() == Apply(old(View()), Register) && trace == old(trace) + [Register]
      ensures suspend <==> parent == Suspended
    {
      Extend(size, trace, View(), Register);
      var was := FetchSub();
      suspend := was > 1;
      parent, continued := if suspend then Suspended else Continued, if suspend then continued else continued + 1;
      trace := trace + [Register];
    }

    method Complete(i: nat) returns (last: bool)
      requires Valid() && Enabled(View(), Notify(i))
      modifies this`count, this`tasks, this`trace
      ensures Valid() && View() == Apply(old(View()), Notify(i)) && trace == old(trace) + [Notify(i)]
      ensures last <==> tasks[i] == Resuming
    {
      Extend(size, trace, View(), Notify(i));
      UnfinishedZero(tasks);
      assert Weight(tasks[i]) == 1;
      var was := FetchSub();
      last := was == 1;
      tasks := tasks[i := if last then Resuming else Finished];
      trace := trace + [Notify(i)];
    }

    /** Resuming the parent: its handle is there, and it is suspended. */
    method ResumeParent(i: nat)
      requires Valid() && Enabled(View(), Resume(i))
      modifies this`tasks, this`parent, this`continued, this`trace
      ensures Valid() && View() == Apply(old(View()), Resume(i)) && trace == old(trace) + [Resume(i)]
    {
      Extend(size, trace, View(), Resume(i));
      assert awaitingStored && parent == Suspended;
      tasks, parent, continued := tasks[i := Finished], Continued, continued + 1;
      trace := trace + [Resume(i)];
    }

    method Perform(a: Action)
      requires Valid() && Enabled(View(), a)
      modifies this
      ensures Valid() && View() == Apply(old(View()), a) && trace == old(trace) + [a] && others == old(others)
    {
      match a
      case StartTask => StartTask();
      case StoreHandle => StoreAwaiting();
      case Register => var _ := RegisterParent();
      case Notify(i) => var _ := Complete(i);
      case Resume(i) => ResumeParent(i);
    }

    /** A gap between two steps of `p`: whatever the others do there. */
    method Gap(p: Party)
      requires Valid()
      modifies this
      ensures Valid() && old(trace) <= trace && Undisturbed(p, old(View()), View())
    {
      if others == [] {
        return;
      }
      var plan := others[0];
      others := others[1..];
      for k := 0 to |plan|
        invariant Valid() && old(trace) <= trace && Undisturbed(p, old(View()), View())
      {
        if Enabled(View(), plan[k]) && By(plan[k]) != p {
          Extend(size, trace, View(), plan[k]);
          OthersLeaveAlone(p, View(), plan[k]);
          Perform(plan[k]);
        }
      }
    }

    /** The counter's `try_await`: the handle is stored before the decrement that lets others use it. */
    method CounterTryAwait() returns (suspend: bool)
      requires Valid() && parent == Starting(|tasks|)
      modifies this
      ensures Valid() && old(trace) <= trace && Runs(old(View()), trace[|old(trace)|..], View())
      ensures if suspend then parent == Suspended else parent == Continued && AllFinished(tasks)
    {
      StoreAwaiting();
      Gap(TheParent);
      suspend := RegisterParent();
      RunsSuffix(Initial(size), old(trace), old(View()), trace, View());
      JoinsExactlyOnce(size, trace, View());
    }

    /** The awaitable's `try_await`: start every task, whatever it does meanwhile, then register.  The
        parent stays suspended or goes on at once, and then every task has finished. */
    method TryAwait() returns (suspend: bool)
      requires Valid() && parent == Starting(0)
      modifies this
      ensures Valid() && old(trace) <= trace && Runs(old(View()), trace[|old(trace)|..], View())
      ensures if suspend then parent == Suspended else parent == Continued && AllFinished(tasks)
    {
      var n := |tasks|;
      for i := 0 to n
        invariant Valid() && old(trace) <= trace && |tasks| == n && parent == Starting(i)
      {
        StartTask();
        Gap(TheParent);
      }
      suspend := CounterTryAwait();
      RunsSuffix(Initial(size), old(trace), old(View()), trace, View());
    }

    /** `notify_awaitable_completed`: takes one off, and resumes the parent exactly when it was the last;
        by then every task has finished. */
    method NotifyAwaitableCompleted(i: nat) returns (resumed: bool)
      requires Valid() && i < |tasks| && tasks[i] == Running
      modifies this
      ensures Valid() && old(trace) <= trace && Runs(old(View()), trace[|old(trace)|..], View())
      ensures |tasks| == old(|tasks|) && tasks[i] == Finished && (resumed <==> old(count) == 1)
      ensures resumed ==> parent == Continued && AllFinished(tasks)
    {
      resumed := Complete(i);
      Gap(TheTask(i));
      if resumed {
        ResumeParent(i);
      }
      RunsSuffix(Initial(size), old(trace), old(View()), trace, View());
      JoinsExactlyOnce(size, trace, View());
    }
  }
}
