/**
 The asynchronous scope: work is spawned into it, also by other work, and `join` goes on when the last
 piece of work has finished.
 */
module AsyncScopes {

  type WorkId = nat

  /** The owner: still spawning, with its continuation stored, suspended in `join`, or past it. */
  datatype Owner = Spawning | Stored | Suspended | Continued

  datatype Spawner = ByOwner | ByWork(id: WorkId)

  /** `resuming` holds the work that took the counter to zero until it has resumed the owner. */
  datatype State = State(
    count: nat,
    continuationStored: bool,
    running: set<WorkId>,
    resuming: set<WorkId>,
    owner: Owner,
    continued: nat,
    broken: bool)

  const INITIAL: State := State(1, false, {}, {}, Spawning, 0, false)

  datatype Action = Spawn(from: Spawner, id: WorkId) | Finish(id: WorkId) | Resume(id: WorkId) | BeginJoin | Register

  /** Only the owner before its `join` and running work may spawn. */
  predicate Enabled(s: State, a: Action) {
    match a
    case Spawn(from, id) =>
      && id !in s.running && id !in s.resuming
      && (if from == ByOwner then s.owner == Spawning else from.id in s.running)
    case Finish(id) => id in s.running
    case Resume(id) => id in s.resuming
    case BeginJoin => s.owner == Spawning
    case Register => s.owner == Stored
  }

  function Decrement(s: State): State {
    if s.count == 0 then s.(broken := true) else s.(count := s.count - 1)
  }

  function Apply(s: State, a: Action): State
    requires Enabled(s, a)
  {
    match a
    case Spawn(_, id) => s.(count := s.count + 1, running := s.running + {id}, broken := s.broken || s.count == 0)
    case Finish(id) =>
      Decrement(s).(running := s.running - {id},
                    resuming := if s.count == 1 then s.resuming + {id} else s.resuming)
    case Resume(id) =>
      s.(resuming := s.resuming - {id}, owner := Continued, continued := s.continued + 1,
         broken := s.broken || !s.continuationStored || s.owner != Suspended)
    case BeginJoin =>
      if s.count == 0 then s.(owner := Continued, continued := s.continued + 1)
      else s.(continuationStored := true, owner := Stored)
    case Register =>
      if s.count > 1 then Decrement(s).(owner := Suspended)
      else Decrement(s).(owner := Continued, continued := s.continued + 1)
  }

  ghost predicate Runs(s: State, actions: seq<Action>, s': State)
    decreases actions
  {
    if actions == [] then s == s'
    else Enabled(s, actions[0]) && Runs(Apply(s, actions[0]), actions[1..], s')
  }

  predicate Joined(s: State) {
    s.owner == Suspended || s.owner == Continued
  }

  ghost predicate Inv(s: State) {
    && !s.broken
    && s.count == |s.running| + (if Joined(s) then 0 else 1)
    && (s.continuationStored <==> s.owner != Spawning)
    && |s.resuming| <= 1
    && (s.resuming != {} ==> s.owner == Suspended && s.running == {})
    && (s.owner == Suspended ==> s.running != {} || s.resuming != {})
    && (s.owner == Continued ==> s.running == {})
    && s.continued == (if s.owner == Continued then 1 else 0)
  }

  lemma InvFinish(s: State, id: WorkId)
    requires Inv(s) && Enabled(s, Finish(id))
    ensures Inv(Apply(s, Finish(id)))
  {
    assert |s.running - {id}| == |s.running| - 1;
    assert s.resuming == {};
    if s.count == 1 {
      assert s.running - {id} == {};
      assert {id} != {} && |s.resuming + {id}| == 1;
      assert id in s.resuming + {id};
    }
  }

  lemma InvResume(s: State, id: WorkId)
    requires Inv(s) && Enabled(s, Resume(id))
    ensures Inv(Apply(s, Resume(id)))
  {
    assert |s.resuming - {id}| == |s.resuming| - 1;
  }

  /** Every action keeps the invariant; in particular a spawn never finds the counter at zero. */
  lemma InvStep(s: State, a: Action)
    requires Inv(s) && Enabled(s, a)
    ensures Inv(Apply(s, a))
  {
    match a
    case Spawn(from, id) =>
      assert |s.running + {id}| == |s.running| + 1;
      if from.ByWork? {
        assert from.id in s.running;
      }
    case Finish(id) => InvFinish(s, id);
    case Resume(id) => InvResume(s, id);
    case BeginJoin =>
    case Register => assert |s.running| == 0 ==> s.running == {};
  }

  lemma {:induction false} RunsSnoc(s: State, actions: seq<Action>, s': State, a: Action)
    requires Runs(s, actions, s') && Enabled(s', a)
    ensures Runs(s, actions + [a], Apply(s', a))
    decreases actions
  {
    if actions == [] {
      assert Runs(Apply(s, a), [], Apply(s', a));
    } else {
      assert (actions + [a])[1..] == actions[1..] + [a];
      RunsSnoc(Apply(s, actions[0]), actions[1..], s', a);
    }
  }

  /** A run that goes on from another is that one and a run from where it ended. */
  lemma {:induction false} RunsSuffix(s: State, actions: seq<Action>, mid: State, more: seq<Action>, s': State)
    requires Runs(s, actions, mid) && actions <= more && Runs(s, more, s')
    ensures Runs(mid, more[|actions|..], s')
    decreases actions
  {
    if actions != [] {
      assert more[1..][|actions[1..]|..] == more[|actions|..];
      RunsSuffix(Apply(s, actions[0]), actions[1..], mid, more[1..], s');
    }
  }

  lemma {:induction false} InvRun(s: State, actions: seq<Action>, s': State)
    requires Inv(s) && Runs(s, actions, s')
    ensures Inv(s')
    decreases actions
  {
    if actions != [] {
      InvStep(s, actions[0]);
      InvRun(Apply(s, actions[0]), actions[1..], s');
    }
  }

  /** In every run the continuation runs at most once and only when no work is left; the counter is the
      running work, plus one until `join` has taken its share; and a suspended owner has work that runs or
      a resume on the way. */
  lemma JoinsExactlyOnce(actions: seq<Action>, s: State)
    requires Runs(INITIAL, actions, s)
    ensures !s.broken && s.continued <= 1 && (s.continued == 1 <==> s.owner == Continued)
    ensures s.count == |s.running| + (if Joined(s) then 0 else 1)
    ensures forall id :: Enabled(s, Resume(id)) ==> s.continuationStored && s.owner == Suspended
    ensures forall a :: Enabled(s, a) && (a.Spawn? || a.Finish? || a == Register) ==> s.count > 0
    ensures s.owner == Continued ==> s.continuationStored && s.running == {} && s.resuming == {}
    ensures s.owner == Suspended ==> exists id :: Enabled(s, Finish(id)) || Enabled(s, Resume(id))
  {
    InvRun(INITIAL, actions, s);
    forall a | Enabled(s, a) && (a.Spawn? || a.Finish? || a == Register)
      ensures s.count > 0
    {
      if s.owner == Suspended || s.owner == Continued {
        assert s.running != {};
      }
    }
    if s.owner == Suspended {
      var id :| id in s.running + s.resuming;
      assert Enabled(s, Finish(id)) || Enabled(s, Resume(id));
    }
  }

  /** Once the owner has gone on, the scope is at rest for good. */
  lemma RestsAfterJoin(actions: seq<Action>, s: State, a: Action)
    requires Runs(INITIAL, actions, s) && s.owner == Continued
    ensures !Enabled(s, a)
  {
    JoinsExactlyOnce(actions, s);
  }

  function Below(n: nat): (ids: set<WorkId>)
    ensures forall id: WorkId :: id in ids <==> id < n
  {
    if n == 0 then {} else Below(n - 1) + {n - 1}
  }

  /** Work may be spawned by the owner until its `join`, and by running work at any time, also while the
      owner is already suspended; any amount of it can be running then. */
  lemma {:induction false} AnyAmountOfWork(n: nat) returns (actions: seq<Action>, s: State)
    requires n > 0
    ensures Runs(INITIAL, actions, s) && s.owner == Suspended
    ensures s.running == Below(n) && s.resuming == {}
    decreases n
  {
    if n == 1 {
      actions := [Spawn(ByOwner, 0), BeginJoin, Register];
      s := State(1, true, {0}, {}, Suspended, 0, false);
      var s1 := State(2, false, {0}, {}, Spawning, 0, false);
      var s2 := State(2, true, {0}, {}, Stored, 0, false);
      assert Apply(INITIAL, Spawn(ByOwner, 0)) == s1 && Apply(s1, BeginJoin) == s2 && Apply(s2, Register) == s;
      assert Runs(s, [], s) && Runs(s2, [Register], s) && Runs(s1, [BeginJoin, Register], s) by {
        assert [Register][1..] == [] && [BeginJoin, Register][1..] == [Register];
      }
      assert actions[1..] == [BeginJoin, Register];
      assert {0} == Below(1);
    } else {
      var before, s' := AnyAmountOfWork(n - 1);
      var a := Spawn(ByWork(0), n - 1);
      RunsSnoc(INITIAL, before, s', a);
      actions, s := before + [a], Apply(s', a);
    }
  }

  // ----- Every run with finitely many spawns ends, with the owner past its join -----

  function Spawns(actions: seq<Action>): nat {
    if actions == [] then 0 else (if actions[0].Spawn? then 1 else 0) + Spawns(actions[1..])
  }

  /** The actions still to come if nothing more is spawned. */
  function StepsLeft(s: State): nat {
    2 * |s.running| + |s.resuming| + (match s.owner case Spawning => 2 case Stored => 1 case _ => 0)
  }

  lemma StepsDecrease(s: State, a: Action)
    requires Inv(s) && Enabled(s, a)
    ensures StepsLeft(Apply(s, a)) < StepsLeft(s) + (if a.Spawn? then 3 else 0)
  {
    match a
    case Spawn(_, id) => assert |s.running + {id}| == |s.running| + 1;
    case Finish(id) =>
      assert |s.running - {id}| == |s.running| - 1;
      assert |s.resuming + {id}| <= |s.resuming| + 1;
    case Resume(id) => assert |s.resuming - {id}| == |s.resuming| - 1;
    case _ =>
  }

  lemma {:induction false} RunsAreShort(s: State, actions: seq<Action>, s': State)
    requires Inv(s) && Runs(s, actions, s')
    ensures |actions| + StepsLeft(s') <= StepsLeft(s) + 3 * Spawns(actions)
    decreases actions
  {
    hide StepsLeft, Inv;
    if actions != [] {
      InvStep(s, actions[0]);
      StepsDecrease(s, actions[0]);
      RunsAreShort(Apply(s, actions[0]), actions[1..], s');
    }
  }

  /** Exactly once: a run has at most three actions for each piece of work and two for the owner, and no
      action is enabled any more if and only if the continuation has run, once. */
  lemma EveryRunJoins(actions: seq<Action>, s: State)
    requires Runs(INITIAL, actions, s)
    ensures |actions| <= 3 * Spawns(actions) + 2
    ensures (forall a :: !Enabled(s, a)) <==> s.continued == 1
  {
    RunsAreShort(INITIAL, actions, s);
    JoinsExactlyOnce(actions, s);
    if s.owner == Spawning {
      assert Enabled(s, BeginJoin);
    } else if s.owner == Stored {
      assert Enabled(s, Register);
    } else if s.owner == Continued {
      forall a ensures !Enabled(s, a) {
        RestsAfterJoin(actions, s, a);
      }
    }
  }

  // ----- The code -----

  /** Who performs an action. */
  function Actor(a: Action): Spawner {
    match a
    case Spawn(from, _) => from
    case Finish(id) => ByWork(id)
    case Resume(id) => ByWork(id)
    case _ => ByOwner
  }

  /** What the others' actions leave alone: an owner that is not suspended, and work under way. */
  ghost predicate Undisturbed(p: Spawner, s: State, s': State) {
    match p
    case ByOwner => s.owner != Suspended ==> s'.owner == s.owner
    case ByWork(id) => (id in s.running ==> id in s'.running) && (id in s.resuming ==> id in s'.resuming)
  }

  lemma Extend(trace: seq<Action>, s: State, a: Action)
    requires Runs(INITIAL, trace, s) && Enabled(s, a)
    ensures Runs(INITIAL, trace + [a], Apply(s, a)) && Inv(s) && Inv(Apply(s, a))
  {
    InvRun(INITIAL, trace, s);
    InvStep(s, a);
    RunsSnoc(INITIAL, trace, s, a);
  }

  /** The scope and the positions of its owner and its work.  `others` says what the other parties do in
      the successive gaps between the steps of a method: any actions at all, of which the enabled ones
      happen.  `trace` records every action, so that `Valid` says that the object's history is a run. */
  class AsyncScope {
    var count: nat
    var continuationStored: bool
    var running: set<WorkId>
    var resuming: set<WorkId>
    var owner: Owner
    var continued: nat
    var others: seq<seq<Action>>
    ghost var trace: seq<Action>

    function View(): State
      reads this
    {
      State(count, continuationStored, running, resuming, owner, continued, false)
    }

    ghost predicate Valid()
      reads this
    {
      Runs(INITIAL, trace, View())
    }

    constructor (others: seq<seq<Action>>)
      ensures Valid() && View() == INITIAL && trace == [] && this.others == others
    {
      count, continuationStored, running, resuming := 1, false, {}, {};
      owner, continued, trace := Spawning, 0, [];
      this.others := others;
    }

    /** Its assertion that the counter is not zero always holds. */
    method OnWorkStarted(from: Spawner, id: WorkId)
      requires Valid() && Enabled(View(), Spawn(from, id))
      modifies this`count, this`running, this`trace
      ensures Valid() && View() == Apply(old(View()), Spawn(from, id)) && trace == old(trace) + [Spawn(from, id)]
    {
      Extend(trace, View(), Spawn(from, id));
      assert count != 0;
      count, running := count + 1, running + {id};
      trace := trace + [Spawn(from, id)];
    }

    /** The atomic decrement; the value before it is returned, as `fetch_sub` does. */
    method FetchSub() returns (was: nat)
      requires count > 0
      modifies this`count
      ensures was == old(count) && count == was - 1
    {
      was, count := count, count - 1;
    }

    method Leave(id: WorkId) returns (last: bool)
      requires Valid() && Enabled(View(), Finish(id))
      modifies this`count, this`running, this`resuming, this`trace
      ensures Valid() && View() == Apply(old(View()), Finish(id)) && trace == old(trace) + [Finish(id)]
      ensures (last <==> id in resuming) && (last <==> old(count) == 1)
    {
      Extend(trace, View(), Finish(id));
      assert {id} <= running && |{id}| == 1;
      var was := FetchSub();
      last := was == 1;
      running, resuming := running - {id}, if last then resuming + {id} else resuming;
      trace := trace + [Finish(id)];
    }

    /** Resuming the owner: its continuation is there, and it is suspended. */
    method ResumeOwner(id: WorkId)
      requires Valid() && Enabled(View(), Resume(id))
      modifies this`resuming, this`owner, this`continued, this`trace
      ensures Valid() && View() == Apply(old(View()), Resume(id)) && trace == old(trace) + [Resume(id)]
    {
      Extend(trace, View(), Resume(id));
      assert continuationStored && owner == Suspended;
      resuming, owner, continued := resuming - {id}, Continued, continued + 1;
      trace := trace + [Resume(id)];
    }

    /** `await_ready` of `join`, and the first half of `await_suspend`: the continuation is stored; the
        counter is never zero yet. */
    method JoinBegin() returns (ready: bool)
      requires Valid() && Enabled(View(), BeginJoin)
      modifies this`continuationStored, this`owner, this`trace
      ensures Valid() && View() == Apply(old(View()), BeginJoin) && trace == old(trace) + [BeginJoin]
      ensures !ready && owner == Stored
    {
      Extend(trace, View(), BeginJoin);
      ready := count == 0;
      if !ready {
        continuationStored, owner := true, Stored;
      }
      trace := trace + [BeginJoin];
    }

    /** The other half: whether the owner stays suspended. */
    method JoinSuspend() returns (suspend: bool)
      requires Valid() && Enabled(View(), Register)
      modifies this`count, this`owner, this`continued, this`trace
      ensures Valid() && View() == Apply(old(View()), Register) && trace == old(trace) + [Register]
      ensures suspend <==> owner == Suspended
    {
      Extend(trace, View(), Register);
      var was := FetchSub();
      suspend := was > 1;
      owner, continued := if suspend then Suspended else Continued, if suspend then continued else continued + 1;
      trace := trace + [Register];
    }

    method Perform(a: Action)
      requires Valid() && Enabled(View(), a)
      modifies this
      ensures Valid() && View() == Apply(old(View()), a) && trace == old(trace) + [a] && others == old(others)
    {
      match a
      case Spawn(from, id) => OnWorkStarted(from, id);
      case Finish(id) => var _ := Leave(id);
      case Resume(id) => ResumeOwner(id);
      case BeginJoin => var _ := JoinBegin();
      case Register => var _ := JoinSuspend();
    }

    /** A gap between two steps of `p`: whatever the others do there. */
    method Gap(p: Spawner)
      requires Valid()
      modifies this
      ensures Valid() && old(trace) <= trace && Undisturbed(p, old(View()), View())
    {
      if others == [] {
        return;
      }
      var plan := others[0];
      others := others[1..];
      for k := 0 to |plan|
        invariant Valid() && old(trace) <= trace && Undisturbed(p, old(View()), View())
      {
        if Enabled(View(), plan[k]) && Actor(plan[k]) != p {
          Extend(trace, View(), plan[k]);
          Perform(plan[k]);
        }
      }
    }

    /** `on_work_finished`: takes one off, and resumes the owner exactly when it was the last; by then
        no work is left. */
    method OnWorkFinished(id: WorkId) returns (resumed: bool)
      requires Valid() && id in running
      modifies this
      ensures Valid() && old(trace) <= trace && Runs(old(View()), trace[|old(trace)|..], View())
      ensures resumed <==> old(count) == 1
      ensures resumed ==> owner == Continued && running == {}
    {
      resumed := Leave(id);
      Gap(ByWork(id));
      if resumed {
        ResumeOwner(id);
      }
      RunsSuffix(INITIAL, old(trace), old(View()), trace, View());
      JoinsExactlyOnce(trace, View());
    }

    /** `co_await join()`: the owner stays suspended, or goes on at once and then no work is left. */
    method Join() returns (suspend: bool)
      requires Valid() && owner == Spawning
      modifies this
      ensures Valid() && old(trace) <= trace && Runs(old(View()), trace[|old(trace)|..], View())
      ensures if suspend then owner == Suspended else owner == Continued && running == {}
    {
      var ready := JoinBegin();
      Gap(ByOwner);
      suspend := JoinSuspend();
      RunsSuffix(INITIAL, old(trace), old(View()), trace, View());
      JoinsExactlyOnce(trace, View());
    }
  }
}
