/**
 The chat session's writer: `deliver` pushes a message and sets the event; the writer sends queued
 messages and awaits the event when there are none.
 */
module ChatWriter {
  import Event = AutoResetEvents

  type Message = seq<int>
  type ThreadId = Event.ThreadId

  /** The writer: at the loop head, about to await, inside the await, or sending the front message. */
  datatype Pc = Checking | Awaiting | InEvent | Sending

  datatype State = State(
    ev: Event.State,
    queue: seq<Message>,
    delivered: seq<Message>,
    sent: seq<Message>,
    delivering: set<ThreadId>,
    writer: Pc)

  const INITIAL: State := State(Event.Initial(false), [], [], [], {}, Checking)

  datatype Action =
    | DeliverPush(t: ThreadId, m: Message)
    | DeliverSet(t: ThreadId)
    | SetterStep(t: ThreadId)
    | Check
    | Await
    | ResetEvent
    | Return
    | SendDone

  function SetterAction(s: State, t: ThreadId): Event.Action
    requires t in s.ev.setters
  {
    if s.ev.setters[t].Holding? then Event.ExchangeClear(t) else Event.Resume(t)
  }

  predicate Enabled(s: State, a: Action) {
    match a
    case DeliverPush(t, _) => t !in s.delivering && t !in s.ev.setters
    case DeliverSet(t) => t in s.delivering && t !in s.ev.setters
    case SetterStep(t) => t in s.ev.setters
    case Check => s.writer == Checking
    case Await => s.writer == Awaiting && s.ev.consumer == Event.Running
    case ResetEvent => s.ev.consumer == Event.Resetting
    case Return => s.writer == InEvent && s.ev.consumer == Event.Running
    case SendDone => s.writer == Sending && s.queue != []
  }

  function Apply(s: State, a: Action): State
    requires Enabled(s, a)
  {
    match a
    case DeliverPush(t, m) =>
      s.(queue := s.queue + [m], delivered := s.delivered + [m], delivering := s.delivering + {t})
    case DeliverSet(t) => s.(ev := Event.Apply(s.ev, Event.ExchangeSet(t)), delivering := s.delivering - {t})
    case SetterStep(t) => s.(ev := Event.Apply(s.ev, SetterAction(s, t)))
    case Check => s.(writer := if s.queue == [] then Awaiting else Sending)
    case Await => s.(ev := Event.Apply(s.ev, Event.CompareExchange), writer := InEvent)
    case ResetEvent => s.(ev := Event.Apply(s.ev, Event.Reset))
    case Return => s.(writer := Checking)
    case SendDone => s.(sent := s.sent + [s.queue[0]], queue := s.queue[1..], writer := Checking)
  }

  ghost predicate Runs(s: State, actions: seq<Action>, s': State)
    decreases actions
  {
    if actions == [] then s == s'
    else Enabled(s, actions[0]) && Runs(Apply(s, actions[0]), actions[1..], s')
  }

  ghost predicate Reachable(s: State) {
    exists actions :: Runs(INITIAL, actions, s)
  }

  /** Somebody between pushing a message and the end of its `set`, or a set not yet consumed. */
  ghost predicate SignalComing(s: State) {
    s.delivering != {} || s.ev.word == Event.IsSet || s.ev.setters != map[]
  }

  ghost predicate Inv(s: State) {
    && Event.Inv(s.ev)
    && (s.writer != InEvent ==> s.ev.consumer == Event.Running)
    && s.delivered == s.sent + s.queue
    && (s.writer == Sending ==> s.queue != [])
    && ((s.writer == Awaiting || s.ev.consumer.Suspended?) && s.queue != [] ==> SignalComing(s))
  }

  /** The event's part of the state only changes by the event's own steps. */
  lemma EventInvStep(s: State, a: Action)
    requires Inv(s) && Enabled(s, a)
    ensures Event.Inv(Apply(s, a).ev)
  {
    match a
    case DeliverSet(t) => Event.InvStep(s.ev, Event.ExchangeSet(t));
    case SetterStep(t) => Event.InvStep(s.ev, SetterAction(s, t));
    case Await => Event.InvStep(s.ev, Event.CompareExchange);
    case ResetEvent => Event.InvStep(s.ev, Event.Reset);
    case _ =>
  }

  lemma InvStep(s: State, a: Action)
    requires Inv(s) && Enabled(s, a)
    ensures Inv(Apply(s, a))
  {
    EventInvStep(s, a);
    match a
    case DeliverPush(t, _) => assert t in Apply(s, a).delivering;
    case SetterStep(t) => Event.OnlySetter(s.ev, t);
    case SendDone => assert s.queue == [s.queue[0]] + s.queue[1..];
    case _ =>
  }

  lemma {:induction false} RunsSnoc(s: State, actions: seq<Action>, s': State, a: Action)
    requires Runs(s, actions, s') && Enabled(s', a)
    ensures Runs(s, actions + [a], Apply(s', a))
    decreases actions
  {
    hide Enabled, Apply;
    if actions == [] {
      assert Runs(Apply(s, a), [], Apply(s', a));
    } else {
      assert (actions + [a])[1..] == actions[1..] + [a];
      RunsSnoc(Apply(s, actions[0]), actions[1..], s', a);
    }
  }

  /** A run that goes on from another is that one and a run from where it ended. */
  lemma {:induction false} RunsSuffix(s: State, actions: seq<Action>, mid: State, more: seq<Action>, s': State)
    requires Runs(s, actions, mid) && actions <= more && Runs(s, more, s')
    ensures Runs(mid, more[|actions|..], s')
    decreases actions
  {
    hide Enabled, Apply;
    if actions != [] {
      assert more[1..][|actions[1..]|..] == more[|actions|..];
      RunsSuffix(Apply(s, actions[0]), actions[1..], mid, more[1..], s');
    }
  }

  lemma {:induction false} InvRun(s: State, actions: seq<Action>, s': State)
    requires Inv(s) && Runs(s, actions, s')
    ensures Inv(s')
    decreases actions
  {
    if actions != [] {
      InvStep(s, actions[0]);
      InvRun(Apply(s, actions[0]), actions[1..], s');
    }
  }

  lemma InvInitial()
    ensures Inv(INITIAL)
  {
    hide Event.Inv;
    Event.InvInitial(false);
    assert INITIAL.sent + INITIAL.queue == INITIAL.delivered;
  }

  lemma ReachableInv(s: State)
    requires Reachable(s)
    ensures Inv(s)
  {
    hide Runs, Inv;
    InvInitial();
    var actions :| Runs(INITIAL, actions, s);
    InvRun(INITIAL, actions, s);
  }

  /** The writer never sleeps on work, and sends what was delivered, in order. */
  lemma NeverSleepsOnWork(s: State)
    requires Reachable(s)
    ensures s.ev.consumer.Suspended? && s.delivering == {} && s.ev.setters == map[] ==> s.queue == []
    ensures s.sent <= s.delivered && s.delivered == s.sent + s.queue
  {
    hide Reachable;
    ReachableInv(s);
    if s.ev.consumer.Suspended? && s.ev.setters == map[] {
      Event.SleepingWord(s.ev);
    }
  }

  // ----- The writer does not spin -----

  function Signals(actions: seq<Action>): nat {
    if actions == [] then 0 else (if actions[0].DeliverSet? then 1 else 0) + Signals(actions[1..])
  }

  function Returns(actions: seq<Action>): nat {
    if actions == [] then 0 else (if actions[0].Return? then 1 else 0) + Returns(actions[1..])
  }

  /** The returns from the event that are certain to come without another delivery. */
  ghost function Owed(s: State): nat {
    Event.Owed(s.ev) + (if s.writer == InEvent && s.ev.consumer == Event.Running then 1 else 0)
  }

  lemma OwedStep(s: State, a: Action)
    requires Inv(s) && Enabled(s, a)
    ensures Owed(Apply(s, a)) + Returns([a]) <= Owed(s) + Signals([a])
  {
    hide Event.Owed;
    assert [a][1..] == [];
    match a
    case DeliverSet(t) => EventOwed(s.ev, Event.ExchangeSet(t));
    case SetterStep(t) =>
      EventOwed(s.ev, SetterAction(s, t));
      Event.OnlySetter(s.ev, t);
    case Await => EventOwed(s.ev, Event.CompareExchange);
    case ResetEvent => EventOwed(s.ev, Event.Reset);
    case _ =>
  }

  lemma EventOwed(ev: Event.State, a: Event.Action)
    requires Event.Inv(ev) && Event.Enabled(ev, a)
    ensures Event.Owed(Event.Apply(ev, a)) + (if a.Resume? || a.Reset? then 1 else 0) <=
            Event.Owed(ev) + (if a.ExchangeSet? then 1 else 0)
  {
    hide *;
    Event.OwedStep(ev, a);
    OneAction(a);
  }

  lemma OneAction(a: Event.Action)
    ensures Event.Releases([a]) == (if a.Resume? || a.Reset? then 1 else 0)
    ensures Event.Sets([a]) == (if a.ExchangeSet? then 1 else 0)
  {
    assert [a][1..] == [];
  }

  function Checks(actions: seq<Action>): nat {
    if actions == [] then 0 else (if actions[0].Check? then 1 else 0) + Checks(actions[1..])
  }

  lemma RoundStep(s: State, a: Action)
    requires Enabled(s, a)
    ensures var s' := Apply(s, a);
            Checks([a]) + |s.sent| + (if s'.writer == Checking then 1 else 0) <=
            Returns([a]) + |s'.sent| + (if s.writer == Checking then 1 else 0)
  {
    assert [a][1..] == [];
  }

  lemma {:induction false} OwedRun(s: State, actions: seq<Action>, s': State)
    requires Inv(s) && Runs(s, actions, s')
    ensures Returns(actions) + Owed(s') <= Signals(actions) + Owed(s)
    ensures Checks(actions) + |s.sent| <= Returns(actions) + |s'.sent| + (if s.writer == Checking then 1 else 0)
    decreases actions
  {
    hide Inv, Enabled, Apply, Owed;
    if actions != [] {
      RoundStep(s, actions[0]);
      InvStep(s, actions[0]);
      OwedStep(s, actions[0]);
      assert [actions[0]][1..] == [];
      OwedRun(Apply(s, actions[0]), actions[1..], s');
    }
  }

  /** In every run the writer comes back from the event at most as often as something was delivered, and
      goes round its loop only to send a message or to come back from the event. */
  lemma NeverSpins(actions: seq<Action>, s: State)
    requires Runs(INITIAL, actions, s)
    ensures Returns(actions) <= Signals(actions)
    ensures Checks(actions) <= Returns(actions) + |s.sent| + 1
  {
    hide Runs, Inv, Event.Owed, Returns, Signals, Checks;
    InvInitial();
    Event.OwedInitially(false);
    OwedRun(INITIAL, actions, s);
  }

  // ----- Everything delivered can be sent -----

  ghost function SetterWeight(s: State): nat {
    if exists t :: t in s.ev.setters && s.ev.setters[t].Holding? then 2
    else if s.ev.setters != map[] then 1 else 0
  }

  ghost function Rank(s: State): nat {
    match s.writer
    case Awaiting => 5
    case InEvent => if s.ev.consumer == Event.Resetting then 4 else 3
    case Checking => 2
    case Sending => 1
  }

  lemma SetterFinishes(s: State, t: ThreadId)
    requires Inv(s) && t in s.ev.setters
    ensures Enabled(s, SetterStep(t)) && SetterWeight(Apply(s, SetterStep(t))) < SetterWeight(s)
  {
    Event.OnlySetter(s.ev, t);
  }

  lemma HelpfulAction(s: State) returns (a: Action)
    requires Inv(s) && s.sent != s.delivered
    ensures Enabled(s, a) && !a.DeliverPush? && Apply(s, a).delivered == s.delivered
    ensures var s' := Apply(s, a);
            || |s'.delivering| < |s.delivering|
            || (s'.delivering == s.delivering && SetterWeight(s') < SetterWeight(s))
            || (s'.delivering == s.delivering && SetterWeight(s') == SetterWeight(s) &&
                (|s'.queue| < |s.queue| || (|s'.queue| == |s.queue| && Rank(s') < Rank(s))))
  {
    assert s.queue != [];
    if s.ev.setters != map[] {
      var t :| t in s.ev.setters;
      a := SetterStep(t);
      SetterFinishes(s, t);
    } else if s.delivering != {} {
      var t :| t in s.delivering;
      a := DeliverSet(t);
      assert |s.delivering - {t}| < |s.delivering|;
    } else {
      if s.ev.consumer.Suspended? {
        Event.SleepingWord(s.ev);
      }
      match s.writer
      case Awaiting => a := Await;
      case InEvent => a := if s.ev.consumer == Event.Resetting then ResetEvent else Return;
      case Checking => a := Check;
      case Sending => a := SendDone;
    }
  }

  lemma {:induction false} CanSendAll(s: State) returns (actions: seq<Action>, s': State)
    requires Inv(s)
    ensures Runs(s, actions, s') && (forall i :: 0 <= i < |actions| ==> !actions[i].DeliverPush?)
    ensures s'.delivered == s.delivered && s'.sent == s.delivered
    decreases |s.delivering|, SetterWeight(s), |s.queue|, Rank(s)
  {
    hide Inv, Enabled, SetterWeight, Rank;
    if s.sent == s.delivered {
      actions, s' := [], s;
    } else {
      var a := HelpfulAction(s);
      InvStep(s, a);
      var rest;
      rest, s' := CanSendAll(Apply(s, a));
      actions := [a] + rest;
      assert actions[1..] == rest;
    }
  }

  /** From every reachable state, everything delivered so far can be sent without another delivery. */
  lemma EveryDeliveryCanBeSent(s: State)
    requires Reachable(s)
    ensures exists actions: seq<Action>, s': State ::
              && Runs(s, actions, s') && (forall i :: 0 <= i < |actions| ==> !actions[i].DeliverPush?)
              && s'.delivered == s.delivered && s'.sent == s.delivered
  {
    hide Reachable, Inv;
    ReachableInv(s);
    var actions, s' := CanSendAll(s);
  }

  // ----- The code -----

  /** Who performs an action. */
  datatype Party = TheWriter | Delivering(t: ThreadId)

  function By(a: Action): Party {
    match a
    case DeliverPush(t, _) => Delivering(t)
    case DeliverSet(t) => Delivering(t)
    case SetterStep(t) => Delivering(t)
    case _ => TheWriter
  }

  /** What the others' actions leave alone: a delivery's position, and the writer with the front of its
      queue; a writer asleep may have been resumed. */
  ghost predicate Undisturbed(p: Party, s: State, s': State) {
    && s.delivered <= s'.delivered
    && match p
       case TheWriter =>
         && s'.writer == s.writer && s.queue <= s'.queue
         && (if s.ev.consumer.Suspended? then s'.ev.consumer in {s.ev.consumer, Event.Running}
             else s'.ev.consumer == s.ev.consumer)
       case Delivering(t) =>
         && (t in s'.delivering <==> t in s.delivering) && (t in s'.ev.setters <==> t in s.ev.setters)
         && (t in s.ev.setters ==> s'.ev.setters[t] == s.ev.setters[t])
  }

  lemma OthersLeaveAlone(p: Party, s: State, a: Action)
    requires Inv(s) && Enabled(s, a) && By(a) != p
    ensures Undisturbed(p, s, Apply(s, a))
  {
    if a.SetterStep? {
      Event.OnlySetter(s.ev, a.t);
    }
  }

  lemma {:induction false} ChecksSnoc(actions: seq<Action>, a: Action)
    ensures Checks(actions + [a]) == Checks(actions) + (if a == Check then 1 else 0)
  {
    if actions != [] {
      assert (actions + [a])[1..] == actions[1..] + [a];
      ChecksSnoc(actions[1..], a);
    } else {
      assert [a][1..] == [] && actions + [a] == [a];
    }
  }

  lemma Extend(trace: seq<Action>, s: State, a: Action)
    requires Runs(INITIAL, trace, s) && Enabled(s, a)
    ensures Runs(INITIAL, trace + [a], Apply(s, a)) && Reachable(s) && Inv(s)
    ensures Checks(trace + [a]) == Checks(trace) + (if a == Check then 1 else 0)
  {
    hide Enabled, Apply, Runs, Inv, Checks;
    ChecksSnoc(trace, a);
    RunsSnoc(INITIAL, trace, s, a);
    ReachableInv(s);
  }

  /** A session's queue and event, the latter as a value, and the positions of its writer and its
      deliveries; `delivered` and `sent` are history.  `others` says what the other parties do in the
      successive gaps between the steps of a method: any actions at all, of which the enabled ones happen.
      `trace` records every action, so that `Valid` says that the object's history is a run; `rounds` counts
      how often the writer has looked at its queue. */
  class ChatSession {
    var ev: Event.State
    var writeMsgs: seq<Message>
    var delivered: seq<Message>
    var sent: seq<Message>
    var delivering: set<ThreadId>
    var writer: Pc
    var others: seq<seq<Action>>
    ghost var trace: seq<Action>
    ghost var rounds: nat

    function View(): State
      reads this
    {
      State(ev, writeMsgs, delivered, sent, delivering, writer)
    }

    ghost predicate Valid()
      reads this
    {
      Runs(INITIAL, trace, View()) && rounds == Checks(trace)
    }

    constructor (others: seq<seq<Action>>)
      ensures Valid() && View() == INITIAL && trace == [] && this.others == others
    {
      ev, writeMsgs, delivered, sent, delivering := Event.Initial(false), [], [], [], {};
      writer, trace, rounds := Checking, [], 0;
      this.others := others;
    }

    method Perform(a: Action)
      requires Valid() && Enabled(View(), a)
      modifies this
      ensures Valid() && View() == Apply(old(View()), a) && trace == old(trace) + [a] && others == old(others)
      ensures rounds == old(rounds) + (if a == Check then 1 else 0)
    {
      hide Runs, Inv, Checks;
      Extend(trace, View(), a);
      match a {
        case DeliverPush(t, m) =>
          writeMsgs, delivered, delivering := writeMsgs + [m], delivered + [m], delivering + {t};
        case DeliverSet(t) => ev, delivering := Event.Apply(ev, Event.ExchangeSet(t)), delivering - {t};
        case SetterStep(t) => ev := Event.Apply(ev, SetterAction(View(), t));
        case Check => writer := if writeMsgs == [] then Awaiting else Sending;
        case Await => ev, writer := Event.Apply(ev, Event.CompareExchange), InEvent;
        case ResetEvent => ev := Event.Apply(ev, Event.Reset);
        case Return => writer := Checking;
        case SendDone => sent, writeMsgs, writer := sent + [writeMsgs[0]], writeMsgs[1..], Checking;
      }
      trace, rounds := trace + [a], if a == Check then rounds + 1 else rounds;
    }

    /** A gap between two steps of `p`: whatever the others do there. */
    method Gap(p: Party)
      requires Valid()
      modifies this
      ensures Valid() && old(trace) <= trace && Undisturbed(p, old(View()), View())
      ensures others == (if old(others) == [] then [] else old(others)[1..])
      ensures p == TheWriter ==> rounds == old(rounds)
    {
      hide Runs, Inv, Apply, Checks;
      if others == [] {
        return;
      }
      var plan := others[0];
      others := others[1..];
      for k := 0 to |plan|
        invariant Valid() && old(trace) <= trace && Undisturbed(p, old(View()), View())
        invariant others == old(others)[1..] && (p == TheWriter ==> rounds == old(rounds))
      {
        if Enabled(View(), plan[k]) && By(plan[k]) != p {
          Extend(trace, View(), plan[k]);
          OthersLeaveAlone(p, View(), plan[k]);
          Perform(plan[k]);
        }
      }
    }

    /** `deliver`: a push and a whole `set`.  When it returns and no other delivery is under way, a writer
        asleep has nothing to send. */
    method Deliver(t: ThreadId, m: Message)
      requires Valid() && t !in delivering && t !in ev.setters
      modifies this
      ensures Valid() && old(trace) <= trace && Runs(old(View()), trace[|old(trace)|..], View())
      ensures t !in delivering && t !in ev.setters && old(delivered) + [m] <= delivered
      ensures ev.consumer.Suspended? && delivering == {} && ev.setters == map[] ==> sent == delivered
    {
      hide Runs, Inv, Checks;
      Perform(DeliverPush(t, m));
      Gap(Delivering(t));
      Perform(DeliverSet(t));
      Gap(Delivering(t));
      if t in ev.setters {
        Perform(SetterStep(t));
        Gap(Delivering(t));
        Perform(SetterStep(t));
      }
      RunsSuffix(INITIAL, old(trace), old(View()), trace, View());
      NeverSleepsOnWork(View());
    }

    /** `co_await` on the event: comes back, or sleeps for as long as nobody resumes it. */
    method AwaitEvent() returns (asleep: bool)
      requires Valid() && writer == Awaiting && ev.consumer == Event.Running
      modifies this
      ensures Valid() && old(trace) <= trace && Runs(old(View()), trace[|old(trace)|..], View())
      ensures if asleep then ev.consumer.Suspended? && others == []
              else writer == Checking && ev.consumer == Event.Running
      ensures rounds == old(rounds)
    {
      hide Runs, Inv, Checks;
      Perform(Await);
      Gap(TheWriter);
      if ev.consumer == Event.Resetting {
        Perform(ResetEvent);
      }
      while ev.consumer.Suspended? && others != []
        invariant Valid() && old(trace) <= trace && writer == InEvent && ev.consumer != Event.Resetting
        invariant rounds == old(rounds)
        decreases |others|
      {
        Gap(TheWriter);
      }
      asleep := ev.consumer.Suspended?;
      if !asleep {
        Perform(Return);
      }
      RunsSuffix(INITIAL, old(trace), old(View()), trace, View());
    }

    /** The writer's loop, until the token has let it through that many times: what it sends is a prefix of
        what was delivered, and if it falls asleep with no delivery under way it has sent everything. */
    method Writer(times: nat) returns (asleep: bool)
      requires Valid() && writer == Checking && ev.consumer == Event.Running
      modifies this
      ensures Valid() && old(trace) <= trace && Runs(old(View()), trace[|old(trace)|..], View())
      ensures sent <= delivered && delivered == sent + writeMsgs
      ensures asleep && delivering == {} && ev.setters == map[] ==> sent == delivered
      ensures if asleep then ev.consumer.Suspended? && others == [] else rounds == old(rounds) + times
    {
      hide Runs, Inv, Checks;
      asleep := false;
      var round := 0;
      while round < times && !asleep
        invariant Valid() && old(trace) <= trace && round <= times && rounds == old(rounds) + round
        invariant if asleep then ev.consumer.Suspended? && others == []
                  else writer == Checking && ev.consumer == Event.Running
        decreases times - round
      {
        Perform(Check);
        Gap(TheWriter);
        if writer == Awaiting {
          asleep := AwaitEvent();
        } else {
          Perform(SendDone);
        }
        round := round + 1;
      }
      RunsSuffix(INITIAL, old(trace), old(View()), trace, View());
      NeverSleepsOnWork(View());
    }
  }
}
