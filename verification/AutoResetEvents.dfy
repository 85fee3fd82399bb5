/**
 The lock-free auto-reset event: any number of threads set it, one coroutine awaits it.

 One atomic word holds "not set", "set" or the waiter's handle.  Suspensions are numbered, so that a
 handle names the suspension it belongs to.  Resuming a coroutine that is not suspended there, or
 finding something unexpected where the code asserts, makes the state `broken`.
 */
module AutoResetEvents {

  datatype Word = NotSet | IsSet | Waiter(k: nat)

  /** The awaiting coroutine: running, past a failed compare-exchange, or suspended. */
  datatype Consumer = Running | Resetting | Suspended(k: nat)

  /** A setter that took the waiter's handle: before and after it puts "not set" back. */
  datatype Setter = Holding(k: nat) | Resuming(k: nat)

  type ThreadId = nat

  datatype State = State(
    word: Word,
    consumer: Consumer,
    setters: map<ThreadId, Setter>,
    suspensions: nat,
    resumed: seq<nat>,
    posted: nat,
    pending: nat,
    delivering: nat,
    observed: nat,
    broken: bool)

  function Initial(initiallySet: bool): State {
    var sets := if initiallySet then 1 else 0;
    State(if initiallySet then IsSet else NotSet, Running, map[], 0, [], sets, sets, 0, 0, false)
  }

  datatype Action =
    | ExchangeSet(t: ThreadId)
    | ExchangeClear(t: ThreadId)
    | Resume(t: ThreadId)
    | CompareExchange
    | Reset

  predicate Enabled(s: State, a: Action) {
    match a
    case ExchangeSet(t) => t !in s.setters
    case ExchangeClear(t) => t in s.setters && s.setters[t].Holding?
    case Resume(t) => t in s.setters && s.setters[t].Resuming?
    case CompareExchange => s.consumer == Running
    case Reset => s.consumer == Resetting
  }

  /** An event that is set from the start counts as set once.  `pending` counts the sets that nobody has
      acted on; `delivering` those covered by a resume that is
      on its way; `observed` those the consumer has seen. */
  function Apply(s: State, a: Action): State
    requires Enabled(s, a)
  {
    match a
    case ExchangeSet(t) =>
      s.(word := IsSet, posted := s.posted + 1, pending := s.pending + 1,
         setters := if s.word.Waiter? then s.setters[t := Holding(s.word.k)] else s.setters)
    case ExchangeClear(t) =>
      s.(word := NotSet, setters := s.setters[t := Resuming(s.setters[t].k)],
         delivering := s.delivering + s.pending, pending := 0)
    case Resume(t) =>
      var k := s.setters[t].k;
      s.(setters := s.setters - {t}, consumer := Running, resumed := s.resumed + [k],
         observed := s.observed + s.delivering, delivering := 0,
         broken := s.broken || s.consumer != Suspended(k))
    case CompareExchange =>
      if s.word == NotSet then
        s.(word := Waiter(s.suspensions), consumer := Suspended(s.suspensions), suspensions := s.suspensions + 1)
      else
        s.(consumer := Resetting, broken := s.broken || s.word != IsSet)
    case Reset =>
      s.(word := NotSet, consumer := Running, observed := s.observed + s.pending, pending := 0)
  }

  ghost predicate Runs(s: State, actions: seq<Action>, s': State)
    decreases actions
  {
    if actions == [] then s == s'
    else Enabled(s, actions[0]) && Runs(Apply(s, actions[0]), actions[1..], s')
  }

  ghost predicate Reachable(s: State) {
    exists b, actions :: Runs(Initial(b), actions, s)
  }

  // ----- Invariant -----

  /** Suspension `k` is parked in the word, or exactly one setter has its handle. */
  ghost predicate Parked(s: State, k: nat) {
    if s.setters == map[] then s.word == Waiter(k)
    else
      && (forall t, u :: t in s.setters && u in s.setters ==> t == u)
      && forall t :: t in s.setters ==>
                       || (s.setters[t] == Holding(k) && s.word == IsSet)
                       || (s.setters[t] == Resuming(k) && !s.word.Waiter?)
  }

  function UpTo(n: nat): seq<nat> {
    seq(n, i => i)
  }

  ghost predicate Inv(s: State) {
    && !s.broken
    && (match s.consumer
        case Running => s.setters == map[] && !s.word.Waiter?
        case Resetting => s.setters == map[] && s.word == IsSet
        case Suspended(k) => Parked(s, k) && k + 1 == s.suspensions)
    && (s.pending > 0 ==> s.word == IsSet)
    && (s.delivering > 0 ==> exists t :: t in s.setters && s.setters[t].Resuming?)
    && s.posted == s.observed + s.delivering + s.pending
    && s.resumed == UpTo(if s.consumer.Suspended? then s.consumer.k else s.suspensions)
  }

  lemma InvInitial(b: bool)
    ensures Inv(Initial(b))
  {
  }

  lemma InvExchangeSet(s: State, t: ThreadId)
    requires Inv(s) && Enabled(s, ExchangeSet(t))
    ensures Inv(Apply(s, ExchangeSet(t)))
  {
    assert t in s.setters[t := Holding(0)];
  }

  /** The only setter in flight is `t`. */
  lemma OnlySetter(s: State, t: ThreadId)
    requires Inv(s) && t in s.setters
    ensures s.consumer == Suspended(s.setters[t].k) && s.setters == map[t := s.setters[t]]
    ensures s.setters[t].Holding? ==> s.word == IsSet && s.delivering == 0
  {
    assert s.consumer.Suspended?;
  }

  lemma InvExchangeClear(s: State, t: ThreadId)
    requires Inv(s) && Enabled(s, ExchangeClear(t))
    ensures Inv(Apply(s, ExchangeClear(t)))
  {
    OnlySetter(s, t);
    var k := s.setters[t].k;
    assert s.setters[t := Resuming(k)] == map[t := Resuming(k)];
  }

  lemma InvResume(s: State, t: ThreadId)
    requires Inv(s) && Enabled(s, Resume(t))
    ensures Inv(Apply(s, Resume(t)))
  {
    OnlySetter(s, t);
    assert s.setters - {t} == map[];
    assert UpTo(s.suspensions) == UpTo(s.suspensions - 1) + [s.suspensions - 1];
  }

  lemma InvStep(s: State, a: Action)
    requires Inv(s) && Enabled(s, a)
    ensures Inv(Apply(s, a))
  {
    match a
    case ExchangeSet(t) => InvExchangeSet(s, t);
    case ExchangeClear(t) => InvExchangeClear(s, t);
    case Resume(t) => InvResume(s, t);
    case CompareExchange =>
    case Reset =>
  }

  lemma {:induction false} RunsSnoc(s: State, actions: seq<Action>, s': State, a: Action)
    requires Runs(s, actions, s') && Enabled(s', a)
    ensures Runs(s, actions + [a], Apply(s', a))
    decreases actions
  {
    hide Enabled, Apply;
    if actions == [] {
      assert Runs(Apply(s, a), [], Apply(s', a));
    } else {
      assert (actions + [a])[1..] == actions[1..] + [a];
      RunsSnoc(Apply(s, actions[0]), actions[1..], s', a);
    }
  }

  /** A run that goes on from another is that one and a run from where it ended. */
  lemma {:induction false} RunsSuffix(s: State, actions: seq<Action>, mid: State, more: seq<Action>, s': State)
    requires Runs(s, actions, mid) && actions <= more && Runs(s, more, s')
    ensures Runs(mid, more[|actions|..], s')
    decreases actions
  {
    hide Enabled, Apply;
    if actions != [] {
      assert more[1..][|actions[1..]|..] == more[|actions|..];
      RunsSuffix(Apply(s, actions[0]), actions[1..], mid, more[1..], s');
    }
  }

  lemma {:induction false} InvRun(s: State, actions: seq<Action>, s': State)
    requires Inv(s) && Runs(s, actions, s')
    ensures Inv(s')
    decreases actions
  {
    if actions != [] {
      InvStep(s, actions[0]);
      InvRun(Apply(s, actions[0]), actions[1..], s');
    }
  }

  lemma ReachableInv(s: State)
    requires Reachable(s)
    ensures Inv(s)
  {
    hide Runs, Inv, Initial;
    var b, actions :| Runs(Initial(b), actions, s);
    InvInitial(b);
    InvRun(Initial(b), actions, s);
  }

  /** With no setter at work, a suspended consumer's handle is in the word. */
  lemma SleepingWord(s: State)
    requires Inv(s) && s.consumer.Suspended? && s.setters == map[]
    ensures s.word == Waiter(s.consumer.k)
  {
  }

  // ----- Safety over every interleaving -----

  /** No resume of a coroutine that is not suspended and no failed assertion; suspensions are resumed
      once each, in order; at most one setter holds a handle. */
  lemma ResumedExactlyOnce(s: State)
    requires Reachable(s)
    ensures !s.broken && |s.setters| <= 1
    ensures forall t :: Enabled(s, Resume(t)) ==> s.consumer == Suspended(s.setters[t].k)
    ensures Enabled(s, CompareExchange) && s.word != NotSet ==> s.word == IsSet
    ensures s.resumed == UpTo(if s.consumer.Suspended? then s.consumer.k else s.suspensions)
    ensures s.consumer.Suspended? ==> s.consumer.k + 1 == s.suspensions
  {
    hide Reachable;
    ReachableInv(s);
    forall t | t in s.setters
      ensures s.consumer == Suspended(s.setters[t].k)
    {
      OnlySetter(s, t);
    }
    if s.setters != map[] {
      var t :| t in s.setters;
      OnlySetter(s, t);
    }
  }

  /** A set that the consumer has not observed is still in the word, or its resume is on the way; so
      a consumer that sleeps with no setter at work has observed every set. */
  lemma NoSetIsLost(s: State)
    requires Reachable(s)
    ensures s.posted > s.observed ==> s.word == IsSet || s.setters != map[]
    ensures s.consumer.Suspended? && s.setters == map[] ==> s.observed == s.posted
    ensures s.consumer.Suspended? && s.posted > s.observed ==>
              exists t :: Enabled(s, ExchangeClear(t)) || Enabled(s, Resume(t))
  {
    hide Reachable;
    ReachableInv(s);
    if s.consumer.Suspended? && s.setters == map[] {
      SleepingWord(s);
    }
    if s.setters != map[] {
      var t :| t in s.setters;
      assert Enabled(s, ExchangeClear(t)) || Enabled(s, Resume(t));
    }
  }

  // ----- A set releases one await -----

  function Sets(actions: seq<Action>): nat {
    if actions == [] then 0 else (if actions[0].ExchangeSet? then 1 else 0) + Sets(actions[1..])
  }

  /** How often the consumer got past an await: resumed, or by finding the event set. */
  function Releases(actions: seq<Action>): nat {
    if actions == [] then 0 else (if actions[0].Resume? || actions[0].Reset? then 1 else 0) + Releases(actions[1..])
  }

  /** The releases that are certain to come without another set. */
  ghost function Owed(s: State): nat {
    if exists t :: t in s.setters && s.setters[t].Holding? then 1
    else (if s.setters == map[] then 0 else 1) + (if s.word == IsSet then 1 else 0)
  }

  lemma OwedStep(s: State, a: Action)
    requires Inv(s) && Enabled(s, a)
    ensures Owed(Apply(s, a)) + Releases([a]) <= Owed(s) + Sets([a])
    ensures Apply(s, a).posted == s.posted + Sets([a])
  {
    assert [a][1..] == [];
    match a
    case ExchangeSet(t) =>
      if s.word.Waiter? {
        assert Apply(s, a).setters[t].Holding?;
      }
    case ExchangeClear(t) => OnlySetter(s, t);
    case Resume(t) =>
      OnlySetter(s, t);
      assert s.setters - {t} == map[];
    case _ =>
  }

  lemma {:induction false} OwedRun(s: State, actions: seq<Action>, s': State)
    requires Inv(s) && Runs(s, actions, s')
    ensures Releases(actions) + Owed(s') <= Sets(actions) + Owed(s)
    ensures s'.posted == s.posted + Sets(actions)
    decreases actions
  {
    hide Inv, Enabled, Apply, Owed;
    if actions != [] {
      InvStep(s, actions[0]);
      OwedStep(s, actions[0]);
      assert [actions[0]][1..] == [];
      OwedRun(Apply(s, actions[0]), actions[1..], s');
    }
  }

  /** In every run the consumer gets past at most as many awaits as there were sets, the initial one
      included; and a consumer asleep with no setter at work has observed exactly those sets. */
  lemma OneReleasePerSet(initiallySet: bool, actions: seq<Action>, s: State)
    requires Runs(Initial(initiallySet), actions, s)
    ensures Releases(actions) <= Sets(actions) + (if initiallySet then 1 else 0)
    ensures s.posted == Sets(actions) + (if initiallySet then 1 else 0)
    ensures s.consumer.Suspended? && s.setters == map[] ==>
              s.observed == Sets(actions) + (if initiallySet then 1 else 0)
  {
    hide Runs, Inv, Initial, Sets, Releases, Owed;
    InvInitial(initiallySet);
    OwedInitially(initiallySet);
    OwedRun(Initial(initiallySet), actions, s);
    NoSetIsLost(s);
  }

  lemma OwedInitially(initiallySet: bool)
    ensures Owed(Initial(initiallySet)) == Initial(initiallySet).posted == (if initiallySet then 1 else 0)
  {
  }

  // ----- The code -----

  /** Who performs an action. */
  datatype Party = TheConsumer | TheSetter(t: ThreadId)

  function By(a: Action): Party {
    match a
    case ExchangeSet(t) => TheSetter(t)
    case ExchangeClear(t) => TheSetter(t)
    case Resume(t) => TheSetter(t)
    case _ => TheConsumer
  }

  /** What the others' actions leave alone: a consumer that is not suspended, and a setter's position. */
  ghost predicate Undisturbed(p: Party, s: State, s': State) {
    match p
    case TheConsumer => !s.consumer.Suspended? ==> s'.consumer == s.consumer && s'.suspensions == s.suspensions
    case TheSetter(t) =>
      (t in s'.setters <==> t in s.setters) && (t in s.setters ==> s'.setters[t] == s.setters[t]) &&
      s.posted <= s'.posted
  }

  lemma OthersLeaveAlone(p: Party, s: State, a: Action)
    requires Inv(s) && Enabled(s, a) && By(a) != p
    ensures Undisturbed(p, s, Apply(s, a))
  {
    if a.Resume? {
      OnlySetter(s, a.t);
    }
  }

  lemma Extend(b: bool, trace: seq<Action>, s: State, a: Action)
    requires Runs(Initial(b), trace, s) && Enabled(s, a)
    ensures Runs(Initial(b), trace + [a], Apply(s, a)) && Inv(s) && !Apply(s, a).broken
  {
    hide Inv, Apply, Enabled, Initial;
    InvInitial(b);
    InvRun(Initial(b), trace, s);
    InvStep(s, a);
    NotBroken(Apply(s, a));
    RunsSnoc(Initial(b), trace, s, a);
  }

  lemma NotBroken(s: State)
    requires Inv(s)
    ensures !s.broken && (s.consumer == Resetting ==> s.posted == s.observed + s.pending)
  {
  }

  /** The event's atomic word and the positions of its consumer and setters; the counters and `resumed`
      are history.  `others` says what the other parties do in the successive gaps between the steps of a
      method: any actions at all, of which the enabled ones happen.  `trace` records every action, so that
      `Valid` says that the object's history is a run. */
  class AutoResetEvent {
    const initiallySet: bool
    var word: Word
    var consumer: Consumer
    var setters: map<ThreadId, Setter>
    var suspensions: nat
    var resumed: seq<nat>
    var posted: nat
    var pending: nat
    var delivering: nat
    var observed: nat
    var others: seq<seq<Action>>
    ghost var trace: seq<Action>

    function View(): State
      reads this
    {
      State(word, consumer, setters, suspensions, resumed, posted, pending, delivering, observed, false)
    }

    ghost predicate Valid()
      reads this
    {
      Runs(Initial(initiallySet), trace, View())
    }

    constructor (initiallySet: bool, others: seq<seq<Action>>)
      ensures Valid() && View() == Initial(initiallySet) && trace == [] && this.others == others
    {
      this.initiallySet := initiallySet;
      word, consumer, setters := if initiallySet then IsSet else NotSet, Running, map[];
      suspensions, resumed, delivering, observed := 0, [], 0, 0;
      posted, pending := if initiallySet then 1 else 0, if initiallySet then 1 else 0;
      trace := [];
      this.others := others;
    }

    /** The first exchange of `set`: tells whether there is a waiter to resume. */
    method BeginSet(t: ThreadId) returns (waiting: bool, handle: nat)
      requires Valid() && Enabled(View(), ExchangeSet(t))
      modifies this`word, this`setters, this`posted, this`pending, this`trace
      ensures Valid() && View() == Apply(old(View()), ExchangeSet(t)) && trace == old(trace) + [ExchangeSet(t)]
      ensures waiting <==> old(word).Waiter?
      ensures waiting ==> handle == old(word).k
    {
      hide Runs, Inv, Initial;
      Extend(initiallySet, trace, View(), ExchangeSet(t));
      var oldValue := word;
      word := IsSet;
      waiting := oldValue != NotSet && oldValue != IsSet;
      handle := if waiting then oldValue.k else 0;
      posted, pending := posted + 1, pending + 1;
      setters := if waiting then setters[t := Holding(handle)] else setters;
      trace := trace + [ExchangeSet(t)];
    }

    /** The second exchange, made before the waiter is resumed. */
    method FinishSet(t: ThreadId)
      requires Valid() && Enabled(View(), ExchangeClear(t))
      modifies this`word, this`setters, this`pending, this`delivering, this`trace
      ensures Valid() && View() == Apply(old(View()), ExchangeClear(t)) && trace == old(trace) + [ExchangeClear(t)]
    {
      hide Runs, Inv, Initial;
      Extend(initiallySet, trace, View(), ExchangeClear(t));
      word := NotSet;
      delivering, pending := delivering + pending, 0;
      setters := setters[t := Resuming(setters[t].k)];
      trace := trace + [ExchangeClear(t)];
    }

    /** Resuming the coroutine whose handle was taken: it is suspended there. */
    method ResumeWaiter(t: ThreadId, handle: nat)
      requires Valid() && Enabled(View(), Resume(t)) && setters[t].k == handle
      modifies this`setters, this`consumer, this`resumed, this`observed, this`delivering, this`trace
      ensures Valid() && View() == Apply(old(View()), Resume(t)) && trace == old(trace) + [Resume(t)]
    {
      hide Runs, Inv, Initial;
      Extend(initiallySet, trace, View(), Resume(t));
      OnlySetter(View(), t);
      assert consumer == Suspended(handle);
      setters, consumer, resumed := setters - {t}, Running, resumed + [handle];
      observed, delivering := observed + delivering, 0;
      trace := trace + [Resume(t)];
    }

    /** The compare-exchange of the awaiter; when it fails, the old value is "set", as the code asserts. */
    method TrySuspend() returns (suspended: bool)
      requires Valid() && Enabled(View(), CompareExchange)
      modifies this`word, this`consumer, this`suspensions, this`trace
      ensures Valid() && View() == Apply(old(View()), CompareExchange) && trace == old(trace) + [CompareExchange]
      ensures suspended <==> consumer.Suspended?
    {
      hide Runs, Inv, Initial;
      Extend(initiallySet, trace, View(), CompareExchange);
      suspended := word == NotSet;
      if suspended {
        word, consumer, suspensions := Waiter(suspensions), Suspended(suspensions), suspensions + 1;
      } else {
        assert word == IsSet;
        consumer := Resetting;
      }
      trace := trace + [CompareExchange];
    }

    method ResetWord()
      requires Valid() && Enabled(View(), Reset)
      modifies this`word, this`consumer, this`observed, this`pending, this`trace
      ensures Valid() && View() == Apply(old(View()), Reset) && trace == old(trace) + [Reset]
      ensures observed == posted
    {
      hide Runs, Inv, Initial;
      Extend(initiallySet, trace, View(), Reset);
      NotBroken(View());
      word, consumer := NotSet, Running;
      observed, pending := observed + pending, 0;
      trace := trace + [Reset];
    }

    method Perform(a: Action)
      requires Valid() && Enabled(View(), a)
      modifies this
      ensures Valid() && View() == Apply(old(View()), a) && trace == old(trace) + [a] && others == old(others)
    {
      hide Runs, Apply, Initial;
      match a
      case ExchangeSet(t) => var _, _ := BeginSet(t);
      case ExchangeClear(t) => FinishSet(t);
      case Resume(t) => ResumeWaiter(t, setters[t].k);
      case CompareExchange => var _ := TrySuspend();
      case Reset => ResetWord();
    }

    /** A gap between two steps of `p`: whatever the others do there. */
    method Gap(p: Party)
      requires Valid()
      modifies this
      ensures Valid() && old(trace) <= trace && Undisturbed(p, old(View()), View())
    {
      hide Runs, Inv, Initial, Apply;
      if others == [] {
        return;
      }
      var plan := others[0];
      others := others[1..];
      for k := 0 to |plan|
        invariant Valid() && old(trace) <= trace && Undisturbed(p, old(View()), View())
      {
        if Enabled(View(), plan[k]) && By(plan[k]) != p {
          Extend(initiallySet, trace, View(), plan[k]);
          OthersLeaveAlone(p, View(), plan[k]);
          Perform(plan[k]);
        }
      }
    }

    /** `set`: if a coroutine was waiting, it has been resumed by the time this returns; and a set that
        nobody has observed is in the word or with another setter. */
    method Set(t: ThreadId)
      requires Valid() && t !in setters
      modifies this
      ensures Valid() && old(trace) <= trace && Runs(old(View()), trace[|old(trace)|..], View())
      ensures t !in setters && posted > old(posted)
      ensures old(word).Waiter? ==> consumer == Running && old(word).k in resumed
      ensures posted > observed ==> word == IsSet || setters != map[]
    {
      hide Runs, Inv, Initial;
      var waiting, handle := BeginSet(t);
      Gap(TheSetter(t));
      if waiting {
        FinishSet(t);
        Gap(TheSetter(t));
        ResumeWaiter(t, handle);
      }
      RunsSuffix(Initial(initiallySet), old(trace), old(View()), trace, View());
      NoSetIsLost(View());
    }

    /** `await_suspend`: stays suspended under the next number, or goes on at once, and then every
        set made so far has been observed. */
    method AwaitSuspend() returns (suspended: bool)
      requires Valid() && consumer == Running
      modifies this
      ensures Valid() && old(trace) <= trace && Runs(old(View()), trace[|old(trace)|..], View())
      ensures if suspended then consumer == Suspended(old(suspensions)) && word == Waiter(old(suspensions))
              else consumer == Running && suspensions == old(suspensions) && observed == posted
    {
      hide Runs, Inv, Initial;
      suspended := TrySuspend();
      if !suspended {
        Gap(TheConsumer);
        ResetWord();
      }
      RunsSuffix(Initial(initiallySet), old(trace), old(View()), trace, View());
    }
  }
}
