/**
 The event loop: a queue filled by any number of threads, an eventfd that wakes the loop, and a
 one-shot poll on it.

 The system is a set of atomic actions over one state.  A run is any sequence of enabled actions, so
 statements about runs are statements about every interleaving.  The class composes the functions of
 the service from methods that perform one action each.
 */
module IoServices {
  import opened Bytes

  /** Operations carry an identity; completions of I/O and remotely scheduled operations share the
      local queue. */
  type OpId = nat
  datatype Item = Remote(id: OpId) | Completion(id: OpId)

  /** Entries of the completion queue: the eventfd poll, a link timeout, or an I/O operation. */
  datatype Cqe = PollDone | LinkTimeout | IoDone(id: OpId)

  /** The poll request: none outstanding, prepared but not yet submitted, or armed in the kernel. */
  datatype Poll = NoPoll | Prepared | Armed

  datatype Thread = Loop | Worker(id: nat)

  /** Where `run` is: at the loop head, about to submit and wait, waiting, walking the completion queue
      (`drained` once the eventfd has been read), about to swap the remote queue, about to take the
      local queue, or executing a batch. */
  datatype Pc = Head | Submitting | Waiting | Reaping(drained: bool) | Swapping | Taking | Executing

  datatype State = State(
    pc: Pc,
    pollSubmitted: bool,
    poll: Poll,
    counter: nat,
    cq: seq<Cqe>,
    reaped: seq<Item>,
    remote: seq<OpId>,
    local: seq<Item>,
    batch: seq<Item>,
    executed: seq<Item>,
    owing: set<Thread>,
    pushed: seq<OpId>,
    completed: seq<OpId>)

  const INITIAL: State := State(Head, false, NoPoll, 0, [], [], [], [], [], [], {}, [], [])

  datatype Action =
    | Push(t: Thread, op: OpId)
    | Write(t: Thread)
    | SpuriousWrite
    | PreparePoll
    | Submit
    | PollFires
    | KernelPosts(cqe: Cqe)
    | Wake
    | ReapOne
    | ReapEnd
    | SwapRemote
    | TakeLocal
    | ExecuteOne
    | ExecuteEnd

  /** The loop thread can act for itself unless one of its callbacks still has an eventfd to write. */
  predicate LoopFree(s: State) {
    Loop !in s.owing
  }

  predicate Enabled(s: State, a: Action) {
    match a
    case Push(t, _) => t !in s.owing && (t == Loop ==> s.pc == Executing)
    case Write(t) => t in s.owing
    case SpuriousWrite => true
    case PreparePoll => LoopFree(s) && s.pc == Head
    case Submit => LoopFree(s) && s.pc == Submitting
    case PollFires => s.poll == Armed && s.counter > 0
    case KernelPosts(cqe) => cqe != PollDone
    case Wake => LoopFree(s) && s.pc == Waiting && s.cq != []
    case ReapOne => LoopFree(s) && s.pc.Reaping? && s.cq != []
    case ReapEnd => LoopFree(s) && s.pc.Reaping? && s.cq == []
    case SwapRemote => LoopFree(s) && s.pc == Swapping
    case TakeLocal => LoopFree(s) && s.pc == Taking
    case ExecuteOne => LoopFree(s) && s.pc == Executing && s.batch != []
    case ExecuteEnd => LoopFree(s) && s.pc == Executing && s.batch == []
  }

  function Remotes(ops: seq<OpId>): seq<Item> {
    seq(|ops|, i requires 0 <= i < |ops| => Remote(ops[i]))
  }

  function Reap(s: State): State
    requires s.pc.Reaping? && s.cq != []
  {
    var rest := s.(cq := s.cq[1..]);
    match s.cq[0]
    case PollDone => rest.(counter := 0, pollSubmitted := false, pc := Reaping(true))
    case LinkTimeout => rest
    case IoDone(id) => rest.(reaped := s.reaped + [Completion(id)])
  }

  function Apply(s: State, a: Action): State
    requires Enabled(s, a)
  {
    match a
    case Push(t, op) =>
      s.(remote := s.remote + [op], pushed := s.pushed + [op],
         owing := if s.remote == [] then s.owing + {t} else s.owing)
    case Write(t) => s.(counter := s.counter + 1, owing := s.owing - {t})
    case SpuriousWrite => s.(counter := s.counter + 1)
    case PreparePoll =>
      if s.pollSubmitted then s.(pc := Submitting)
      else s.(pc := Submitting, pollSubmitted := true, poll := Prepared)
    case Submit => s.(pc := Waiting, poll := if s.poll == Prepared then Armed else s.poll)
    case PollFires => s.(poll := NoPoll, cq := s.cq + [PollDone])
    case KernelPosts(cqe) =>
      s.(cq := s.cq + [cqe], completed := if cqe.IoDone? then s.completed + [cqe.id] else s.completed)
    case Wake => s.(pc := Reaping(false))
    case ReapOne => Reap(s)
    case ReapEnd => s.(local := s.local + s.reaped, reaped := [], pc := Swapping)
    case SwapRemote => s.(local := s.local + Remotes(s.remote), remote := [], pc := Taking)
    case TakeLocal =>
      if s.local == [] then s.(pc := Head) else s.(batch := s.local, local := [], pc := Executing)
    case ExecuteOne => s.(executed := s.executed + [s.batch[0]], batch := s.batch[1..])
    case ExecuteEnd => s.(pc := Head)
  }

  // ----- Runs -----

  ghost predicate Runs(s: State, actions: seq<Action>, s': State)
    decreases actions
  {
    if actions == [] then s == s'
    else Enabled(s, actions[0]) && Runs(Apply(s, actions[0]), actions[1..], s')
  }

  ghost predicate Reachable(s: State) {
    exists actions :: Runs(INITIAL, actions, s)
  }

  lemma {:induction false} RunsSnoc(s: State, actions: seq<Action>, s': State, a: Action)
    requires Runs(s, actions, s') && Enabled(s', a)
    ensures Runs(s, actions + [a], Apply(s', a))
    decreases actions
  {
    hide Enabled, Apply;
    if actions == [] {
      assert Runs(Apply(s, a), [], Apply(s', a));
    } else {
      assert (actions + [a])[1..] == actions[1..] + [a];
      RunsSnoc(Apply(s, actions[0]), actions[1..], s', a);
    }
  }

  /** A run that goes on from another is that one and a run from where it ended. */
  lemma {:induction false} RunsSuffix(s: State, actions: seq<Action>, mid: State, more: seq<Action>, s': State)
    requires Runs(s, actions, mid) && actions <= more && Runs(s, more, s')
    ensures Runs(mid, more[|actions|..], s')
    decreases actions
  {
    hide Enabled, Apply;
    if actions != [] {
      assert more[1..][|actions[1..]|..] == more[|actions|..];
      RunsSuffix(Apply(s, actions[0]), actions[1..], mid, more[1..], s');
    }
  }

  // ----- The wake-up invariant -----

  ghost function PollEntries(cq: seq<Cqe>): nat {
    if cq == [] then 0 else (if cq[0] == PollDone then 1 else 0) + PollEntries(cq[1..])
  }

  /** A non-empty remote queue always has somebody who will notice it. */
  ghost predicate WakeupComing(s: State) {
    s.remote != [] ==>
      || s.owing != {}
      || s.counter > 0
      || s.pc == Reaping(true) || s.pc == Swapping
  }

  /** The flag is set exactly while one poll is prepared, armed or completed and not yet reaped. */
  ghost predicate PollAccounted(s: State) {
    && PollEntries(s.cq) + (if s.poll == NoPoll then 0 else 1) == (if s.pollSubmitted then 1 else 0)
    && (s.poll == Prepared ==> s.pc == Submitting)
    && (s.pc == Submitting || s.pc == Waiting ==> s.pollSubmitted)
    && (s.pc == Reaping(true) ==> !s.pollSubmitted)
  }

  ghost predicate Shape(s: State) {
    && (s.pc != Executing ==> s.batch == [] && Loop !in s.owing)
    && (!s.pc.Reaping? ==> s.reaped == [])
    && RemotePart(s.reaped) == []
    && (s.pc in {Head, Submitting, Waiting, Reaping(false), Reaping(true)} ==> s.local == [])
    && (s.pc == Executing ==> s.local == [])
  }

  function RemoteOf(item: Item): seq<OpId> {
    if item.Remote? then [item.id] else []
  }

  function RemotePart(items: seq<Item>): seq<OpId> {
    if items == [] then [] else RemoteOf(items[0]) + RemotePart(items[1..])
  }

  function CompletionOf(item: Item): seq<OpId> {
    if item.Completion? then [item.id] else []
  }

  function CompletionPart(items: seq<Item>): seq<OpId> {
    if items == [] then [] else CompletionOf(items[0]) + CompletionPart(items[1..])
  }

  function IoOf(cqe: Cqe): seq<OpId> {
    if cqe.IoDone? then [cqe.id] else []
  }

  function IoPart(cq: seq<Cqe>): seq<OpId> {
    if cq == [] then [] else IoOf(cq[0]) + IoPart(cq[1..])
  }

  /** Everything in the loop's hands, oldest first. */
  function Pipeline(s: State): seq<Item> {
    s.executed + s.batch + s.local + s.reaped
  }

  /** Nothing pushed and nothing completed is lost, duplicated or reordered. */
  ghost predicate Conserved(s: State) {
    && s.pushed == RemotePart(Pipeline(s)) + s.remote
    && s.completed == CompletionPart(Pipeline(s)) + IoPart(s.cq)
  }

  ghost predicate Inv(s: State) {
    WakeupComing(s) && PollAccounted(s) && Shape(s) && Conserved(s)
  }

  lemma {:induction false} PollEntriesAppend(a: seq<Cqe>, b: seq<Cqe>)
    ensures PollEntries(a + b) == PollEntries(a) + PollEntries(b)
  {
    if a == [] {
      assert a + b == b;
    } else {
      assert (a + b)[1..] == a[1..] + b;
      PollEntriesAppend(a[1..], b);
    }
  }

  lemma {:induction false} IoPartAppend(a: seq<Cqe>, b: seq<Cqe>)
    ensures IoPart(a + b) == IoPart(a) + IoPart(b)
  {
    if a == [] {
      assert a + b == b;
    } else {
      assert (a + b)[1..] == a[1..] + b;
      IoPartAppend(a[1..], b);
      Assoc(IoOf(a[0]), IoPart(a[1..]), IoPart(b));
    }
  }

  lemma {:induction false} RemoteAppend(a: seq<Item>, b: seq<Item>)
    ensures RemotePart(a + b) == RemotePart(a) + RemotePart(b)
  {
    if a == [] {
      assert a + b == b;
    } else {
      assert (a + b)[1..] == a[1..] + b;
      RemoteAppend(a[1..], b);
      Assoc(RemoteOf(a[0]), RemotePart(a[1..]), RemotePart(b));
    }
  }

  lemma {:induction false} CompletionAppend(a: seq<Item>, b: seq<Item>)
    ensures CompletionPart(a + b) == CompletionPart(a) + CompletionPart(b)
  {
    if a == [] {
      assert a + b == b;
    } else {
      assert (a + b)[1..] == a[1..] + b;
      CompletionAppend(a[1..], b);
      Assoc(CompletionOf(a[0]), CompletionPart(a[1..]), CompletionPart(b));
    }
  }

  lemma {:induction false} PartsOfRemotes(ops: seq<OpId>)
    ensures RemotePart(Remotes(ops)) == ops && CompletionPart(Remotes(ops)) == []
  {
    if ops != [] {
      assert Remotes(ops)[1..] == Remotes(ops[1..]);
      PartsOfRemotes(ops[1..]);
    }
  }

  lemma WakeupStep(s: State, a: Action)
    requires Inv(s) && Enabled(s, a)
    ensures WakeupComing(Apply(s, a))
  {
    hide Conserved, RemotePart, PollEntries;
    match a
    case Push(t, _) => assert s.remote == [] ==> t in Apply(s, a).owing;
    case _ =>
  }

  lemma PollStep(s: State, a: Action)
    requires Inv(s) && Enabled(s, a)
    ensures PollAccounted(Apply(s, a))
  {
    hide Conserved, RemotePart, WakeupComing;
    match a
    case PollFires => PollEntriesAppend(s.cq, [PollDone]);
    case KernelPosts(cqe) => PollEntriesAppend(s.cq, [cqe]);
    case _ =>
  }

  lemma ShapeStep(s: State, a: Action)
    requires Inv(s) && Enabled(s, a)
    ensures Shape(Apply(s, a))
  {
    hide Conserved, PollEntries, WakeupComing;
    if a == ReapOne && s.cq[0].IoDone? {
      RemoteAppend(s.reaped, [Completion(s.cq[0].id)]);
    }
  }

  /** What an action brings into the loop's hands. */
  function Gained(s: State, a: Action): seq<Item>
    requires Enabled(s, a)
  {
    match a
    case ReapOne => if s.cq[0].IoDone? then [Completion(s.cq[0].id)] else []
    case SwapRemote => Remotes(s.remote)
    case _ => []
  }

  lemma PipelineStep(s: State, a: Action)
    requires Shape(s) && Enabled(s, a)
    ensures Pipeline(Apply(s, a)) == Pipeline(s) + Gained(s, a)
  {
    hide RemotePart, Remotes;
    var before := s.executed + s.batch + s.local;
    match a
    case ReapOne => Assoc(before, s.reaped, Gained(s, a));
    case ReapEnd => Assoc(s.executed + s.batch, s.local, s.reaped);
    case SwapRemote => Assoc(s.executed + s.batch, s.local, Remotes(s.remote));
    case TakeLocal =>
      assert s.executed + [] + s.local == s.executed + s.local + [];
    case ExecuteOne =>
      assert s.batch == [s.batch[0]] + s.batch[1..];
      Assoc(s.executed, [s.batch[0]], s.batch[1..]);
    case _ =>
  }

  /** The remote queue gives up exactly what the loop gains from it. */
  lemma RemoteQueueStep(s: State, a: Action)
    requires Enabled(s, a)
    ensures var s' := Apply(s, a);
            && s.pushed <= s'.pushed
            && RemotePart(Gained(s, a)) + s'.remote == s.remote + s'.pushed[|s.pushed|..]
  {
    hide CompletionPart;
    if a == SwapRemote {
      PartsOfRemotes(s.remote);
    } else {
      assert RemotePart(Gained(s, a)) == [];
    }
  }

  /** And so does the completion queue. */
  lemma CompletionQueueStep(s: State, a: Action)
    requires Enabled(s, a)
    ensures var s' := Apply(s, a);
            && s.completed <= s'.completed
            && CompletionPart(Gained(s, a)) + IoPart(s'.cq) == IoPart(s.cq) + s'.completed[|s.completed|..]
  {
    hide RemotePart;
    match a
    case KernelPosts(cqe) => IoPartAppend(s.cq, [cqe]);
    case PollFires => IoPartAppend(s.cq, [PollDone]);
    case SwapRemote => PartsOfRemotes(s.remote);
    case _ =>
  }

  lemma ConservedStep(s: State, a: Action)
    requires Inv(s) && Enabled(s, a)
    ensures Conserved(Apply(s, a))
  {
    hide RemotePart, CompletionPart, IoPart, Gained, Apply, PollAccounted, WakeupComing, Pipeline;
    var s', gain := Apply(s, a), Gained(s, a);
    PipelineStep(s, a);
    RemoteQueueStep(s, a);
    CompletionQueueStep(s, a);
    RemoteAppend(Pipeline(s), gain);
    CompletionAppend(Pipeline(s), gain);
    assert s'.pushed == s.pushed + s'.pushed[|s.pushed|..];
    assert s'.completed == s.completed + s'.completed[|s.completed|..];
    Assoc(RemotePart(Pipeline(s)), s.remote, s'.pushed[|s.pushed|..]);
    Assoc(CompletionPart(Pipeline(s)), IoPart(s.cq), s'.completed[|s.completed|..]);
    Assoc(RemotePart(Pipeline(s)), RemotePart(gain), s'.remote);
    Assoc(CompletionPart(Pipeline(s)), CompletionPart(gain), IoPart(s'.cq));
  }

  /** Every action keeps the invariant. */
  lemma InvStep(s: State, a: Action)
    requires Inv(s) && Enabled(s, a)
    ensures Inv(Apply(s, a))
  {
    hide *;
    WakeupStep(s, a);
    PollStep(s, a);
    ShapeStep(s, a);
    ConservedStep(s, a);
    InvParts(Apply(s, a));
  }

  lemma InvParts(s: State)
    requires WakeupComing(s) && PollAccounted(s) && Shape(s) && Conserved(s)
    ensures Inv(s)
  {
  }

  lemma {:induction false} InvRun(s: State, actions: seq<Action>, s': State)
    requires Inv(s) && Runs(s, actions, s')
    ensures Inv(s')
    decreases actions
  {
    if actions != [] {
      InvStep(s, actions[0]);
      InvRun(Apply(s, actions[0]), actions[1..], s');
    }
  }

  lemma ReachableInv(s: State)
    requires Reachable(s)
    ensures Inv(s)
  {
    var actions :| Runs(INITIAL, actions, s);
    InvRun(INITIAL, actions, s);
  }

  // ----- Consequences for every interleaving -----

  /** No lost wake-up: a waiting loop always has exactly one poll, armed or completed; and one that
      waits with work queued is not blocked for good: an entry is there already, or the poll can fire,
      or a producer still owes the write that will let it. */
  lemma NoLostWakeup(s: State)
    requires Reachable(s) && s.pc == Waiting
    ensures PollEntries(s.cq) + (if s.poll == Armed then 1 else 0) == 1
    ensures s.remote != [] ==>
              || Enabled(s, Wake) || Enabled(s, PollFires)
              || exists t :: t in s.owing && Enabled(s, Write(t))
  {
    ReachableInv(s);
    if s.owing != {} {
      var t :| t in s.owing;
      assert Enabled(s, Write(t));
    }
  }

  /** Scheduling order: what was pushed is what was executed, then the batch, then the local queue,
      then the remote queue. */
  lemma PushesConserved(s: State)
    requires Reachable(s)
    ensures s.pushed == RemotePart(s.executed) + RemotePart(s.batch) + RemotePart(s.local) + s.remote
  {
    ReachableInv(s);
    RemoteAppend(s.executed + s.batch + s.local, s.reaped);
    RemoteAppend(s.executed + s.batch, s.local);
    RemoteAppend(s.executed, s.batch);
  }

  // ----- Every wake-up is paid for -----

  /** How many of the actions satisfy `p`. */
  ghost function Count(actions: seq<Action>, p: Action -> bool): nat {
    if actions == [] then 0 else (if p(actions[0]) then 1 else 0) + Count(actions[1..], p)
  }

  predicate IsFire(a: Action) {
    a.PollFires?
  }

  predicate IsSubmit(a: Action) {
    a.Submit?
  }

  predicate IsWrite(a: Action) {
    a.Write?
  }

  predicate IsSignal(a: Action) {
    a.Write? || a.SpuriousWrite?
  }

  predicate IsPost(a: Action) {
    a.PollFires? || a.KernelPosts?
  }

  predicate IsWake(a: Action) {
    a.Wake?
  }

  predicate IsRound(a: Action) {
    a.PreparePoll?
  }

  predicate IsSwap(a: Action) {
    a.SwapRemote?
  }

  /** A signal that no poll has reported yet. */
  function UnreportedSignal(s: State): nat {
    if s.counter > 0 && PollDone !in s.cq then 1 else 0
  }

  /** A completion that has not woken the loop yet. */
  function UnseenCompletion(s: State): nat {
    if s.cq != [] && !s.pc.Reaping? then 1 else 0
  }

  /** A batch of pushes that the loop has not swapped out yet. */
  function OpenBatch(s: State): nat {
    if s.remote != [] then 1 else 0
  }

  lemma {:induction false} NoPollEntry(cq: seq<Cqe>)
    ensures PollEntries(cq) == 0 <==> PollDone !in cq
  {
    if cq != [] {
      NoPollEntry(cq[1..]);
      assert cq == [cq[0]] + cq[1..];
    }
  }

  lemma FireStep(s: State, a: Action)
    requires Inv(s) && Enabled(s, a)
    ensures UnreportedSignal(Apply(s, a)) + (if IsFire(a) then 1 else 0) <=
            UnreportedSignal(s) + (if IsSignal(a) then 1 else 0)
    ensures Apply(s, a).counter <= s.counter + (if IsSignal(a) then 1 else 0)
  {
    hide Conserved, RemotePart, WakeupComing, Remotes;
    NoPollEntry(s.cq);
    if a == ReapOne && s.cq[0] != PollDone {
      assert s.cq == [s.cq[0]] + s.cq[1..];
    }
  }

  lemma WakeStep(s: State, a: Action)
    requires Enabled(s, a)
    ensures UnseenCompletion(Apply(s, a)) + (if IsWake(a) then 1 else 0) <=
            UnseenCompletion(s) + (if IsPost(a) then 1 else 0)
  {
  }

  lemma ArmStep(s: State, a: Action)
    requires Enabled(s, a)
    ensures var s' := Apply(s, a);
            (if IsFire(a) then 1 else 0) + (if s'.poll == Armed then 1 else 0) <=
            (if IsSubmit(a) then 1 else 0) + (if s.poll == Armed then 1 else 0)
  {
  }

  lemma RoundStep(s: State, a: Action)
    requires Enabled(s, a)
    ensures var s' := Apply(s, a);
            (if IsRound(a) then 1 else 0) + RoundAllowed(s') <= (if IsWake(a) then 1 else 0) + RoundAllowed(s)
  {
  }

  /** Whether the loop gets to its head without waiting again. */
  function RoundAllowed(s: State): nat {
    if s.pc == Submitting || s.pc == Waiting then 0 else 1
  }

  lemma WriteStep(s: State, a: Action)
    requires Enabled(s, a)
    ensures var s' := Apply(s, a);
            |s'.owing| + (if IsWrite(a) then 1 else 0) + OpenBatch(s) <=
            |s.owing| + OpenBatch(s') + (if IsSwap(a) then 1 else 0)
  {
    match a
    case Push(t, _) => assert |s.owing + {t}| == |s.owing| + 1;
    case Write(t) => assert |s.owing - {t}| == |s.owing| - 1;
    case _ =>
  }

  lemma {:induction false} PaidFrom(s: State, actions: seq<Action>, s': State)
    requires Inv(s) && Runs(s, actions, s')
    ensures Count(actions, IsFire) + UnreportedSignal(s') <= Count(actions, IsSignal) + UnreportedSignal(s)
    ensures s'.counter <= s.counter + Count(actions, IsSignal)
    ensures Count(actions, IsWake) + UnseenCompletion(s') <= Count(actions, IsPost) + UnseenCompletion(s)
    ensures Count(actions, IsWrite) + |s'.owing| + OpenBatch(s) <=
            Count(actions, IsSwap) + |s.owing| + OpenBatch(s')
    ensures Count(actions, IsRound) + RoundAllowed(s') <= Count(actions, IsWake) + RoundAllowed(s)
    ensures Count(actions, IsFire) <= Count(actions, IsSubmit) + (if s.poll == Armed then 1 else 0)
    decreases actions
  {
    hide Inv, Enabled, Apply, UnreportedSignal, UnseenCompletion, OpenBatch, RoundAllowed;
    hide IsFire, IsSignal, IsWake, IsPost, IsWrite, IsSwap, IsRound, IsSubmit;
    if actions != [] {
      var a, next := actions[0], Apply(s, actions[0]);
      InvStep(s, a);
      FireStep(s, a);
      WakeStep(s, a);
      WriteStep(s, a);
      RoundStep(s, a);
      ArmStep(s, a);
      PaidFrom(next, actions[1..], s');
    }
  }

  /** The loop does not spin, and producers do not write more than they must: in every run the polls fire
      at most as often as somebody writes to the eventfd and at most once per submission, the loop wakes at
      most as often as completions are posted and goes round only after a wake-up, and the producers write
      at most once for each batch that the loop swaps out. */
  lemma WakeupsArePaidFor(actions: seq<Action>, s: State)
    requires Runs(INITIAL, actions, s)
    ensures Count(actions, IsFire) <= Count(actions, IsSignal) && s.counter <= Count(actions, IsSignal)
    ensures Count(actions, IsFire) <= Count(actions, IsSubmit)
    ensures Count(actions, IsWake) <= Count(actions, IsPost)
    ensures Count(actions, IsRound) <= Count(actions, IsWake) + 1
    ensures Count(actions, IsWrite) + |s.owing| <= Count(actions, IsSwap) + (if s.remote == [] then 0 else 1)
  {
    PaidFrom(INITIAL, actions, s);
  }

  // ----- Everything pushed can be executed -----

  ghost predicate AllExecuted(s: State) {
    RemotePart(s.executed) == s.pushed
  }

  /** How far the loop is from having executed all that is queued now. */
  ghost function Rank(s: State): nat {
    match s.pc
    case Taking => if s.remote == [] then 4 else 20
    case Executing => if s.remote == [] then 3 else 19
    case Head => 18
    case Submitting => 17
    case Waiting => 16
    case Reaping(_) => 15
    case Swapping => 14
  }

  ghost function Minor(s: State): nat {
    match s.pc
    case Waiting => if s.cq == [] then 1 else 0
    case Reaping(_) => |s.cq|
    case Executing => |s.batch|
    case _ => 0
  }

  /** An action that brings the loop closer, with no help from producers beyond the writes they owe. */
  lemma HelpfulAction(s: State) returns (a: Action)
    requires Inv(s) && !AllExecuted(s)
    ensures Enabled(s, a) && !a.Push? && Apply(s, a).pushed == s.pushed
    ensures var s' := Apply(s, a);
            || |s'.owing| < |s.owing|
            || (s'.owing == s.owing && Rank(s') < Rank(s))
            || (s'.owing == s.owing && Rank(s') == Rank(s) && Minor(s') < Minor(s))
  {
    hide RemotePart, PollEntries, Conserved;
    if s.owing != {} {
      var t :| t in s.owing;
      a := Write(t);
      assert |s.owing - {t}| < |s.owing|;
    } else {
      NotDoneYet(s);
      match s.pc
      case Head => a := PreparePoll;
      case Submitting => a := Submit;
      case Waiting => a := if s.cq != [] then Wake else PollFires;
      case Reaping(_) => a := if s.cq != [] then ReapOne else ReapEnd;
      case Swapping => a := SwapRemote;
      case Taking => a := TakeLocal;
      case Executing => a := if s.batch != [] then ExecuteOne else ExecuteEnd;
    }
  }

  /** What is not executed yet is in the batch, the local queue or the remote queue. */
  lemma NotDoneYet(s: State)
    requires Inv(s) && !AllExecuted(s)
    ensures s.batch != [] || s.local != [] || s.remote != []
    ensures s.pc == Waiting && s.owing == {} ==> s.cq != [] || (s.poll == Armed && s.counter > 0)
  {
    if s.batch == [] && s.local == [] {
      assert Pipeline(s) == s.executed + s.reaped;
      RemoteAppend(s.executed, s.reaped);
    }
  }

  /** From every reachable state the loop can get everything pushed so far executed, in order,
      without another push. */
  lemma {:induction false} CanExecuteAll(s: State) returns (actions: seq<Action>, s': State)
    requires Inv(s)
    ensures Runs(s, actions, s') && (forall i :: 0 <= i < |actions| ==> !actions[i].Push?)
    ensures s'.pushed == s.pushed && AllExecuted(s')
    decreases |s.owing|, Rank(s), Minor(s)
  {
    hide Inv, AllExecuted, Enabled, Rank, Minor;
    if AllExecuted(s) {
      actions, s' := [], s;
    } else {
      var a := HelpfulAction(s);
      InvStep(s, a);
      var rest;
      rest, s' := CanExecuteAll(Apply(s, a));
      actions := [a] + rest;
      assert actions[1..] == rest;
    }
  }

  lemma EveryPushCanBeExecuted(s: State)
    requires Reachable(s)
    ensures exists actions: seq<Action>, s': State ::
              && Runs(s, actions, s') && (forall i :: 0 <= i < |actions| ==> !actions[i].Push?)
              && s'.pushed == s.pushed && RemotePart(s'.executed) == s.pushed
  {
    ReachableInv(s);
    var actions, s' := CanExecuteAll(s);
  }

  // ----- What the loop has taken over stays with it -----

  lemma {:induction false} HistoryGrows(s: State, actions: seq<Action>, s': State)
    requires Inv(s) && Runs(s, actions, s')
    ensures Pipeline(s) <= Pipeline(s') && s.pushed <= s'.pushed && s.completed <= s'.completed
    decreases actions
  {
    hide Inv, Pipeline, Enabled, Apply;
    if actions != [] {
      InvStep(s, actions[0]);
      InvShape(s);
      PipelineStep(s, actions[0]);
      RemoteQueueStep(s, actions[0]);
      CompletionQueueStep(s, actions[0]);
      HistoryGrows(Apply(s, actions[0]), actions[1..], s');
    }
  }

  lemma InvShape(s: State)
    requires Inv(s)
    ensures Shape(s)
  {
  }

  /** Once the completion queue, or the remote queue, has been found empty, everything that came
      through it before has been executed when the loop is at its head again. */
  lemma TakenIsExecuted(s: State, actions: seq<Action>, s': State)
    requires Inv(s) && Runs(s, actions, s') && s'.pc == Head
    ensures s.remote == [] ==> s.pushed <= RemotePart(s'.executed)
    ensures s.cq == [] ==> s.completed <= CompletionPart(s'.executed)
  {
    hide Runs, RemotePart, CompletionPart;
    InvRun(s, actions, s');
    HistoryGrows(s, actions, s');
    assert Pipeline(s') == s'.executed;
    var more := Pipeline(s')[|Pipeline(s)|..];
    assert Pipeline(s') == Pipeline(s) + more;
    RemoteAppend(Pipeline(s), more);
    CompletionAppend(Pipeline(s), more);
    assert IoPart([]) == [];
  }

  /** A run that passes a state with an empty queue and later the head of the loop has executed all that
      had come through that queue before it started. */
  lemma EmptiedOnTheWay(t0: seq<Action>, s0: State, t1: seq<Action>, s1: State, t2: seq<Action>, s2: State)
    requires Runs(INITIAL, t0, s0) && Runs(INITIAL, t1, s1) && Runs(INITIAL, t2, s2) && t0 <= t1 <= t2
    requires s2.pc == Head
    ensures s1.remote == [] ==> s0.pushed <= RemotePart(s2.executed)
    ensures s1.cq == [] ==> s0.completed <= CompletionPart(s2.executed)
  {
    hide Runs, RemotePart, CompletionPart, Inv;
    ReachableInv(s0);
    ReachableInv(s1);
    RunsSuffix(INITIAL, t0, s0, t1, s1);
    RunsSuffix(INITIAL, t1, s1, t2, s2);
    HistoryGrows(s0, t1[|t0|..], s1);
    TakenIsExecuted(s1, t2[|t1|..], s2);
  }

  // ----- The code -----

  /** Who performs an action: a thread, or the kernel and everything else outside. */
  datatype Party = Of(t: Thread) | Outside

  function By(a: Action): Party {
    match a
    case Push(t, _) => Of(t)
    case Write(t) => Of(t)
    case SpuriousWrite => Outside
    case PollFires => Outside
    case KernelPosts(_) => Outside
    case _ => Of(Loop)
  }

  /** What the others' actions leave alone: whether a thread owes a write, and, for the loop thread, all
      that only it changes; completions are only added behind those that are there. */
  ghost predicate Undisturbed(t: Thread, s: State, s': State) {
    && (t in s'.owing <==> t in s.owing)
    && (t == Loop ==>
          && s'.pc == s.pc && s'.pollSubmitted == s.pollSubmitted && s.cq <= s'.cq && s'.reaped == s.reaped
          && s'.local == s.local && s'.batch == s.batch && s'.executed == s.executed)
    && s.pushed <= s'.pushed && s.completed <= s'.completed
  }

  lemma OthersLeaveAlone(t: Thread, s: State, a: Action)
    requires Enabled(s, a) && By(a) != Of(t)
    ensures Undisturbed(t, s, Apply(s, a))
  {
  }

  /** What the operations executed by the loop have scheduled. */
  ghost function LoopPushes(actions: seq<Action>): seq<OpId> {
    if actions == [] then []
    else
      var a := actions[|actions| - 1];
      LoopPushes(actions[..|actions| - 1]) + (if a.Push? && a.t == Loop then [a.op] else [])
  }

  lemma {:induction false} CountSnoc(actions: seq<Action>, a: Action, p: Action -> bool)
    ensures Count(actions + [a], p) == Count(actions, p) + (if p(a) then 1 else 0)
  {
    if actions != [] {
      assert (actions + [a])[1..] == actions[1..] + [a];
      CountSnoc(actions[1..], a, p);
    } else {
      assert [a][1..] == [] && actions + [a] == [a];
    }
  }

  lemma Extend(trace: seq<Action>, s: State, a: Action)
    requires Runs(INITIAL, trace, s) && Enabled(s, a)
    ensures Runs(INITIAL, trace + [a], Apply(s, a)) && Reachable(s)
    ensures Count(trace + [a], IsRound) == Count(trace, IsRound) + (if a == PreparePoll then 1 else 0)
    ensures LoopPushes(trace + [a]) == LoopPushes(trace) + (if a.Push? && a.t == Loop then [a.op] else [])
  {
    hide Enabled, Apply, Runs;
    RunsSnoc(INITIAL, trace, s, a);
    CountSnoc(trace, a, IsRound);
    assert (trace + [a])[..|trace|] == trace;
  }

  /** The service's fields, the kernel objects it uses and the positions of the threads; `executed`,
      `pushed` and `completed` are history.

      `others` says what the other threads and the kernel do in the successive gaps between the steps of
      a method: any actions at all, of which the enabled ones happen.  `scheduled` says what the executed
      operations schedule in turn.  `trace` records every action, so that `Valid` says that the object's
      history is a run; `rounds` and `loopPushes` are read off it. */
  class IoService {
    var pollSqeSubmitted: bool
    var localQueue: seq<Item>
    var remoteQueue: seq<OpId>
    var pendingList: seq<Item>
    var cqOperations: seq<Item>
    var eventfd: nat
    var pollRequest: Poll
    var completionQueue: seq<Cqe>
    var pc: Pc
    var owing: set<Thread>
    var executed: seq<Item>
    var pushed: seq<OpId>
    var completed: seq<OpId>
    var others: seq<seq<Action>>
    var scheduled: seq<seq<OpId>>
    ghost var trace: seq<Action>
    ghost var rounds: nat
    ghost var loopPushes: seq<OpId>

    function View(): State
      reads this
    {
      State(pc, pollSqeSubmitted, pollRequest, eventfd, completionQueue, cqOperations, remoteQueue, localQueue,
            pendingList, executed, owing, pushed, completed)
    }

    ghost predicate Valid()
      reads this
    {
      Runs(INITIAL, trace, View()) && rounds == Count(trace, IsRound) && loopPushes == LoopPushes(trace)
    }

    constructor (others: seq<seq<Action>>, scheduled: seq<seq<OpId>>)
      ensures Valid() && View() == INITIAL && trace == []
      ensures this.others == others && this.scheduled == scheduled
    {
      pollSqeSubmitted, localQueue, remoteQueue, pendingList, cqOperations := false, [], [], [], [];
      eventfd, pollRequest, completionQueue := 0, NoPoll, [];
      pc, executed, owing, pushed, completed := Head, [], {}, [], [];
      this.others, this.scheduled, trace, rounds, loopPushes := others, scheduled, [], 0, [];
    }

    // ----- Atomic pieces -----

    /** The locked half of `schedule_remote`. */
    method PushRemote(t: Thread, op: OpId) returns (needEnableEventfd: bool)
      requires Valid() && Enabled(View(), Push(t, op))
      modifies this`remoteQueue, this`owing, this`pushed, this`trace, this`loopPushes
      ensures Valid() && View() == Apply(old(View()), Push(t, op)) && trace == old(trace) + [Push(t, op)]
      ensures needEnableEventfd <==> t in owing
      ensures loopPushes == old(loopPushes) + (if t == Loop then [op] else [])
    {
      hide Runs, Count, LoopPushes;
      Extend(trace, View(), Push(t, op));
      loopPushes := loopPushes + (if t == Loop then [op] else []);
      needEnableEventfd := remoteQueue == [];
      remoteQueue := remoteQueue + [op];
      pushed := pushed + [op];
      owing := if needEnableEventfd then owing + {t} else owing;
      trace := trace + [Push(t, op)];
    }

    /** The other half, when the queue was found empty. */
    method EnableRemoteQueueEventfd(t: Thread)
      requires Valid() && Enabled(View(), Write(t))
      modifies this`eventfd, this`owing, this`trace
      ensures Valid() && View() == Apply(old(View()), Write(t)) && trace == old(trace) + [Write(t)]
    {
      hide Runs, Count, LoopPushes;
      Extend(trace, View(), Write(t));
      eventfd := eventfd + 1;
      owing := owing - {t};
      trace := trace + [Write(t)];
    }

    method PreparePollIfNeeded()
      requires Valid() && Enabled(View(), PreparePoll)
      modifies this`pollSqeSubmitted, this`pollRequest, this`pc, this`trace, this`rounds
      ensures Valid() && View() == Apply(old(View()), PreparePoll) && trace == old(trace) + [PreparePoll]
      ensures rounds == old(rounds) + 1
    {
      hide Runs, Count, LoopPushes;
      Extend(trace, View(), PreparePoll);
      if !pollSqeSubmitted {
        pollRequest := Prepared;
        pollSqeSubmitted := true;
      }
      pc := Submitting;
      trace, rounds := trace + [PreparePoll], rounds + 1;
    }

    method SubmitRequests()
      requires Valid() && Enabled(View(), Submit)
      modifies this`pollRequest, this`pc, this`trace
      ensures Valid() && View() == Apply(old(View()), Submit) && trace == old(trace) + [Submit]
    {
      hide Runs, Count, LoopPushes;
      Extend(trace, View(), Submit);
      if pollRequest == Prepared {
        pollRequest := Armed;
      }
      pc := Waiting;
      trace := trace + [Submit];
    }

    method WakeUp()
      requires Valid() && Enabled(View(), Wake)
      modifies this`pc, this`trace
      ensures Valid() && View() == Apply(old(View()), Wake) && trace == old(trace) + [Wake]
    {
      hide Runs, Count, LoopPushes;
      Extend(trace, View(), Wake);
      pc := Reaping(false);
      trace := trace + [Wake];
    }

    /** One entry of the walk over the completion queue. */
    method ReapCompletion()
      requires Valid() && Enabled(View(), ReapOne)
      modifies this`completionQueue, this`eventfd, this`pollSqeSubmitted, this`cqOperations, this`pc, this`trace
      ensures Valid() && View() == Apply(old(View()), ReapOne) && trace == old(trace) + [ReapOne]
    {
      hide Runs, Count, LoopPushes;
      Extend(trace, View(), ReapOne);
      var cqe := completionQueue[0];
      completionQueue := completionQueue[1..];
      if cqe == PollDone {
        eventfd := 0;
        pollSqeSubmitted := false;
        pc := Reaping(true);
      } else if cqe != LinkTimeout {
        cqOperations := cqOperations + [Completion(cqe.id)];
      }
      trace := trace + [ReapOne];
    }

    method ScheduleCompletions()
      requires Valid() && Enabled(View(), ReapEnd)
      modifies this`localQueue, this`cqOperations, this`pc, this`trace
      ensures Valid() && View() == Apply(old(View()), ReapEnd) && trace == old(trace) + [ReapEnd]
    {
      hide Runs, Count, LoopPushes;
      Extend(trace, View(), ReapEnd);
      localQueue, cqOperations := localQueue + cqOperations, [];
      pc := Swapping;
      trace := trace + [ReapEnd];
    }

    method GetRemoteQueueOperationBases()
      requires Valid() && Enabled(View(), SwapRemote)
      modifies this`remoteQueue, this`localQueue, this`pc, this`trace
      ensures Valid() && View() == Apply(old(View()), SwapRemote) && trace == old(trace) + [SwapRemote]
    {
      hide Runs, Count, LoopPushes;
      Extend(trace, View(), SwapRemote);
      var remoteOperations := remoteQueue;
      remoteQueue := [];
      localQueue := localQueue + Remotes(remoteOperations);
      pc := Taking;
      trace := trace + [SwapRemote];
    }

    method TakePending() returns (empty: bool)
      requires Valid() && Enabled(View(), TakeLocal)
      modifies this`pendingList, this`localQueue, this`pc, this`trace
      ensures Valid() && View() == Apply(old(View()), TakeLocal) && trace == old(trace) + [TakeLocal]
      ensures empty <==> pc == Head
    {
      hide Runs, Count, LoopPushes;
      Extend(trace, View(), TakeLocal);
      empty := localQueue == [];
      if empty {
        pc := Head;
      } else {
        pendingList, localQueue := localQueue, [];
        pc := Executing;
      }
      trace := trace + [TakeLocal];
    }

    method ExecuteNext()
      requires Valid() && Enabled(View(), ExecuteOne)
      modifies this`pendingList, this`executed, this`trace
      ensures Valid() && View() == Apply(old(View()), ExecuteOne) && trace == old(trace) + [ExecuteOne]
    {
      hide Runs, Count, LoopPushes;
      Extend(trace, View(), ExecuteOne);
      executed := executed + [pendingList[0]];
      pendingList := pendingList[1..];
      trace := trace + [ExecuteOne];
    }

    method EndBatch()
      requires Valid() && Enabled(View(), ExecuteEnd)
      modifies this`pc, this`trace
      ensures Valid() && View() == Apply(old(View()), ExecuteEnd) && trace == old(trace) + [ExecuteEnd]
    {
      hide Runs, Count, LoopPushes;
      Extend(trace, View(), ExecuteEnd);
      pc := Head;
      trace := trace + [ExecuteEnd];
    }

    /** What happens outside the program. */
    method Outer(a: Action)
      requires Valid() && Enabled(View(), a) && By(a) == Outside
      modifies this`eventfd, this`pollRequest, this`completionQueue, this`completed, this`trace
      ensures Valid() && View() == Apply(old(View()), a) && trace == old(trace) + [a]
    {
      hide Runs, Count, LoopPushes;
      Extend(trace, View(), a);
      match a {
        case SpuriousWrite => eventfd := eventfd + 1;
        case PollFires => pollRequest, completionQueue := NoPoll, completionQueue + [PollDone];
        case KernelPosts(cqe) =>
          completionQueue := completionQueue + [cqe];
          completed := if cqe.IoDone? then completed + [cqe.id] else completed;
      }
      trace := trace + [a];
    }

    method Perform(a: Action)
      requires Valid() && Enabled(View(), a)
      modifies this
      ensures Valid() && View() == Apply(old(View()), a) && trace == old(trace) + [a]
      ensures others == old(others) && scheduled == old(scheduled)
      ensures By(a) != Of(Loop) ==> rounds == old(rounds) && loopPushes == old(loopPushes)
    {
      hide Runs, Apply, Enabled, Count, LoopPushes;
      match a
      case Push(t, op) => var _ := PushRemote(t, op);
      case Write(t) => EnableRemoteQueueEventfd(t);
      case PreparePoll => PreparePollIfNeeded();
      case Submit => SubmitRequests();
      case Wake => WakeUp();
      case ReapOne => ReapCompletion();
      case ReapEnd => ScheduleCompletions();
      case SwapRemote => GetRemoteQueueOperationBases();
      case TakeLocal => var _ := TakePending();
      case ExecuteOne => ExecuteNext();
      case ExecuteEnd => EndBatch();
      case _ => Outer(a);
    }

    /** A gap between two steps of `t`: whatever the other threads and the kernel do there. */
    method Gap(t: Thread)
      requires Valid()
      modifies this
      ensures Valid() && old(trace) <= trace && Undisturbed(t, old(View()), View())
      ensures others == (if old(others) == [] then [] else old(others)[1..]) && scheduled == old(scheduled)
      ensures old(others) == [] ==> View() == old(View())
      ensures t == Loop ==> rounds == old(rounds) && loopPushes == old(loopPushes)
    {
      hide Runs, Apply, Count, LoopPushes;
      if others == [] {
        return;
      }
      var plan := others[0];
      others := others[1..];
      for k := 0 to |plan|
        invariant Valid() && old(trace) <= trace && Undisturbed(t, old(View()), View())
        invariant others == old(others)[1..] && scheduled == old(scheduled)
        invariant t == Loop ==> rounds == old(rounds) && loopPushes == old(loopPushes)
      {
        if Enabled(View(), plan[k]) && By(plan[k]) != Of(t) {
          OthersLeaveAlone(t, View(), plan[k]);
          Perform(plan[k]);
        }
      }
    }

    // ----- The functions of the service -----

    /** `schedule_remote`, on any thread: the operation is pushed, and the thread owes no write when it
        returns. */
    method ScheduleRemote(t: Thread, op: OpId)
      requires Valid() && t !in owing && (t == Loop ==> pc == Executing)
      modifies this
      ensures Valid() && old(trace) <= trace && Runs(old(View()), trace[|old(trace)|..], View())
      ensures Undisturbed(t, old(View()), View()) && old(pushed) + [op] <= pushed
      ensures t == Loop ==> rounds == old(rounds) && loopPushes == old(loopPushes) + [op] && scheduled == old(scheduled)
    {
      hide Runs, Count, LoopPushes;
      var needEnableEventfd := PushRemote(t, op);
      Gap(t);
      if needEnableEventfd {
        EnableRemoteQueueEventfd(t);
      }
      RunsSuffix(INITIAL, old(trace), old(View()), trace, View());
    }

    /** `io_uring_submit_and_wait`: returns with a completion there, or blocks for as long as the others
        do nothing that posts one. */
    method SubmitAndWait() returns (blocked: bool)
      requires Valid() && pc == Submitting && Loop !in owing
      modifies this
      ensures Valid() && old(trace) <= trace && Runs(old(View()), trace[|old(trace)|..], View())
      ensures if blocked then pc == Waiting && completionQueue == [] && others == []
              else pc == Reaping(false) && completionQueue != [] && Loop !in owing
      ensures rounds == old(rounds)
    {
      hide Runs, Count, LoopPushes;
      SubmitRequests();
      while completionQueue == [] && others != []
        invariant Valid() && old(trace) <= trace && pc == Waiting && Loop !in owing && rounds == old(rounds)
        decreases |others|
      {
        Gap(Loop);
      }
      blocked := completionQueue == [];
      if !blocked {
        WakeUp();
      }
      RunsSuffix(INITIAL, old(trace), old(View()), trace, View());
    }

    /** The walk over the completion queue, which may grow meanwhile: it ends, and the operations go
        behind the local queue. */
    method GetCompletionQueueOperationBases()
      requires Valid() && pc.Reaping? && Loop !in owing
      modifies this
      ensures Valid() && old(trace) <= trace && Runs(old(View()), trace[|old(trace)|..], View())
      ensures pc == Swapping && Loop !in owing && completionQueue == [] && rounds == old(rounds)
    {
      hide Runs, Count, LoopPushes;
      while completionQueue != []
        invariant Valid() && old(trace) <= trace && pc.Reaping? && Loop !in owing && rounds == old(rounds)
        decreases |others|, |completionQueue|
      {
        ReapCompletion();
        Gap(Loop);
      }
      ScheduleCompletions();
      RunsSuffix(INITIAL, old(trace), old(View()), trace, View());
    }

    /** One operation of the batch, and all that it schedules in turn, in order. */
    method ExecuteOperation()
      requires Valid() && Enabled(View(), ExecuteOne)
      modifies this
      ensures Valid() && old(trace) <= trace && Runs(old(View()), trace[|old(trace)|..], View())
      ensures pc == Executing && Loop !in owing && pendingList == old(pendingList)[1..] && rounds == old(rounds)
      ensures if old(scheduled) == [] then loopPushes == old(loopPushes)
              else loopPushes == old(loopPushes) + old(scheduled)[0] && scheduled == old(scheduled)[1..]
    {
      hide Runs, Count, LoopPushes;
      ExecuteNext();
      if scheduled != [] {
        var ops := scheduled[0];
        scheduled := scheduled[1..];
        for k := 0 to |ops|
          invariant Valid() && old(trace) <= trace && pc == Executing && Loop !in owing
          invariant pendingList == old(pendingList)[1..] && rounds == old(rounds)
          invariant scheduled == old(scheduled)[1..] && loopPushes == old(loopPushes) + ops[..k]
        {
          ScheduleRemote(Loop, ops[k]);
          assert ops[..k + 1] == ops[..k] + [ops[k]];
        }
        assert ops[..|ops|] == ops;
      }
      RunsSuffix(INITIAL, old(trace), old(View()), trace, View());
    }

    /** `execute_pending_local`: executes the local queue as it is now, to its end. */
    method ExecutePendingLocal()
      requires Valid() && pc == Taking && Loop !in owing
      modifies this
      ensures Valid() && old(trace) <= trace && Runs(old(View()), trace[|old(trace)|..], View())
      ensures pc == Head && Loop !in owing && rounds == old(rounds)
    {
      hide Runs, Count, LoopPushes;
      var empty := TakePending();
      if !empty {
        while pendingList != []
          invariant Valid() && old(trace) <= trace && pc == Executing && Loop !in owing && rounds == old(rounds)
          decreases |pendingList|
        {
          ExecuteOperation();
          Gap(Loop);
        }
        EndBatch();
      }
      RunsSuffix(INITIAL, old(trace), old(View()), trace, View());
    }

    /** The part of a round behind the wait: everything that was pushed or completed before it has been
        executed at its end. */
    method Process()
      requires Valid() && pc.Reaping? && Loop !in owing
      modifies this
      ensures Valid() && old(trace) <= trace && pc == Head && Loop !in owing && rounds == old(rounds)
      ensures old(pushed) <= RemotePart(executed) && old(completed) <= CompletionPart(executed)
    {
      hide Runs, RemotePart, CompletionPart, Remotes, Count, LoopPushes;
      GetCompletionQueueOperationBases();
      ghost var reaped, reapedTrace := View(), trace;
      Gap(Loop);
      GetRemoteQueueOperationBases();
      ghost var swapped, swappedTrace := View(), trace;
      Gap(Loop);
      ExecutePendingLocal();
      EmptiedOnTheWay(old(trace), old(View()), reapedTrace, reaped, trace, View());
      EmptiedOnTheWay(old(trace), old(View()), swappedTrace, swapped, trace, View());
    }

    /** One round of `run`.  Unless it blocks, everything that was pushed or completed before the round
        has been executed at its end. */
    method RunRound() returns (blocked: bool)
      requires Valid() && pc == Head && Loop !in owing
      modifies this
      ensures Valid() && old(trace) <= trace && Runs(old(View()), trace[|old(trace)|..], View())
      ensures blocked ==> pc == Waiting && completionQueue == [] && others == []
      ensures rounds == old(rounds) + 1
      ensures !blocked ==>
                && pc == Head && Loop !in owing
                && old(pushed) <= RemotePart(executed) && old(completed) <= CompletionPart(executed)
    {
      hide Runs, RemotePart, CompletionPart, Remotes, Count, LoopPushes;
      PreparePollIfNeeded();
      Gap(Loop);
      blocked := SubmitAndWait();
      if !blocked {
        Gap(Loop);
        GrownSince(old(trace), old(View()), trace, View());
        Process();
      }
      RunsSuffix(INITIAL, old(trace), old(View()), trace, View());
    }

    /** `run`, until the token has let it through that many times.  If it blocks with work queued, somebody
        else is about to wake it: the poll can fire, or a producer owes its write. */
    method Run(times: nat) returns (blocked: bool)
      requires Valid() && pc == Head && Loop !in owing
      modifies this
      ensures Valid() && old(trace) <= trace && Runs(old(View()), trace[|old(trace)|..], View())
      ensures blocked ==> pc == Waiting && completionQueue == [] && others == []
      ensures blocked && remoteQueue != [] ==> (pollRequest == Armed && eventfd > 0) || owing != {}
      ensures !blocked ==> rounds == old(rounds) + times
      ensures !blocked && times > 0 ==>
                old(pushed) <= RemotePart(executed) && old(completed) <= CompletionPart(executed)
    {
      hide Runs, RemotePart, CompletionPart, Remotes, Count, LoopPushes;
      blocked := false;
      var round := 0;
      while round < times && !blocked
        invariant Valid() && old(trace) <= trace && round <= times && rounds == old(rounds) + round
        invariant if blocked then pc == Waiting && completionQueue == [] && others == []
                  else pc == Head && Loop !in owing
        invariant !blocked && round > 0 ==>
                    old(pushed) <= RemotePart(executed) && old(completed) <= CompletionPart(executed)
        decreases times - round
      {
        ghost var before, beforeTrace := View(), trace;
        blocked := RunRound();
        GrownSince(old(trace), old(View()), beforeTrace, before);
        round := round + 1;
      }
      RunsSuffix(INITIAL, old(trace), old(View()), trace, View());
      if blocked {
        NoLostWakeup(View());
      }
    }
  }

  lemma GrownSince(t0: seq<Action>, s0: State, t1: seq<Action>, s1: State)
    requires Runs(INITIAL, t0, s0) && Runs(INITIAL, t1, s1) && t0 <= t1
    ensures s0.pushed <= s1.pushed && s0.completed <= s1.completed
  {
    ReachableInv(s0);
    RunsSuffix(INITIAL, t0, s0, t1, s1);
    HistoryGrows(s0, t1[|t0|..], s1);
  }
}
