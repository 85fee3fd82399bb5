/**
 Sending and receiving whole buffer sequences: each completion commits what the kernel moved and
 resubmits the rest until everything has been moved, an error occurs, or the kernel reports zero.
 */
module Transfers {
  import opened Bytes
  import opened BufferSequences

  /** Why an operation ended. */
  datatype Status = Pending | Filled | Zero | Failed(code: nat)

  datatype Op = Op(iov: seq<IoVec>, transferred: nat, status: Status)

  function Start(iov: seq<IoVec>): Op {
    Op(iov, 0, Pending)
  }

  /** `update_result`, common to both directions; `res` is the kernel's result. */
  function UpdateResult(op: Op, res: int): Op {
    if res < 0 then op.(status := Failed(-res))
    else if res == 0 then op.(status := Zero)
    else
      var rest := CommitSeq(op.iov, res);
      op.(iov := rest, transferred := op.transferred + res, status := if rest == [] then Filled else Pending)
  }

  /** The caller's view of a finished operation: an error, if any, and the bytes transferred. */
  datatype Result = Result(error: Error, bytes: nat)
  datatype Error = NoError | Eof | Errno(code: nat)

  function RecvResult(op: Op): Result {
    Result(match op.status case Zero => Eof case Failed(code) => Errno(code) case _ => NoError, op.transferred)
  }

  function SendResult(op: Op): Result {
    Result(match op.status case Failed(code) => Errno(code) case _ => NoError, op.transferred)
  }

  // ----- One operation against any kernel -----

  function Rest(op: Op): seq<nat> {
    View(op.iov)
  }

  /** The kernel's results are in range: an error, zero, or part of what remains. */
  ghost predicate InRange(op: Op, res: int) {
    res <= |Rest(op)|
  }

  /** An operation on `iov` has moved a prefix of the bytes.  An empty last buffer stays in front of it
      for good; otherwise it is at the end of its buffers, and so filled, exactly when no byte remains. */
  ghost predicate OpInv(op: Op, iov: seq<IoVec>) {
    && op.transferred <= |View(iov)|
    && Rest(op) == View(iov)[op.transferred..]
    && (LastNonEmpty(op.iov) <==> LastNonEmpty(iov))
    && (op.iov == [] <==> Rest(op) == [] && LastNonEmpty(iov))
    && (op.status == Filled <==> op.iov == [] && iov != [])
  }

  /** Buffers that an operation can fill: there is one, and the last is not empty. */
  predicate Fillable(iov: seq<IoVec>) {
    iov != [] && LastNonEmpty(iov)
  }

  /** A completion moves the prefix forward by what the kernel moved; when it resubmits, strictly
      fewer bytes remain. */
  lemma UpdateStep(op: Op, iov: seq<IoVec>, res: int)
    requires OpInv(op, iov) && op.status == Pending && InRange(op, res)
    ensures OpInv(UpdateResult(op, res), iov)
    ensures var op' := UpdateResult(op, res);
            && op'.transferred == op.transferred + (if res > 0 then res else 0)
            && (op'.status == Pending ==> |Rest(op')| < |Rest(op)| && (LastNonEmpty(iov) ==> Rest(op') != []))
            && (op'.status == Filled <==> res > 0 && Fillable(iov) && op'.transferred == |View(iov)|)
            && (op'.status == Zero <==> res == 0) && (op'.status.Failed? <==> res < 0)
            && (res < 0 ==> op'.status == Failed(-res))
  {
    if res > 0 {
      CommitDrops(op.iov, res);
      if LastNonEmpty(iov) {
        CommitReachesEnd(op.iov, res);
      } else {
        CommitKeepsLastEmpty(op.iov, res);
      }
      assert View(iov)[op.transferred..][res..] == View(iov)[op.transferred + res..];
    }
  }

  lemma OpCounts(op: Op, iov: seq<IoVec>)
    requires OpInv(op, iov)
    ensures op.transferred <= |View(iov)| && |Rest(op)| == |View(iov)| - op.transferred
    ensures op.status == Filled <==> Fillable(iov) && op.transferred == |View(iov)|
  {
  }

  lemma StartInv(iov: seq<IoVec>)
    ensures OpInv(Start(iov), iov)
  {
    if Fillable(iov) {
      NonEmptyView(iov);
    }
    assert View(iov)[0..] == View(iov);
  }

  /** One operation against a list of kernel results, each cut down to what is left to move. */
  function Play(op: Op, results: seq<int>): Op
    decreases results
  {
    if op.status != Pending || results == [] then op
    else
      var most := |Rest(op)|;
      Play(UpdateResult(op, if results[0] <= most then results[0] else most), results[1..])
  }

  /** What a list of kernel results moves before the first that is zero or an error. */
  function Moved(results: seq<int>): nat {
    if results == [] || results[0] <= 0 then 0 else results[0] + Moved(results[1..])
  }

  /** The status that this first zero or error gives; a list without one leaves the request pending. */
  function Stop(results: seq<int>): Status {
    if results == [] then Pending
    else if results[0] < 0 then Failed(-results[0])
    else if results[0] == 0 then Zero
    else Stop(results[1..])
  }

  /** It transfers the sum of the results up to the first zero or error, and no more than the buffers
      hold.  It ends as filled exactly when that sum reaches the size of buffers that can be filled;
      while the sum is below, the first zero or error decides. */
  lemma {:induction false} PlayMoves(op: Op, iov: seq<IoVec>, results: seq<int>)
    requires OpInv(op, iov) && op.status == Pending
    ensures var end, sum := Play(op, results), op.transferred + Moved(results);
            && OpInv(end, iov)
            && end.transferred == (if sum < |View(iov)| then sum else |View(iov)|)
            && (end.status == Filled <==> Fillable(iov) && sum >= |View(iov)|)
            && (sum < |View(iov)| ==> end.status == Stop(results))
    decreases results
  {
    hide OpInv, UpdateResult, View, Fillable;
    OpCounts(op, iov);
    if results != [] {
      var most := |Rest(op)|;
      var res := if results[0] <= most then results[0] else most;
      UpdateStep(op, iov, res);
      var next := UpdateResult(op, res);
      OpCounts(next, iov);
      if next.status == Pending {
        PlayMoves(next, iov, results[1..]);
      }
    }
  }

  /** Filling, for every buffer sequence and every kernel: an operation ends as filled if and only if the
      buffers can be filled and the kernel moves as many bytes as they hold. */
  lemma FillsIff(iov: seq<IoVec>, results: seq<int>)
    ensures Play(Start(iov), results).status == Filled <==> Fillable(iov) && Moved(results) >= |View(iov)|
  {
    StartInv(iov);
    PlayMoves(Start(iov), iov, results);
  }

  /** A receive that is over reports no error if and only if it could fill its buffers and did.  With
      an empty last buffer, or none, the best end is end of file after all bytes have arrived. */
  lemma RecvErrorFreeIff(iov: seq<IoVec>, results: seq<int>)
    requires Play(Start(iov), results).status != Pending
    ensures var r := RecvResult(Play(Start(iov), results));
            && (r.error == NoError <==> Fillable(iov) && Moved(results) >= |View(iov)|)
            && (Moved(results) >= |View(iov)| ==> r.bytes == |View(iov)|)
  {
    StartInv(iov);
    PlayMoves(Start(iov), iov, results);
  }

  function Sum(results: seq<int>): int {
    if results == [] then 0 else results[0] + Sum(results[1..])
  }

  /** The first result that is not positive. */
  ghost predicate StopsAt(results: seq<int>, k: nat) {
    k < |results| && results[k] <= 0 && forall i :: 0 <= i < k ==> results[i] > 0
  }

  lemma {:induction false} StopIs(results: seq<int>, k: nat)
    requires StopsAt(results, k)
    ensures Stop(results) == (if results[k] == 0 then Zero else Failed(-results[k]))
    ensures Moved(results) == Sum(results[..k])
    decreases k
  {
    if k > 0 {
      assert results[0] > 0 && results[..k][1..] == results[1..][..k - 1];
      StopIs(results[1..], k - 1);
    }
  }

  /** What is reported of an operation that is stopped before all bytes are moved: the bytes moved until then
      and the kernel's error number; a zero is end of file for a receive and nothing for a send. */
  lemma ReportsTheStop(iov: seq<IoVec>, results: seq<int>, k: nat)
    requires StopsAt(results, k) && Sum(results[..k]) < |View(iov)|
    ensures Sum(results[..k]) >= 0
    ensures var op, moved := Play(Start(iov), results), Sum(results[..k]);
            && op.status != Pending
            && RecvResult(op) == Result(if results[k] == 0 then Eof else Errno(-results[k]), moved)
            && SendResult(op) == Result(if results[k] == 0 then NoError else Errno(-results[k]), moved)
  {
    StopIs(results, k);
    StartInv(iov);
    PlayMoves(Start(iov), iov, results);
  }

  /** Two bytes and an empty buffer behind them: both bytes arrive, and the receive reports end of file
      all the same.  So does a receive into a single empty buffer. */
  lemma TrailingEmptyBuffer()
    ensures RecvResult(Play(Start([IoVec(0, 2), IoVec(2, 0)]), [1, 1, 1])) == Result(Eof, 2)
    ensures RecvResult(Play(Start([IoVec(0, 0)]), [1])) == Result(Eof, 0)
  {
    var two, one, none := [IoVec(0, 2), IoVec(2, 0)], [IoVec(1, 1), IoVec(2, 0)], [IoVec(2, 0)];
    assert two[1..] == one[1..] == none && none[1..] == [];
    assert [1, 1, 1][1..] == [1, 1] && [1, 1][1..] == [1];
    var rest := Op(none, 2, Pending);
    assert UpdateResult(Start(two), 1) == Op(one, 1, Pending);
    assert UpdateResult(Op(one, 1, Pending), 1) == rest;
    assert [IoVec(0, 0)][1..] == [];
  }

  /** Unlike a receive, a send that the kernel ends with zero reports no error: an error-free send that is
      over is complete if and only if the kernel moved all of its bytes. */
  lemma SendCompleteIff(iov: seq<IoVec>, results: seq<int>)
    requires Play(Start(iov), results).status != Pending && SendResult(Play(Start(iov), results)).error == NoError
    ensures SendResult(Play(Start(iov), results)).bytes == |View(iov)| <==> Moved(results) >= |View(iov)|
  {
    StartInv(iov);
    PlayMoves(Start(iov), iov, results);
  }

  /** And it is silently cut short if and only if the kernel's first result that is not positive is zero
      and comes before all bytes have been moved. */
  lemma SendCutShortIff(iov: seq<IoVec>, results: seq<int>)
    ensures var op := Play(Start(iov), results);
            op.status != Pending && SendResult(op).error == NoError && SendResult(op).bytes < |View(iov)| <==>
            Stop(results) == Zero && Moved(results) < |View(iov)|
  {
    StartInv(iov);
    PlayMoves(Start(iov), iov, results);
  }

  /** One of two bytes sent, then zero: an error-free result of one. */
  lemma SendCutShort()
    ensures SendResult(Play(Start([IoVec(0, 2)]), [1, 0])) == Result(NoError, 1)
  {
    assert [1, 0][1..] == [0];
    assert UpdateResult(Start([IoVec(0, 2)]), 1) == Op([IoVec(1, 1)], 1, Pending);
  }

  // ----- End to end -----

  type Memory = map<nat, Byte>

  function Load(m: Memory, a: nat): Byte {
    if a in m then m[a] else 0
  }

  function Gather(m: Memory, addresses: seq<nat>): seq<Byte> {
    seq(|addresses|, i requires 0 <= i < |addresses| => Load(m, addresses[i]))
  }

  function Scatter(m: Memory, addresses: seq<nat>, bytes: seq<Byte>): Memory
    requires |addresses| == |bytes|
    decreases addresses
  {
    if addresses == [] then m else Scatter(m[addresses[0] := bytes[0]], addresses[1..], bytes[1..])
  }

  ghost predicate Distinct(addresses: seq<nat>) {
    forall i, j :: 0 <= i < j < |addresses| ==> addresses[i] != addresses[j]
  }

  lemma {:induction false} ScatterElsewhere(m: Memory, addresses: seq<nat>, bytes: seq<Byte>, a: nat)
    requires |addresses| == |bytes| && a !in addresses
    ensures Load(Scatter(m, addresses, bytes), a) == Load(m, a)
    decreases addresses
  {
    if addresses != [] {
      ScatterElsewhere(m[addresses[0] := bytes[0]], addresses[1..], bytes[1..], a);
    }
  }

  lemma {:induction false} ScatterHere(m: Memory, addresses: seq<nat>, bytes: seq<Byte>, i: nat)
    requires |addresses| == |bytes| && Distinct(addresses) && i < |addresses|
    ensures Load(Scatter(m, addresses, bytes), addresses[i]) == bytes[i]
    decreases addresses
  {
    var m' := m[addresses[0] := bytes[0]];
    if i == 0 {
      ScatterElsewhere(m', addresses[1..], bytes[1..], addresses[0]);
    } else {
      ScatterHere(m', addresses[1..], bytes[1..], i - 1);
    }
  }

  /** Writing the next stretch of a view extends what can be read back from its front. */
  lemma ScatterExtends(m: Memory, view: seq<nat>, t: nat, bytes: seq<Byte>)
    requires Distinct(view) && t + |bytes| <= |view|
    ensures var m' := Scatter(m, view[t..t + |bytes|], bytes);
            Gather(m', view[..t + |bytes|]) == Gather(m, view[..t]) + bytes
  {
    hide Scatter, Load;
    var part := view[t..t + |bytes|];
    var m' := Scatter(m, part, bytes);
    var whole, parts := Gather(m', view[..t + |bytes|]), Gather(m, view[..t]) + bytes;
    forall i | 0 <= i < t + |bytes|
      ensures whole[i] == parts[i]
    {
      if i < t {
        ScatterElsewhere(m, part, bytes, view[i]);
      } else {
        ScatterHere(m, part, bytes, i - t);
        assert part[i - t] == view[i];
      }
    }
  }

  /** A sender, a receiver, the bytes under way between them, and the receiver's memory. */
  datatype System = System(sender: Op, receiver: Op, wire: seq<Byte>, memory: Memory)

  datatype Event = Sent(k: nat) | SendEnds(res: int) | Received(k: nat) | RecvEnds(res: int)

  /** What a kernel may do: move any positive number of bytes that are there, or end an operation
      with zero or an error, at any time. */
  predicate Enabled(s: System, e: Event) {
    match e
    case Sent(k) => s.sender.status == Pending && 0 < k <= |Rest(s.sender)|
    case SendEnds(res) => s.sender.status == Pending && res <= 0
    case Received(k) => s.receiver.status == Pending && 0 < k <= |Rest(s.receiver)| && k <= |s.wire|
    case RecvEnds(res) => s.receiver.status == Pending && res <= 0
  }

  /** `source` is the sender's memory, which does not change during the transfer. */
  function Apply(s: System, e: Event, source: Memory): System
    requires Enabled(s, e)
  {
    match e
    case Sent(k) =>
      s.(sender := UpdateResult(s.sender, k), wire := s.wire + Gather(source, Rest(s.sender)[..k]))
    case SendEnds(res) => s.(sender := UpdateResult(s.sender, res))
    case Received(k) =>
      s.(receiver := UpdateResult(s.receiver, k), wire := s.wire[k..],
         memory := Scatter(s.memory, Rest(s.receiver)[..k], s.wire[..k]))
    case RecvEnds(res) => s.(receiver := UpdateResult(s.receiver, res))
  }

  ghost predicate Runs(s: System, events: seq<Event>, source: Memory, s': System)
    decreases events
  {
    if events == [] then s == s'
    else Enabled(s, events[0]) && Runs(Apply(s, events[0], source), events[1..], source, s')
  }

  function Begin(sendIov: seq<IoVec>, recvIov: seq<IoVec>, memory: Memory): System {
    System(Start(sendIov), Start(recvIov), [], memory)
  }

  /** The bytes sent so far are those received so far and those under way. */
  ghost predicate Inv(s: System, sendIov: seq<IoVec>, recvIov: seq<IoVec>, source: Memory) {
    && OpInv(s.sender, sendIov) && OpInv(s.receiver, recvIov) && Distinct(View(recvIov))
    && Gather(source, View(sendIov))[..s.sender.transferred] ==
       Gather(s.memory, View(recvIov)[..s.receiver.transferred]) + s.wire
  }

  lemma SentStep(s: System, k: nat, sendIov: seq<IoVec>, recvIov: seq<IoVec>, source: Memory)
    requires Inv(s, sendIov, recvIov, source) && Enabled(s, Sent(k))
    ensures Inv(Apply(s, Sent(k), source), sendIov, recvIov, source)
  {
    hide UpdateResult, View, Load;
    UpdateStep(s.sender, sendIov, k);
    var data, t := Gather(source, View(sendIov)), s.sender.transferred;
    assert Gather(source, Rest(s.sender)[..k]) == data[t..t + k];
    assert data[..t + k] == data[..t] + data[t..t + k];
    Assoc(Gather(s.memory, View(recvIov)[..s.receiver.transferred]), s.wire, data[t..t + k]);
  }

  lemma ReceivedStep(s: System, k: nat, sendIov: seq<IoVec>, recvIov: seq<IoVec>, source: Memory)
    requires Inv(s, sendIov, recvIov, source) && Enabled(s, Received(k))
    ensures Inv(Apply(s, Received(k), source), sendIov, recvIov, source)
  {
    hide UpdateResult, View, Scatter, Load;
    UpdateStep(s.receiver, recvIov, k);
    var view, t := View(recvIov), s.receiver.transferred;
    assert Rest(s.receiver)[..k] == view[t..t + k];
    ScatterExtends(s.memory, view, t, s.wire[..k]);
    assert s.wire == s.wire[..k] + s.wire[k..];
    Assoc(Gather(s.memory, view[..t]), s.wire[..k], s.wire[k..]);
  }

  lemma InvStep(s: System, e: Event, sendIov: seq<IoVec>, recvIov: seq<IoVec>, source: Memory)
    requires Inv(s, sendIov, recvIov, source) && Enabled(s, e)
    ensures Inv(Apply(s, e, source), sendIov, recvIov, source)
  {
    match e
    case Sent(k) => SentStep(s, k, sendIov, recvIov, source);
    case Received(k) => ReceivedStep(s, k, sendIov, recvIov, source);
    case SendEnds(res) => UpdateStep(s.sender, sendIov, res);
    case RecvEnds(res) => UpdateStep(s.receiver, recvIov, res);
  }

  lemma {:induction false} InvRun(s: System, events: seq<Event>, sendIov: seq<IoVec>, recvIov: seq<IoVec>,
                                  source: Memory, s': System)
    requires Inv(s, sendIov, recvIov, source) && Runs(s, events, source, s')
    ensures Inv(s', sendIov, recvIov, source)
    decreases events
  {
    if events != [] {
      InvStep(s, events[0], sendIov, recvIov, source);
      InvRun(Apply(s, events[0], source), events[1..], sendIov, recvIov, source, s');
    }
  }

  /** Whatever the two partitions into buffers and whatever the kernel's partial counts: the receiver
      holds a prefix of the sender's bytes as long as its count says, and an error-free end of
      a receive leaves all the bytes it asked for. */
  lemma EndToEnd(sendIov: seq<IoVec>, recvIov: seq<IoVec>, source: Memory, memory: Memory, events: seq<Event>,
                 s: System)
    requires Distinct(View(recvIov))
    requires Runs(Begin(sendIov, recvIov, memory), events, source, s)
    ensures s.receiver.transferred <= s.sender.transferred <= |View(sendIov)|
    ensures s.receiver.transferred <= |View(recvIov)|
    ensures Gather(s.memory, View(recvIov)[..s.receiver.transferred]) ==
            Gather(source, View(sendIov))[..s.receiver.transferred]
    ensures s.receiver.status != Pending && RecvResult(s.receiver).error == NoError ==>
              && RecvResult(s.receiver).bytes == |View(recvIov)|
              && Gather(s.memory, View(recvIov)) == Gather(source, View(sendIov))[..|View(recvIov)|]
    ensures s.sender.status == Filled <==> Fillable(sendIov) && s.sender.transferred == |View(sendIov)|
    ensures s.receiver.status == Filled <==> Fillable(recvIov) && s.receiver.transferred == |View(recvIov)|
  {
    hide Runs, View, Load, OpInv;
    InvBegin(sendIov, recvIov, source, memory);
    InvRun(Begin(sendIov, recvIov, memory), events, sendIov, recvIov, source, s);
    OpCounts(s.sender, sendIov);
    OpCounts(s.receiver, recvIov);
    ReceivedPrefix(Gather(source, View(sendIov)), s.sender.transferred,
                   Gather(s.memory, View(recvIov)[..s.receiver.transferred]), s.wire);
    assert View(recvIov)[..|View(recvIov)|] == View(recvIov);
  }

  lemma ReceivedPrefix(data: seq<Byte>, sent: nat, got: seq<Byte>, wire: seq<Byte>)
    requires sent <= |data| && data[..sent] == got + wire
    ensures |got| <= sent && got == data[..|got|]
  {
    assert got == (got + wire)[..|got|];
  }

  lemma InvBegin(sendIov: seq<IoVec>, recvIov: seq<IoVec>, source: Memory, memory: Memory)
    requires Distinct(View(recvIov))
    ensures Inv(Begin(sendIov, recvIov, memory), sendIov, recvIov, source)
  {
    StartInv(sendIov);
    StartInv(recvIov);
    assert Gather(source, View(sendIov))[..0] == Gather(memory, View(recvIov)[..0]) + [];
  }

  // ----- Every undisturbed transfer completes -----

  ghost predicate Undisturbed(events: seq<Event>) {
    forall i :: 0 <= i < |events| ==> events[i].Sent? || events[i].Received?
  }

  function BytesLeft(s: System): nat {
    |Rest(s.sender)| + |Rest(s.receiver)|
  }

  ghost predicate Healthy(op: Op) {
    op.status == Pending || op.status == Filled
  }

  lemma MoveStep(s: System, e: Event, sendIov: seq<IoVec>, recvIov: seq<IoVec>, source: Memory)
    requires Inv(s, sendIov, recvIov, source) && Enabled(s, e) && (e.Sent? || e.Received?)
    requires Healthy(s.sender) && Healthy(s.receiver)
    ensures var s' := Apply(s, e, source);
            Healthy(s'.sender) && Healthy(s'.receiver) && BytesLeft(s') + 1 <= BytesLeft(s)
  {
    hide UpdateResult, View;
    if e.Sent? {
      UpdateStep(s.sender, sendIov, e.k);
      OpCounts(s.sender, sendIov);
      OpCounts(UpdateResult(s.sender, e.k), sendIov);
    } else {
      UpdateStep(s.receiver, recvIov, e.k);
      OpCounts(s.receiver, recvIov);
      OpCounts(UpdateResult(s.receiver, e.k), recvIov);
    }
  }

  lemma {:induction false} MovesAreBounded(s: System, events: seq<Event>, sendIov: seq<IoVec>, recvIov: seq<IoVec>,
                                           source: Memory, s': System)
    requires Inv(s, sendIov, recvIov, source) && Runs(s, events, source, s') && Undisturbed(events)
    requires Healthy(s.sender) && Healthy(s.receiver)
    ensures Healthy(s'.sender) && Healthy(s'.receiver) && |events| + BytesLeft(s') <= BytesLeft(s)
    decreases events
  {
    hide Inv, Healthy, BytesLeft, Apply, Enabled;
    if events != [] {
      assert events[0].Sent? || events[0].Received?;
      InvStep(s, events[0], sendIov, recvIov, source);
      MoveStep(s, events[0], sendIov, recvIov, source);
      MovesAreBounded(Apply(s, events[0], source), events[1..], sendIov, recvIov, source, s');
    }
  }

  /** When the kernel ends nothing early, every transfer between buffers that can be filled takes at most
      one step per byte and side, whatever its partial counts; and when it can move nothing more, the
      whole receive has completed without an error, or the sender has nothing left to send. */
  lemma EveryTransferCompletes(sendIov: seq<IoVec>, recvIov: seq<IoVec>, source: Memory, memory: Memory,
                               events: seq<Event>, s: System)
    requires Distinct(View(recvIov)) && Fillable(sendIov) && Fillable(recvIov) && Undisturbed(events)
    requires Runs(Begin(sendIov, recvIov, memory), events, source, s)
    ensures |events| <= |View(sendIov)| + |View(recvIov)|
    ensures (forall k :: !Enabled(s, Sent(k))) && (forall k :: !Enabled(s, Received(k))) ==>
              && s.sender.status == Filled
              && (|View(recvIov)| <= |View(sendIov)| ==>
                    && RecvResult(s.receiver) == Result(NoError, |View(recvIov)|)
                    && Gather(s.memory, View(recvIov)) == Gather(source, View(sendIov))[..|View(recvIov)|])
  {
    hide View, Scatter, Runs, OpInv, Load;
    var s0 := Begin(sendIov, recvIov, memory);
    InvBegin(sendIov, recvIov, source, memory);
    InvRun(s0, events, sendIov, recvIov, source, s);
    MovesAreBounded(s0, events, sendIov, recvIov, source, s);
    OpCounts(s0.sender, sendIov);
    OpCounts(s0.receiver, recvIov);
    OpCounts(s.sender, sendIov);
    OpCounts(s.receiver, recvIov);
    EndToEnd(sendIov, recvIov, source, memory, events, s);
    if (forall k :: !Enabled(s, Sent(k))) && (forall k :: !Enabled(s, Received(k))) {
      assert !Enabled(s, Sent(1)) && !Enabled(s, Received(1));
    }
  }

  /** The kernel may move any part of what is there, and may end either side at any time; the side it ends
      reports how, and nothing else changes. */
  lemma KernelMayDoAnything(s: System, k: nat, res: int, source: Memory)
    requires res <= 0
    ensures s.sender.status == Pending && 0 < k <= |Rest(s.sender)| ==> Enabled(s, Sent(k))
    ensures s.receiver.status == Pending && 0 < k <= |Rest(s.receiver)| && k <= |s.wire| ==> Enabled(s, Received(k))
    ensures s.sender.status == Pending ==>
              && Enabled(s, SendEnds(res))
              && Apply(s, SendEnds(res), source) ==
                 s.(sender := s.sender.(status := if res == 0 then Zero else Failed(-res)))
    ensures s.receiver.status == Pending ==>
              && Enabled(s, RecvEnds(res))
              && Apply(s, RecvEnds(res), source) ==
                 s.(receiver := s.receiver.(status := if res == 0 then Zero else Failed(-res)))
  {
  }

  // ----- The code -----

  /** The operation object: its buffers, its count, and whether a request is outstanding. */
  class AsyncMessage {
    const buffers: BufferSequence
    var bytesTransferred: nat
    var status: Status

    ghost predicate Valid()
      reads this, buffers
    {
      buffers.Valid()
    }

    ghost function AsOp(): Op
      requires Valid()
      reads this, buffers, buffers.storage
    {
      Op(buffers.Remaining(), bytesTransferred, status)
    }

    constructor (iov: seq<IoVec>)
      ensures Valid() && AsOp() == Start(iov) && fresh(buffers) && fresh(buffers.storage)
    {
      buffers := new BufferSequence(iov);
      bytesTransferred, status := 0, Pending;
    }

    /** The completion callback; `true` when the request was submitted again. */
    method OnCompleted(res: int) returns (resubmitted: bool)
      requires Valid() && status == Pending
      modifies this, buffers, buffers.storage
      ensures Valid() && AsOp() == UpdateResult(old(AsOp()), res)
      ensures resubmitted <==> status == Pending
    {
      if res < 0 {
        status := Failed(-res);
      } else if res == 0 {
        status := Zero;
      } else {
        bytesTransferred := bytesTransferred + res;
        buffers.Commit(res);
        var isNull, _ := buffers.GetIovSpan();
        if isNull {
          status := Filled;
        }
      }
      resubmitted := status == Pending;
    }
  }

  /** The object against such a list: its count never exceeds the buffers' size, so it fits an `int`
      when that does. */
  method Drive(iov: seq<IoVec>, results: seq<int>) returns (status: Status, bytes: nat)
    requires |View(iov)| <= 0x7fff_ffff
    ensures bytes == (if Moved(results) < |View(iov)| then Moved(results) else |View(iov)|) <= 0x7fff_ffff
    ensures status == Filled <==> Fillable(iov) && Moved(results) >= |View(iov)|
    ensures status == Play(Start(iov), results).status
  {
    hide UpdateResult, View, Moved;
    StartInv(iov);
    PlayMoves(Start(iov), iov, results);
    var op := new AsyncMessage(iov);
    var used := 0;
    assert results[0..] == results;
    while op.status == Pending && used < |results|
      invariant op.Valid() && fresh(op) && fresh(op.buffers) && fresh(op.buffers.storage)
      invariant used <= |results| && Play(op.AsOp(), results[used..]) == Play(Start(iov), results)
      decreases |results| - used
    {
      assert results[used..][0] == results[used] && results[used..][1..] == results[used + 1..];
      var most := |View(op.buffers.storage[op.buffers.position..])|;
      var _ := op.OnCompleted(if results[used] <= most then results[used] else most);
      used := used + 1;
    }
    assert results[|results|..] == [];
    status, bytes := op.status, op.bytesTransferred;
  }
}
