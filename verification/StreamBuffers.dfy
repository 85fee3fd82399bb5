/**
 The stream buffer: a vector with a get and a put position that shifts its contents down and grows
 when room is needed, and that behaves as a plain byte queue.
 */
module StreamBuffers {
  import opened Bytes

  const DELTA: nat := 128
  const EOF: int := -1

  function Max(a: nat, b: nat): nat {
    if a < b then b else a
  }

  function Min(a: nat, b: nat): nat {
    if a < b then a else b
  }

  function Zeros(n: nat): seq<Byte> {
    seq(n, _ => 0)
  }

  // ----- The queue -----

  /** The readable bytes, and the vector's bytes before and behind them. */
  datatype Fifo = Fifo(before: seq<Byte>, bytes: seq<Byte>, behind: seq<Byte>) {
    function Capacity(): nat {
      |before| + |bytes| + |behind|
    }
  }

  const EMPTY: Fifo := Fifo([], [], Zeros(DELTA))

  /** Moving the readable bytes to the front leaves the rest of the vector as it was. */
  function Reserve(f: Fifo, n: nat): Fifo {
    if n == 0 || |f.behind| >= n then f
    else
      var rest := (f.before + f.bytes + f.behind)[|f.bytes|..];
      Fifo([], f.bytes, rest + Zeros(if n > |rest| then n - |rest| else 0))
  }

  /** A client's operations: prepare room for `n` bytes and write some into it, commit, consume, put one
      character, look at the next one. */
  datatype Op = Prepare(n: nat, written: seq<Byte>) | Commit(n: nat) | Consume(n: nat) | Put(c: Byte) | Peek

  /** A client writes into the span it was given. */
  predicate ValidOp(op: Op) {
    op.Prepare? ==> |op.written| <= op.n
  }

  /** The argument of the `reserve` call that an operation makes, if it makes one. */
  function Reserved(f: Fifo, op: Op): nat {
    match op
    case Prepare(n, _) => n
    case Put(_) => if f.behind == [] then DELTA else 0
    case _ => 0
  }

  function Overwrite(s: seq<Byte>, front: seq<Byte>): seq<Byte> {
    front + s[Min(|front|, |s|)..]
  }

  /** What an operation makes readable, and how much it takes away. */
  function Added(f: Fifo, op: Op): seq<Byte> {
    match op
    case Commit(n) => f.behind[..Min(n, |f.behind|)]
    case Put(c) => [c]
    case _ => []
  }

  function Taken(f: Fifo, op: Op): nat {
    if op.Consume? then Min(op.n, |f.bytes|) else 0
  }

  function Step(f: Fifo, op: Op): Fifo {
    var g := Reserve(f, Reserved(f, op));
    match op
    case Prepare(_, written) => g.(behind := Overwrite(g.behind, written))
    case Commit(n) => g.(bytes := g.bytes + Added(f, op), behind := g.behind[Min(n, |g.behind|)..])
    case Consume(_) =>
      Fifo(g.before + g.bytes[..Min(op.n, |g.bytes|)], g.bytes[Min(op.n, |g.bytes|)..], g.behind)
    case Put(c) => g.(bytes := g.bytes + [c], behind := g.behind[Min(1, |g.behind|)..])
    case Peek => g
  }

  function RunOps(f: Fifo, ops: seq<Op>): Fifo
    decreases ops
  {
    if ops == [] then f else RunOps(Step(f, ops[0]), ops[1..])
  }

  ghost predicate ValidOps(ops: seq<Op>) {
    forall i :: 0 <= i < |ops| ==> ValidOp(ops[i])
  }

  /** Room is found by shifting when that is enough, and by growing to exactly what is needed. */
  lemma ReserveMakesRoom(f: Fifo, n: nat)
    ensures var g := Reserve(f, n);
            && g.bytes == f.bytes && |g.behind| >= n && g.Capacity() == Max(f.Capacity(), |f.bytes| + n)
            && (|f.behind| >= n ==> g == f)
  {
  }

  lemma StepFacts(f: Fifo, op: Op)
    requires ValidOp(op)
    ensures var g := Step(f, op);
            && g.bytes == (f.bytes + Added(f, op))[Taken(f, op)..]
            && g.Capacity() == Max(f.Capacity(), |f.bytes| + Reserved(f, op))
  {
    ReserveMakesRoom(f, Reserved(f, op));
  }

  lemma StepAppend(f: Fifo, n: nat, bytes: seq<Byte>)
    requires |bytes| <= n
    ensures var g := Step(Step(f, Prepare(n, bytes)), Commit(|bytes|));
            g.bytes == f.bytes + bytes && g.Capacity() == Max(f.Capacity(), |f.bytes| + n)
  {
    hide Reserve;
    ReserveMakesRoom(f, n);
    var g := Step(f, Prepare(n, bytes));
    ReserveMakesRoom(g, 0);
    assert g.behind[..|bytes|] == bytes;
    StepFacts(f, Prepare(n, bytes));
    StepFacts(g, Commit(|bytes|));
  }

  /** Consuming more than there is consumes everything. */
  lemma StepConsume(f: Fifo, n: nat)
    ensures Step(f, Consume(n)).bytes == if n <= |f.bytes| then f.bytes[n..] else []
    ensures Step(f, Consume(n)).Capacity() == f.Capacity()
  {
  }

  /** Committing more than there is room for commits all of the room. */
  lemma StepCommit(f: Fifo, n: nat)
    ensures Step(f, Commit(n)).bytes == f.bytes + (if n <= |f.behind| then f.behind[..n] else f.behind)
    ensures Step(f, Commit(n)).Capacity() == f.Capacity()
  {
    assert f.behind[..|f.behind|] == f.behind;
  }

  /** A character that finds no room gets a stretch of 128 bytes made behind the readable ones. */
  lemma StepPut(f: Fifo, c: Byte)
    ensures Step(f, Put(c)).bytes == f.bytes + [c]
    ensures Step(f, Put(c)).Capacity() == if f.behind != [] then f.Capacity() else Max(f.Capacity(), |f.bytes| + 128)
  {
    ReserveMakesRoom(f, DELTA);
  }

  /** Preparing and looking leave the readable bytes alone; the vector grows exactly to what is asked for. */
  lemma StepPrepare(f: Fifo, n: nat, written: seq<Byte>)
    requires |written| <= n
    ensures var g := Step(f, Prepare(n, written));
            && g.bytes == f.bytes && written <= g.behind && n <= |g.behind|
            && g.Capacity() == Max(f.Capacity(), |f.bytes| + n)
    ensures Step(f, Peek) == f
  {
    ReserveMakesRoom(f, n);
  }

  // ----- Whole runs -----

  function AddedBy(f: Fifo, ops: seq<Op>): seq<Byte>
    decreases ops
  {
    if ops == [] then [] else Added(f, ops[0]) + AddedBy(Step(f, ops[0]), ops[1..])
  }

  function TakenBy(f: Fifo, ops: seq<Op>): nat
    decreases ops
  {
    if ops == [] then 0 else Taken(f, ops[0]) + TakenBy(Step(f, ops[0]), ops[1..])
  }

  /** The largest number of live bytes plus bytes asked for, over all `reserve` calls of a run. */
  function LargestDemand(f: Fifo, ops: seq<Op>): nat
    decreases ops
  {
    if ops == [] then 0
    else
      Max(if Reserved(f, ops[0]) == 0 then 0 else |f.bytes| + Reserved(f, ops[0]),
          LargestDemand(Step(f, ops[0]), ops[1..]))
  }

  /** In every run the readable bytes are those made readable minus those consumed, in order. */
  lemma {:induction false} RunIsFifo(f: Fifo, ops: seq<Op>)
    requires ValidOps(ops)
    ensures TakenBy(f, ops) <= |f.bytes + AddedBy(f, ops)|
    ensures RunOps(f, ops).bytes == (f.bytes + AddedBy(f, ops))[TakenBy(f, ops)..]
    decreases ops
  {
    hide Step, Added;
    if ops == [] {
      assert (f.bytes + [])[0..] == f.bytes;
    } else {
      var g, rest := Step(f, ops[0]), ops[1..];
      StepFacts(f, ops[0]);
      RunIsFifo(g, rest);
      Assoc(f.bytes, Added(f, ops[0]), AddedBy(g, rest));
      var all, t := f.bytes + AddedBy(f, ops), Taken(f, ops[0]);
      assert g.bytes + AddedBy(g, rest) == all[t..];
      assert all[t..][TakenBy(g, rest)..] == all[TakenBy(f, ops)..];
    }
  }

  /** In every run the vector's size is exactly the larger of its first size and the largest demand. */
  lemma {:induction false} RunCapacity(f: Fifo, ops: seq<Op>)
    requires ValidOps(ops)
    ensures RunOps(f, ops).Capacity() == Max(f.Capacity(), LargestDemand(f, ops))
    decreases ops
  {
    hide Step, Reserved;
    if ops != [] {
      StepFacts(f, ops[0]);
      RunCapacity(Step(f, ops[0]), ops[1..]);
    }
  }

  // ----- What is made readable is what was written -----

  /** The client's own record of the bytes it has written behind the put position and not committed:
      a commit uses up the first of them, a character that is put overwrites one, and a `reserve`
      that has to shift or grow drops them all. */
  function Uncommitted(f: Fifo, record: seq<Byte>, op: Op): seq<Byte> {
    match op
    case Prepare(n, written) => Overwrite(if |f.behind| >= n then record else [], written)
    case Commit(n) => record[Min(n, |record|)..]
    case Put(_) => record[Min(1, |record|)..]
    case _ => record
  }

  /** The bytes that an operation supplies according to that record. */
  function Supplied(record: seq<Byte>, op: Op): seq<Byte> {
    match op
    case Commit(n) => record[..Min(n, |record|)]
    case Put(c) => [c]
    case _ => []
  }

  function SuppliedBy(f: Fifo, record: seq<Byte>, ops: seq<Op>): seq<Byte>
    decreases ops
  {
    if ops == [] then []
    else Supplied(record, ops[0]) + SuppliedBy(Step(f, ops[0]), Uncommitted(f, record, ops[0]), ops[1..])
  }

  /** A commit is covered when all the bytes that it makes readable have been written. */
  predicate Covered(f: Fifo, record: seq<Byte>, op: Op) {
    op.Commit? ==> Min(op.n, |f.behind|) <= |record|
  }

  ghost predicate AllCovered(f: Fifo, record: seq<Byte>, ops: seq<Op>)
    decreases ops
  {
    ops != [] ==>
      && Covered(f, record, ops[0])
      && AllCovered(Step(f, ops[0]), Uncommitted(f, record, ops[0]), ops[1..])
  }

  lemma RecordIsThere(f: Fifo, record: seq<Byte>, op: Op)
    requires ValidOp(op) && record <= f.behind
    ensures Uncommitted(f, record, op) <= Step(f, op).behind
    ensures Covered(f, record, op) ==> Added(f, op) == Supplied(record, op)
  {
    if op.Prepare? {
      ReserveMakesRoom(f, op.n);
    }
  }

  /** Preparing again without a move keeps what was written before, and a new vector holds zeros. */
  lemma UnwrittenBytes(f: Fifo, record: seq<Byte>, n: nat, k: nat)
    requires n <= |f.behind| && record <= f.behind && k <= 128
    ensures Uncommitted(f, record, Prepare(n, [])) == record && Step(f, Prepare(n, [])) == f
    ensures Step(EMPTY, Commit(k)).bytes == seq(k, _ => 0)
  {
    ReserveMakesRoom(f, n);
    assert Zeros(128)[..k] == seq(k, _ => 0);
  }

  /** In every run whose commits are covered, what becomes readable is what was written for it, in order:
      commits in several parts, consumption and characters put in between change nothing about that. */
  lemma {:induction false} CommitsWhatWasWritten(f: Fifo, record: seq<Byte>, ops: seq<Op>)
    requires ValidOps(ops) && record <= f.behind && AllCovered(f, record, ops)
    ensures AddedBy(f, ops) == SuppliedBy(f, record, ops)
    decreases ops
  {
    hide Step, Added, Supplied, Uncommitted, Covered;
    if ops != [] {
      RecordIsThere(f, record, ops[0]);
      CommitsWhatWasWritten(Step(f, ops[0]), Uncommitted(f, record, ops[0]), ops[1..]);
    }
  }

  // ----- Vectors with two positions -----

  function AsFifo(v: seq<Byte>, get: nat, put: nat): Fifo
    requires get <= put <= |v|
  {
    Fifo(v[..get], v[get..put], v[put..])
  }

  /** Shifted to the front, and grown if that is not enough. */
  function Shifted(v: seq<Byte>, get: nat, put: nat): seq<Byte>
    requires get <= put <= |v|
  {
    v[get..put] + v[put - get..]
  }

  lemma NothingToDo(v: seq<Byte>, put: nat)
    requires put <= |v|
    ensures Shifted(v, 0, put) == v && v + Zeros(0) == v
  {
  }

  lemma ReservedVector(v: seq<Byte>, get: nat, put: nat, n: nat)
    requires get <= put <= |v| && n > |v| - put
    ensures var live := put - get;
            var more := if n > |v| - live then live + n - |v| else 0;
            Reserve(AsFifo(v, get, put), n) == AsFifo(Shifted(v, get, put) + Zeros(more), 0, live)
  {
    var live := put - get;
    var more := if n > |v| - live then live + n - |v| else 0;
    var w := Shifted(v, get, put) + Zeros(more);
    assert v[..get] + v[get..put] + v[put..] == v;
    assert w[live..] == v[live..] + Zeros(more) && w[0..live] == v[get..put];
  }

  lemma FilledVector(v: seq<Byte>, get: nat, put: nat, bytes: seq<Byte>)
    requires get <= put && put + |bytes| <= |v|
    ensures var f := AsFifo(v, get, put);
            AsFifo(v[..put] + Overwrite(v[put..], bytes), get, put) == f.(behind := Overwrite(f.behind, bytes))
  {
    var w := v[..put] + Overwrite(v[put..], bytes);
    assert w[..get] == v[..get] && w[get..put] == v[get..put] && w[put..] == Overwrite(v[put..], bytes);
  }

  lemma PutVector(v: seq<Byte>, get: nat, put: nat, c: Byte)
    requires get <= put < |v|
    ensures Step(AsFifo(v, get, put), Put(c)) == AsFifo(v[put := c], get, put + 1)
  {
    var w := v[put := c];
    assert w[..get] == v[..get] && w[get..put + 1] == v[get..put] + [c] && w[put + 1..] == v[put..][1..];
  }

  lemma CommittedVector(v: seq<Byte>, get: nat, put: nat, n: nat)
    requires get <= put <= |v|
    ensures Step(AsFifo(v, get, put), Commit(n)) == AsFifo(v, get, put + Min(n, |v| - put))
  {
    var k := Min(n, |v| - put);
    assert v[get..put + k] == v[get..put] + v[put..][..k] && v[put + k..] == v[put..][k..];
  }

  lemma ConsumedVector(v: seq<Byte>, get: nat, put: nat, n: nat)
    requires get <= put <= |v|
    ensures Step(AsFifo(v, get, put), Consume(n)) == AsFifo(v, get + Min(n, put - get), put)
  {
    var k := Min(n, put - get);
    assert v[get + k..put] == v[get..put][k..] && v[..get + k] == v[..get] + v[get..put][..k];
  }

  /** A character put where there is no room takes the room that `reserve` makes first. */
  lemma PutAfterReserve(f: Fifo, c: Byte)
    requires f.behind == []
    ensures Step(Reserve(f, DELTA), Put(c)) == Step(f, Put(c))
  {
    ReserveMakesRoom(f, DELTA);
  }

  // ----- The code -----

  /** The overlapping move of `n` bytes to the front of the vector. */
  method MoveToFront(a: array<Byte>, from: nat, n: nat)
    requires from + n <= a.Length
    modifies a
    ensures a[..] == Shifted(old(a[..]), from, from + n)
  {
    forall i | 0 <= i < n {
      a[i] := a[from + i];
    }
    ghost var v := Shifted(old(a[..]), from, from + n);
    assert forall i :: 0 <= i < a.Length ==> a[i] == v[i];
  }

  method CopyIn(a: array<Byte>, at: nat, bytes: seq<Byte>)
    requires at + |bytes| <= a.Length
    modifies a
    ensures a[..] == old(a[..])[..at] + Overwrite(old(a[..])[at..], bytes)
  {
    forall i | 0 <= i < |bytes| {
      a[at + i] := bytes[i];
    }
    ghost var v := old(a[..])[..at] + Overwrite(old(a[..])[at..], bytes);
    assert forall i :: 0 <= i < a.Length ==> a[i] == v[i];
  }

  class StreamBuffer {
    var buffer: array<Byte>
    var getPos: nat
    var getEnd: nat
    var putPos: nat
    var putEnd: nat

    ghost predicate Valid()
      reads this
    {
      getPos <= getEnd <= putPos <= putEnd == buffer.Length
    }

    ghost function View(): (f: Fifo)
      requires Valid()
      reads this, buffer
      ensures |f.behind| == putEnd - putPos
    {
      AsFifo(buffer[..], getPos, putPos)
    }

    constructor ()
      ensures Valid() && View() == EMPTY && fresh(buffer)
    {
      buffer := new Byte[DELTA](_ => 0);
      getPos, getEnd, putPos, putEnd := 0, 0, 0, DELTA;
      new;
      assert buffer[..] == Zeros(DELTA);
    }

    /** Shifts the contents to the front, and then grows the vector if that was not enough. */
    method ReserveRoom(n: nat)
      requires Valid()
      modifies this, buffer
      ensures Valid() && View() == Reserve(old(View()), n)
      ensures buffer == old(buffer) || fresh(buffer)
    {
      hide Reserve, Shifted, Zeros, AsFifo;
      ReserveMakesRoom(View(), n);
      if n == 0 || putEnd - putPos >= n {
        return;
      }
      ReservedVector(buffer[..], getPos, putPos, n);
      var put := putPos - getPos;
      var end := if n > putEnd - put then put + n else putEnd;
      ShiftAndGrow(put, end);
      getPos, getEnd, putPos, putEnd := 0, put, put, end;
    }

    method ShiftAndGrow(put: nat, end: nat)
      requires Valid() && put == putPos - getPos && end >= buffer.Length
      modifies this`buffer, buffer
      ensures buffer == old(buffer) || fresh(buffer)
      ensures buffer.Length == end
      ensures buffer[..] == Shifted(old(buffer[..]), getPos, putPos) + Zeros(end - old(buffer.Length))
    {
      hide Shifted, Zeros;
      NothingToDo(buffer[..], putPos);
      if getPos > 0 {
        MoveToFront(buffer, getPos, put);
      }
      NothingToDo(buffer[..], 0);
      if end > buffer.Length {
        Resize(end);
      }
    }

    /** The vector's `resize` to a larger size. */
    method Resize(size: nat)
      requires buffer.Length <= size
      modifies this`buffer
      ensures fresh(buffer) && buffer.Length == size
      ensures buffer[..] == old(buffer[..]) + Zeros(size - old(buffer.Length))
    {
      var old_ := buffer;
      buffer := new Byte[size](i requires 0 <= i < size reads old_ => if i < old_.Length then old_[i] else 0);
      assert forall i :: 0 <= i < old_.Length ==> buffer[i] == old_[i];
    }

    /** What a client, or the kernel, writes into the prepared span. */
    method Fill(bytes: seq<Byte>)
      requires Valid() && |bytes| <= putEnd - putPos
      modifies buffer
      ensures View() == old(View()).(behind := Overwrite(old(View()).behind, bytes))
    {
      FilledVector(buffer[..], getPos, putPos, bytes);
      CopyIn(buffer, putPos, bytes);
    }

    /** `prepare`, and the client's write into the span it returns. */
    method PrepareAndWrite(n: nat, bytes: seq<Byte>)
      requires Valid() && |bytes| <= n
      modifies this, buffer
      ensures Valid() && View() == Step(old(View()), Prepare(n, bytes))
      ensures buffer == old(buffer) || fresh(buffer)
    {
      hide Reserve;
      ReserveMakesRoom(View(), n);
      ReserveRoom(n);
      Fill(bytes);
    }

    /** Makes written bytes readable, at most as many as there is room for. */
    method CommitBytes(n: nat)
      requires Valid()
      modifies this
      ensures Valid() && View() == Step(old(View()), Commit(n)) && buffer == old(buffer) && getPos == old(getPos)
    {
      hide Step;
      CommittedVector(buffer[..], getPos, putPos, n);
      var k := if n < putEnd - putPos then n else putEnd - putPos;
      putPos := putPos + k;
      getEnd := putPos;
    }

    /** A read: `prepare`, a write of what arrives, and `commit` of that. */
    method AppendBytes(n: nat, bytes: seq<Byte>)
      requires Valid() && |bytes| <= n
      modifies this, buffer
      ensures Valid() && View() == Step(Step(old(View()), Prepare(n, bytes)), Commit(|bytes|))
      ensures buffer == old(buffer) || fresh(buffer)
    {
      hide Step;
      PrepareAndWrite(n, bytes);
      CommitBytes(|bytes|);
    }

    method ConsumeBytes(n: nat)
      requires Valid()
      modifies this
      ensures Valid() && View() == Step(old(View()), Consume(n)) && buffer == old(buffer)
    {
      hide Step;
      ConsumedVector(buffer[..], getPos, putPos, n);
      if getEnd < putPos {
        getEnd := putPos;
      }
      var k := if putPos < getPos + n then putPos - getPos else n;
      getPos := getPos + k;
    }

    /** `overflow` for a character, or for end of file, which changes nothing and is answered by
        another value. */
    method Overflow(c: int) returns (r: int)
      requires Valid() && (c == EOF || 0 <= c < 256)
      modifies this, buffer
      ensures Valid() && View() == (if c == EOF then old(View()) else Step(old(View()), Put(c)))
      ensures r != EOF && (c != EOF ==> r == c)
      ensures buffer == old(buffer) || fresh(buffer)
    {
      if c == EOF {
        return 0;
      }
      hide Reserve, Step, AsFifo;
      if putPos == putEnd {
        PutAfterReserve(View(), c);
        ReserveMakesRoom(View(), DELTA);
        ReserveRoom(DELTA);
      }
      StoreAndBump(c);
      return c;
    }

    method StoreAndBump(c: Byte)
      requires Valid() && putPos < putEnd
      modifies this`putPos, buffer
      ensures Valid() && View() == Step(old(View()), Put(c))
    {
      hide Reserve, Step;
      PutVector(buffer[..], getPos, putPos, c);
      buffer[putPos] := c;
      putPos := putPos + 1;
      assert buffer[..] == old(buffer[..])[putPos - 1 := c];
    }

    /** `underflow`: the next character, if there is one. */
    method Underflow() returns (c: int)
      requires Valid()
      modifies this`getEnd
      ensures Valid() && View() == Step(old(View()), Peek)
      ensures c == if View().bytes == [] then EOF else View().bytes[0]
    {
      if getPos < putPos {
        getEnd := putPos;
        return buffer[getPos];
      }
      return EOF;
    }
  }

  /** Any sequence of operations on a new buffer leaves the queue's bytes and the predicted size. */
  method Replay(ops: seq<Op>) returns (data: seq<Byte>, size: nat)
    requires ValidOps(ops)
    ensures TakenBy(EMPTY, ops) <= |AddedBy(EMPTY, ops)| && data == AddedBy(EMPTY, ops)[TakenBy(EMPTY, ops)..]
    ensures AllCovered(EMPTY, [], ops) ==> AddedBy(EMPTY, ops) == SuppliedBy(EMPTY, [], ops)
    ensures size == Max(128, LargestDemand(EMPTY, ops))
  {
    hide Step, AllCovered;
    var sb := new StreamBuffer();
    ghost var goal := RunOps(EMPTY, ops);
    assert ops[0..] == ops;
    for k := 0 to |ops|
      invariant sb.Valid() && fresh(sb) && fresh(sb.buffer)
      invariant RunOps(sb.View(), ops[k..]) == goal
    {
      assert ops[k..][0] == ops[k] && ops[k..][1..] == ops[k + 1..];
      match ops[k]
      case Prepare(n, written) => sb.PrepareAndWrite(n, written);
      case Commit(n) => sb.CommitBytes(n);
      case Consume(n) => sb.ConsumeBytes(n);
      case Put(c) => var _ := sb.Overflow(c);
      case Peek => var _ := sb.Underflow();
    }
    data, size := sb.buffer[sb.getPos..sb.putPos], sb.buffer.Length;
    RunIsFifo(EMPTY, ops);
    RunCapacity(EMPTY, ops);
    assert [] + AddedBy(EMPTY, ops) == AddedBy(EMPTY, ops);
    if AllCovered(EMPTY, [], ops) {
      CommitsWhatWasWritten(EMPTY, [], ops);
    }
  }
}
