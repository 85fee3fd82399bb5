/**
 A sequence of buffers that is consumed from the front: `commit` advances an iterator over the array
 of I/O vectors and shortens the vector it stops in.
 */
module BufferSequences {
  import opened Bytes

  /** A buffer: its first address and its length. */
  datatype IoVec = IoVec(base: nat, len: nat)

  function Span(v: IoVec): seq<nat> {
    seq(v.len, i requires 0 <= i => v.base + i)
  }

  /** The addresses of all bytes, in order. */
  function View(iov: seq<IoVec>): seq<nat> {
    if iov == [] then [] else Span(iov[0]) + View(iov[1..])
  }

  function Total(iov: seq<IoVec>): nat {
    if iov == [] then 0 else iov[0].len + Total(iov[1..])
  }

  /** Byte `i` of buffer `k` comes behind all bytes of the buffers before it, and is at that buffer's
      address `i`. */
  lemma {:induction false} ViewAt(iov: seq<IoVec>, k: nat, i: nat)
    requires k < |iov| && i < iov[k].len
    ensures |View(iov)| == Total(iov) && Total(iov[..k]) + i < Total(iov)
    ensures View(iov)[Total(iov[..k]) + i] == iov[k].base + i
    decreases k
  {
    ViewLength(iov);
    ViewLength(iov[1..]);
    if k == 0 {
      assert iov[..0] == [];
    } else {
      assert iov[..k][0] == iov[0] && iov[..k][1..] == iov[1..][..k - 1];
      ViewAt(iov[1..], k - 1, i);
    }
  }

  lemma {:induction false} ViewLength(iov: seq<IoVec>)
    ensures |View(iov)| == Total(iov)
  {
    if iov != [] {
      ViewLength(iov[1..]);
    }
  }

  function Drop<T>(s: seq<T>, n: nat): seq<T> {
    if n <= |s| then s[n..] else []
  }

  /** What `commit` leaves. */
  function CommitSeq(iov: seq<IoVec>, n: nat): seq<IoVec>
    decreases iov
  {
    if n == 0 || iov == [] then iov
    else if n >= iov[0].len then CommitSeq(iov[1..], n - iov[0].len)
    else [IoVec(iov[0].base + n, iov[0].len - n)] + iov[1..]
  }

  /** Committing bytes drops them from the front of the view, however the buffers are cut. */
  lemma {:induction false} CommitDrops(iov: seq<IoVec>, n: nat)
    ensures View(CommitSeq(iov, n)) == Drop(View(iov), n)
    decreases iov
  {
    if n != 0 && iov != [] {
      var v, rest := iov[0], iov[1..];
      if n >= v.len {
        CommitDrops(rest, n - v.len);
        if n <= |View(iov)| {
          assert View(iov)[n..] == View(rest)[n - v.len..];
        }
      } else {
        assert Span(v)[n..] == Span(IoVec(v.base + n, v.len - n));
        assert View(iov)[n..] == Span(v)[n..] + View(rest);
        assert CommitSeq(iov, n)[1..] == rest;
      }
    }
  }

  /** Two commits are one commit of the sum: not only the same bytes remain, but the same vectors. */
  lemma {:induction false} CommitTwice(iov: seq<IoVec>, a: nat, b: nat)
    ensures CommitSeq(CommitSeq(iov, a), b) == CommitSeq(iov, a + b)
    decreases iov
  {
    if a != 0 && b != 0 && iov != [] {
      var v, rest := iov[0], iov[1..];
      if a >= v.len {
        CommitTwice(rest, a - v.len, b);
      } else {
        var cut := CommitSeq(iov, a);
        assert cut[0] == IoVec(v.base + a, v.len - a) && cut[1..] == rest;
      }
    }
  }

  // ----- When the iterator reaches the end -----

  predicate LastNonEmpty(iov: seq<IoVec>) {
    iov != [] ==> iov[|iov| - 1].len > 0
  }

  /** If the last buffer is not empty, this stays so, and the iterator is at the end exactly when no
      byte remains. */
  lemma {:induction false} CommitReachesEnd(iov: seq<IoVec>, n: nat)
    requires LastNonEmpty(iov)
    ensures LastNonEmpty(CommitSeq(iov, n))
    ensures CommitSeq(iov, n) == [] <==> View(CommitSeq(iov, n)) == []
    decreases iov
  {
    if iov == [] {
    } else if n == 0 || n < iov[0].len {
      NonEmptyView(CommitSeq(iov, n));
    } else {
      CommitReachesEnd(iov[1..], n - iov[0].len);
    }
  }

  lemma {:induction false} NonEmptyView(iov: seq<IoVec>)
    requires LastNonEmpty(iov) && iov != []
    ensures View(iov) != []
  {
    if |iov| == 1 {
      assert Span(iov[0])[0] == iov[0].base;
    } else {
      NonEmptyView(iov[1..]);
    }
  }

  /** An empty last buffer is never passed, however the bytes before it are committed. */
  lemma {:induction false} CommitKeepsLastEmpty(iov: seq<IoVec>, n: nat)
    requires !LastNonEmpty(iov) && n <= |View(iov)|
    ensures !LastNonEmpty(CommitSeq(iov, n))
    decreases iov
  {
    if n != 0 && n >= iov[0].len {
      assert |iov| > 1;
      CommitKeepsLastEmpty(iov[1..], n - iov[0].len);
    }
  }

  /** After exactly the bytes of a non-empty sequence have been committed, the iterator is at the end
      if and only if the last buffer was not empty. */
  lemma EndsExactlyIff(iov: seq<IoVec>)
    requires iov != []
    ensures CommitSeq(iov, |View(iov)|) == [] <==> LastNonEmpty(iov)
  {
    CommitDrops(iov, |View(iov)|);
    if LastNonEmpty(iov) {
      CommitReachesEnd(iov, |View(iov)|);
    } else {
      CommitKeepsLastEmpty(iov, |View(iov)|);
    }
  }

  // ----- The code -----

  class BufferSequence {
    const storage: array<IoVec>
    var position: nat

    ghost predicate Valid()
      reads this
    {
      position <= storage.Length
    }

    ghost function Remaining(): seq<IoVec>
      requires Valid()
      reads this, storage
    {
      storage[position..]
    }

    constructor (iov: seq<IoVec>)
      ensures Valid() && Remaining() == iov && fresh(storage)
    {
      storage := new IoVec[|iov|](i requires 0 <= i < |iov| => iov[i]);
      position := 0;
    }

    /** The position of the first vector still in use and how many there are, or nothing. */
    method GetIovSpan() returns (isNull: bool, count: nat)
      requires Valid()
      ensures isNull <==> Remaining() == []
      ensures count == |Remaining()|
    {
      isNull := position == storage.Length;
      count := storage.Length - position;
    }

    method Commit(n: nat)
      requires Valid()
      modifies this, storage
      ensures Valid() && Remaining() == CommitSeq(old(Remaining()), n)
      ensures View(Remaining()) == Drop(old(View(Remaining())), n)
      ensures old(position) <= position && storage[..old(position)] == old(storage[..position])
    {
      var len: nat := n;
      ghost var goal := CommitSeq(Remaining(), n);
      while len > 0 && position != storage.Length
        invariant Valid() && old(position) <= position
        invariant storage[..old(position)] == old(storage[..position])
        invariant CommitSeq(Remaining(), len) == goal
        decreases len, storage.Length - position
      {
        var v := storage[position];
        ghost var now := Remaining();
        assert now[0] == v && now[1..] == storage[position + 1..];
        if len >= v.len {
          len := len - v.len;
          position := position + 1;
        } else {
          storage[position] := IoVec(v.base + len, v.len - len);
          assert Remaining() == [IoVec(v.base + len, v.len - len)] + now[1..];
          len := 0;
        }
      }
      CommitDrops(old(Remaining()), n);
    }
  }
}
