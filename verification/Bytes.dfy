/** Bytes, byte strings cut into fragments, and the first-match scan that the parsers share. */
module Bytes {
  type Byte = b: int | 0 <= b < 256 witness 0

  const HT: Byte := 9
  const LF: Byte := 10
  const CR: Byte := 13
  const SP: Byte := 32

  /** Sizes and lengths are 64-bit. */
  const SIZE_MODULUS: nat := 0x1_0000_0000_0000_0000

  /** The stream that a sequence of fragments carries. */
  function Concat<T>(parts: seq<seq<T>>): seq<T> {
    if parts == [] then [] else parts[0] + Concat(parts[1..])
  }

  lemma {:induction false} ConcatAppend<T>(a: seq<seq<T>>, b: seq<seq<T>>)
    ensures Concat(a + b) == Concat(a) + Concat(b)
  {
    if a == [] {
      assert a + b == b;
    } else {
      assert (a + b)[1..] == a[1..] + b;
      ConcatAppend(a[1..], b);
    }
  }

  lemma ConcatSnoc<T>(a: seq<seq<T>>, x: seq<T>)
    ensures Concat(a + [x]) == Concat(a) + x
  {
    ConcatAppend(a, [x]);
    assert Concat([x]) == x + Concat([]) == x;
  }

  lemma Assoc<T>(a: seq<T>, b: seq<T>, c: seq<T>)
    ensures (a + b) + c == a + (b + c)
  {
  }

  /** The first position from `i` on whose byte satisfies `p`, or the end. */
  function Find(s: seq<Byte>, i: nat, p: Byte -> bool): (j: nat)
    requires i <= |s|
    ensures i <= j <= |s|
    ensures forall k :: i <= k < j ==> !p(s[k])
    ensures j < |s| ==> p(s[j])
    decreases |s| - i
  {
    if i == |s| || p(s[i]) then i else Find(s, i + 1, p)
  }

  lemma {:induction false} FindIs(s: seq<Byte>, i: nat, p: Byte -> bool, j: nat)
    requires i <= j <= |s| && (forall k :: i <= k < j ==> !p(s[k])) && (j < |s| ==> p(s[j]))
    ensures Find(s, i, p) == j
  {
    var f := Find(s, i, p);
  }

  /** A match found does not move when bytes are appended. */
  lemma FindExtend(s: seq<Byte>, t: seq<Byte>, i: nat, p: Byte -> bool)
    requires i <= |s| && Find(s, i, p) < |s|
    ensures Find(s + t, i, p) == Find(s, i, p)
  {
    FindIs(s + t, i, p, Find(s, i, p));
  }
}
