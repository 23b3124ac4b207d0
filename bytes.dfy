/**
 * Bytes of a configuration value, the blank characters folding breaks at,
 * and the concatenation of a list of fragments.
 */
module Bytes {

  newtype byte = b: int | 0 <= b < 256

  /** A physical-line fragment: exactly its bytes, its length is its size. */
  type Fragment = seq<byte>

  const SPACE: byte := 32
  const TAB: byte := 9

  /** The characters the folding engine may break a line at. */
  predicate IsBlank(b: byte) {
    b == SPACE || b == TAB
  }

  /** All fragments, in order, with nothing between them. */
  function Concat(lines: seq<Fragment>): seq<byte> {
    if lines == [] then [] else lines[0] + Concat(lines[1..])
  }

  /** Concatenation distributes over joining two lists of fragments. */
  lemma {:induction false} ConcatJoin(a: seq<Fragment>, b: seq<Fragment>)
    ensures Concat(a + b) == Concat(a) + Concat(b)
  {
    if a == [] {
      assert a + b == b;
    } else {
      assert (a + b)[1..] == a[1..] + b;
      ConcatJoin(a[1..], b);
    }
  }

  /** Appending one fragment appends its bytes. */
  lemma ConcatSnoc(a: seq<Fragment>, x: Fragment)
    ensures Concat(a + [x]) == Concat(a) + x
  {
    ConcatJoin(a, [x]);
    assert Concat([x]) == x + Concat([]);
  }

  /** Appending bytes is associative. */
  lemma AppendAssoc(a: seq<byte>, b: seq<byte>, c: seq<byte>)
    ensures (a + b) + c == a + (b + c)
  {
  }

  /** The concatenation is exactly as long as all fragments together. */
  function TotalLength(lines: seq<Fragment>): nat {
    if lines == [] then 0 else |lines[0]| + TotalLength(lines[1..])
  }

  lemma {:induction false} ConcatLength(lines: seq<Fragment>)
    ensures |Concat(lines)| == TotalLength(lines)
  {
    if lines != [] {
      ConcatLength(lines[1..]);
    }
  }
}
