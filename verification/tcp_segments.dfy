/**
 * Sequence numbers and segments shared by the two halves of a TCP connection.
 *
 * The protocol is specified over unbounded sequence numbers.  The control block of TcpPcb keeps
 * only their 32-bit images, and compares those the way the C macros do; the lemmas here say when
 * the two comparisons agree.
 */
module Segments {

  type byte = bv8

  const U16 := 0x1_0000
  const U32 := 0x1_0000_0000
  const HALF := 0x8000_0000

  /** The 32-bit image of an unbounded sequence number. */
  function W(x: int): (w: int)
    ensures 0 <= w < U32
  {
    x % U32
  }

  /** TCP_SEQ_LT: the unsigned difference read as a signed 32-bit number is negative. */
  predicate SeqLt(a: int, b: int) {
    (a - b) % U32 >= HALF
  }

  /** TCP_SEQ_LEQ: the difference read as a signed 32-bit number is not positive. */
  predicate SeqLeq(a: int, b: int) {
    (a - b) % U32 >= HALF || (a - b) % U32 == 0
  }

  /** TCP_SEQ_GEQ: the difference read as a signed 32-bit number is not negative. */
  predicate SeqGeq(a: int, b: int) {
    (a - b) % U32 < HALF
  }

  /** TCP_SEQ_GT: the difference read as a signed 32-bit number is positive. */
  predicate SeqGt(a: int, b: int) {
    0 < (a - b) % U32 < HALF
  }

  /** Two numbers closer than half the number space. */
  predicate Near(a: int, b: int) {
    -HALF < a - b < HALF
  }

  /** Whole turns do not change the image. */
  lemma WholeTurns(x: int, k: int)
    ensures W(x + U32 * k) == W(x)
  {
    var y := x + U32 * k;
    assert y == U32 * (x / U32 + k) + x % U32;
  }

  /** Images may be taken before or after adding and subtracting. */
  lemma WireDifference(a: int, b: int)
    ensures (W(a) - W(b)) % U32 == (a - b) % U32
    ensures W(W(a) - W(b)) == W(a - b)
    ensures W(W(a) + b) == W(a + b)
    ensures W(W(a) - b) == W(a - b)
  {
    WholeTurns(a - b, b / U32 - a / U32);
    WholeTurns(a + b, -(a / U32));
    WholeTurns(a - b, -(a / U32));
  }

  lemma WireSmall(x: int)
    requires 0 <= x < U32
    ensures W(x) == x
  {
  }

  /** On 32-bit images the circular comparisons and equality are the comparisons of the unbounded
      numbers, as long as these are less than half the number space apart. */
  lemma WireComparisons(a: int, b: int)
    requires Near(a, b)
    ensures SeqLt(W(a), W(b)) <==> a < b
    ensures SeqLeq(W(a), W(b)) <==> a <= b
    ensures SeqGeq(W(a), W(b)) <==> a >= b
    ensures SeqGt(W(a), W(b)) <==> a > b
    ensures W(a) == W(b) <==> a == b
  {
    WireDifference(a, b);
    if a < b {
      assert (a - b) % U32 == a - b + U32;
    }
  }

  /** In general the circular comparison tells whether the difference is an odd number of half turns and a part,
      so that it is right if and only if that is the same as being negative. */
  lemma WireOrderExactly(a: int, b: int)
    ensures SeqLt(W(a), W(b)) <==> (a - b) / HALF % 2 == 1
    ensures (SeqLt(W(a), W(b)) <==> a < b) <==> ((a - b) / HALF % 2 == 1 <==> a - b < 0)
  {
    WireDifference(a, b);
    HalfTurns(a - b);
  }

  lemma HalfTurns(d: int)
    ensures d % U32 >= HALF <==> d / HALF % 2 == 1
  {
    var k := d / U32;
    assert d == U32 * k + d % U32 && U32 * k == HALF * (2 * k);
    if d % U32 >= HALF {
      assert d / HALF == 2 * k + 1;
    } else {
      assert d / HALF == 2 * k;
    }
  }

  /** Half the number space apart the circular order is no order: either number is below the other. */
  lemma WireComparisonsFarApart(a: int)
    ensures SeqLt(W(a), W(a + HALF)) && SeqLt(W(a + HALF), W(a))
  {
    WireDifference(a, a + HALF);
    WireDifference(a + HALF, a);
  }

  /** A received or queued segment: its first sequence number, its length field and its payload.
      The length field is redundant while the segment is sound. */
  datatype Seg = Seg(seqno: int, len: nat, data: seq<byte>) {
    function End(): int { seqno + len }

    predicate Sound() { 0 < len == |data| < U16 }

    /** The segment is a piece of the byte stream whose first byte has number isn. */
    ghost predicate SliceOf(stream: seq<byte>, isn: int) {
      && Sound()
      && isn <= seqno
      && End() - isn <= |stream|
      && data == stream[seqno - isn..End() - isn]
    }
  }

  /** A segment as it arrives: tcp_input takes its length from the chain, which counts in 16 bits. */
  type Packet = s: Seg | s.len == |s.data| < U16 witness Seg(0, 0, [])

  /** pbuf_realloc on a flattened chain: it can only shrink. */
  function Shrink(data: seq<byte>, n: nat): seq<byte> {
    if n >= |data| then data else data[..n]
  }

  /** Cutting the tail of a segment: the new length is stored in 16 bits. */
  function CutTail(s: Seg, n: int): Seg {
    s.(len := n % U16, data := Shrink(s.data, n % U16))
  }
}
