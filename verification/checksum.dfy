/**
 * The Internet checksum of inet.c on a little-endian machine: the sum of 16-bit words in one buffer,
 * the sum over a chain of buffers that may be cut at odd places, and the field that a sender fills and
 * a receiver checks.
 */
module Checksum {
  import opened Bytes

  const ONES := 0xffff

  /** The sum of the little-endian words of a buffer; an odd byte at the end is a low byte. */
  function Sum(s: seq<u8>): nat {
    if s == [] then 0 else if |s| == 1 then s[0] else Word(s[0], s[1]) + Sum(s[2..])
  }

  /** The representative of a one's complement sum: 0 only for 0 itself, else from 1 to 65535. */
  function Norm(x: nat): u16 {
    if x == 0 then 0 else (x - 1) % ONES + 1
  }

  /** The bytes of a word the other way around. */
  function Swap(x: u16): u16 {
    (x % 0x100) * 0x100 + x / 0x100
  }

  /** x and y are the same one's complement sum. */
  predicate Same(x: nat, y: nat) {
    (x == 0 <==> y == 0) && x % ONES == y % ONES
  }

  /** What inet_chksum computes for a single buffer. */
  function Chksum(s: seq<u8>): u16 {
    ONES - Norm(Sum(s))
  }

  /** The words of the pseudo header, as they lie in memory. */
  function PseudoSum(src: u32, dest: u32, proto: u8, len: u16): nat {
    src % 0x1_0000 + src / 0x1_0000 + dest % 0x1_0000 + dest / 0x1_0000 + Swap(proto) + Swap(len)
  }

  /** What inet_chksum_pseudo computes for data in a single buffer. */
  function PseudoChksum(s: seq<u8>, src: u32, dest: u32, proto: u8, len: u16): u16 {
    ONES - Norm(Sum(s) + PseudoSum(src, dest, proto, len))
  }

  // ---------------------------------------------------------------------------------------------
  // One's complement arithmetic

  lemma SumBound(s: seq<u8>)
    ensures 2 * Sum(s) <= ONES * (|s| + 1)
  {
  }

  lemma ModShift(x: int, k: int)
    ensures (x + ONES * k) % ONES == x % ONES
  {
  }

  lemma SameNorm(x: nat, y: nat)
    requires Same(x, y)
    ensures Norm(x) == Norm(y)
  {
    if x > 0 {
      var k := x / ONES - y / ONES;
      assert x - 1 == (y - 1) + ONES * k;
      ModShift(y - 1, k);
    }
  }

  lemma NormSame(x: nat)
    ensures Same(Norm(x), x)
    ensures x <= ONES ==> Norm(x) == x
  {
    if x > 0 {
      var k := (x - 1) / ONES;
      assert x == Norm(x) + ONES * k;
      ModShift(Norm(x), k);
    }
  }

  lemma FoldSame(x: nat)
    ensures Same(x % 0x1_0000 + x / 0x1_0000, x)
  {
    assert x == (x % 0x1_0000 + x / 0x1_0000) + ONES * (x / 0x1_0000);
    ModShift(x % 0x1_0000 + x / 0x1_0000, x / 0x1_0000);
  }

  lemma SameTrans(x: nat, y: nat, z: nat)
    requires Same(x, y) && Same(y, z)
    ensures Same(x, z)
  {
  }

  /** A folded sum is the representative. */
  lemma FoldedIsNorm(a: nat, x: nat)
    requires Same(a, x) && a <= ONES
    ensures Norm(x) == a
  {
    SameNorm(a, x);
    NormSame(a);
  }

  lemma SameAdd(x: nat, y: nat, z: nat)
    requires Same(x, y)
    ensures Same(x + z, y + z)
  {
    var k := x / ONES - y / ONES;
    assert x + z == (y + z) + ONES * k;
    ModShift(y + z, k);
  }

  lemma SameTimes(x: nat, y: nat)
    requires Same(x, y)
    ensures Same(0x100 * x, 0x100 * y)
  {
    var k := x / ONES - y / ONES;
    assert 0x100 * x == 0x100 * y + ONES * (0x100 * k);
    ModShift(0x100 * y, 0x100 * k);
  }

  /** Swapping the bytes of a word multiplies it by 256. */
  lemma SwapSame(x: u16)
    ensures Same(Swap(x), 0x100 * x)
  {
    var hi, lo := x / 0x100, x % 0x100;
    assert 0x100 * x == (lo * 0x100 + hi) + ONES * hi;
    ModShift(lo * 0x100 + hi, hi);
  }

  lemma TwiceSame(x: nat)
    ensures Same(0x100 * (0x100 * x), x)
  {
    assert 0x1_0000 * x == x + ONES * x;
    ModShift(x, x);
  }

  // ---------------------------------------------------------------------------------------------
  // Cutting

  /** What s adds to a sum when it follows an odd or an even number of bytes. */
  function Shifted(s: seq<u8>, odd: bool): nat {
    if odd then 0x100 * Sum(s) else Sum(s)
  }

  /** A byte in front swaps the bytes of the sum. */
  lemma {:induction false} SumBehindByte(b: u8, s: seq<u8>)
    ensures Same(Sum([b] + s), (b as int) + 0x100 * Sum(s))
    decreases |s|
  {
    if s == [] {
      assert [b] + s == [b];
    } else if |s| == 1 {
      assert ([b] + s)[2..] == [];
    } else {
      assert ([b] + s)[2..] == [s[1]] + s[2..];
      SumBehindByte(s[1], s[2..]);
      SumBehindWord(b, s[0], s[1], Sum(s[2..]), Sum([s[1]] + s[2..]));
    }
  }

  lemma SumBehindWord(b: u8, b0: u8, b1: u8, rest: nat, shifted: nat)
    requires Same(shifted, (b1 as int) + 0x100 * rest)
    ensures Same(Word(b, b0) + shifted, (b as int) + 0x100 * (Word(b0, b1) + rest))
  {
    var x := Word(b, b0);
    SameAdd(shifted, (b1 as int) + 0x100 * rest, x);
    ByteCarry(x + 0x100 * rest, b1);
  }

  lemma ByteCarry(x: nat, y: nat)
    ensures Same(x + y, x + 0x1_0000 * y)
  {
    assert x + 0x1_0000 * y == (x + y) + ONES * y;
    ModShift(x + y, y);
  }

  lemma SumShort(a: seq<u8>)
    ensures |a| == 0 ==> Sum(a) == 0
    ensures |a| == 1 ==> Sum(a) == a[0] as int
  {
  }

  /** The sum of two pieces put together, for a first piece of even or odd length. */
  lemma {:induction false} SumConcat(a: seq<u8>, b: seq<u8>)
    ensures Same(Sum(a + b), Sum(a) + Shifted(b, |a| % 2 == 1))
    decreases |a|
  {
    hide Same;
    hide Shifted;
    hide Sum;
    hide Word;
    SumShort(a);
    ShiftedIs(b);
    if a == [] {
      assert a + b == b;
      SameRefl(Sum(b));
    } else if |a| == 1 {
      assert a + b == [a[0]] + b;
      SumBehindByte(a[0], b);
    } else {
      SumFront(a);
      SumFront(a + b);
      assert (a + b)[2..] == a[2..] + b;
      SumConcat(a[2..], b);
      SameAdd(Sum(a[2..] + b), Sum(a[2..]) + Shifted(b, |a| % 2 == 1), Word(a[0], a[1]));
    }
  }

  lemma SumFront(s: seq<u8>)
    requires |s| >= 2
    ensures Sum(s) == Word(s[0], s[1]) + Sum(s[2..])
  {
  }

  lemma ShiftedIs(s: seq<u8>)
    ensures Shifted(s, true) == 0x100 * Sum(s) && Shifted(s, false) == Sum(s)
  {
  }

  lemma SameRefl(x: nat)
    ensures Same(x, x)
  {
  }

  // ---------------------------------------------------------------------------------------------
  // The computations

  lemma LowByte(x: u8)
    ensures Swap(Word(0, x)) == x
  {
  }

  /** lwip_chksum. */
  method LwipChksum(s: seq<u8>) returns (r: u16)
    requires |s| <= ONES
    ensures r == Norm(Sum(s))
  {
    hide Same;
    hide Norm;
    hide Sum;
    hide Word;
    hide Swap;
    SumBound(s);
    assert s[0..] == s;
    var acc: u32 := 0;
    var p := 0;
    while |s| - p > 1
      invariant 0 <= p <= |s|
      invariant acc + Sum(s[p..]) == Sum(s)
    {
      assert s[p..][2..] == s[p + 2..];
      SumFront(s[p..]);
      acc := acc + Word(s[p], s[p + 1]);
      p := p + 2;
    }
    SumShort(s[p..]);
    if |s| - p == 1 {
      LowByte(s[p]);
      acc := acc + Swap(Word(0, s[p]));
    }
    assert acc == Sum(s);
    FoldSame(acc);
    acc := acc / 0x1_0000 + acc % 0x1_0000;
    if acc / 0x1_0000 != 0 {
      FoldSame(acc);
      SameTrans(acc / 0x1_0000 + acc % 0x1_0000, acc, Sum(s));
      acc := acc / 0x1_0000 + acc % 0x1_0000;
    }
    FoldedIsNorm(acc, Sum(s));
    r := acc;
  }

  /** The fold that is repeated until the carry is gone. */
  method Fold(x: u32) returns (acc: u16)
    ensures acc == Norm(x)
  {
    var a: u32 := x;
    while a / 0x1_0000 != 0
      invariant Same(a, x)
      decreases a
    {
      FoldSame(a);
      a := a % 0x1_0000 + a / 0x1_0000;
    }
    SameNorm(a, x);
    NormSame(a);
    acc := a;
  }

  /** inet_chksum. */
  method InetChksum(s: seq<u8>) returns (r: u16)
    requires |s| <= ONES
    ensures r == Chksum(s)
  {
    r := LwipChksum(s);
    r := Fold(r);
    NormSame(Sum(s));
    NormSame(Norm(Sum(s)));
    r := ONES - r;
  }

  /** The running sum over the pieces so far, in the byte order it is kept in. */
  lemma PieceStep(done: seq<u8>, piece: seq<u8>, acc: u16)
    requires Same(acc, Shifted(done, |done| % 2 == 1))
    ensures Same(acc + Norm(Sum(piece)), Shifted(done + piece, |done| % 2 == 1))
  {
    hide Norm;
    hide Sum;
    var odd := |done| % 2 == 1;
    SumConcat(done, piece);
    NormSame(Sum(piece));
    SameAdd(Norm(Sum(piece)), Sum(piece), acc);
    if odd {
      SameAdd(acc, 0x100 * Sum(done), Sum(piece));
      SameTimes(Sum(done + piece), Sum(done) + 0x100 * Sum(piece));
      TwiceSame(Sum(piece));
      SameAdd(0x100 * (0x100 * Sum(piece)), Sum(piece), 0x100 * Sum(done));
    } else {
      SameAdd(acc, Sum(done), Sum(piece));
    }
  }

  /** Swapping after an odd piece. */
  lemma SwapStep(acc: u16, s: seq<u8>, odd: bool)
    requires Same(acc, Shifted(s, odd))
    ensures Same(Swap(acc), Shifted(s, !odd))
  {
    hide Sum;
    SwapSame(acc);
    SameTimes(acc, Shifted(s, odd));
    TwiceSame(Sum(s));
  }

  /** acc is the sum of the bytes so far, with its bytes swapped after an odd number of them. */
  ghost predicate SumSoFar(acc: nat, done: seq<u8>, swapped: bool) {
    swapped == (|done| % 2 == 1) && Same(acc, Shifted(done, swapped))
  }

  lemma NothingSummed(chain: seq<seq<u8>>)
    ensures SumSoFar(0, Flatten(chain[..0]), false)
  {
  }

  /** One more piece: its checksum is added and folded, and swapped if it is of odd length. */
  lemma NextPiece(acc: u16, done: seq<u8>, piece: seq<u8>, swapped: bool, part: u16, x: u16)
    requires SumSoFar(acc, done, swapped) && part == Norm(Sum(piece)) && x == Norm(acc + part)
    ensures |piece| % 2 != 0 ==> SumSoFar(Swap(x), done + piece, !swapped)
    ensures |piece| % 2 == 0 ==> SumSoFar(x, done + piece, swapped)
  {
    hide Same;
    hide Norm;
    hide Sum;
    hide Swap;
    hide Shifted;
    PieceStep(done, piece, acc);
    NormSame(acc + part);
    SameTrans(x, acc + part, Shifted(done + piece, swapped));
    if |piece| % 2 != 0 {
      SwapStep(x, done + piece, swapped);
    }
  }

  /** The sum of everything. */
  lemma AllSummed(acc: u16, done: seq<u8>, swapped: bool)
    requires SumSoFar(acc, done, swapped)
    ensures Same(if swapped then Swap(acc) else acc, Sum(done))
  {
    hide Same;
    hide Sum;
    hide Swap;
    ShiftedIs(done);
    if swapped {
      SwapStep(acc, done, swapped);
    }
  }

  /** inet_chksum_pseudo.  However the data is cut into pieces, of odd or even length, the result is that
      for the same data in one buffer. */
  method InetChksumPseudo(chain: seq<seq<u8>>, src: u32, dest: u32, proto: u8, len: u16) returns (r: u16)
    requires forall piece <- chain :: |piece| <= ONES
    ensures r == PseudoChksum(Flatten(chain), src, dest, proto, len)
  {
    hide SumSoFar;
    hide Same;
    hide Norm;
    hide Sum;
    hide Flatten;
    hide Swap;
    var acc: u32 := 0;
    var swapped := false;
    var k := 0;
    NothingSummed(chain);
    while k < |chain|
      invariant k <= |chain| && acc <= ONES
      invariant SumSoFar(acc, Flatten(chain[..k]), swapped)
    {
      assert chain[..k + 1] == chain[..k] + [chain[k]];
      FlattenAppend(chain[..k], chain[k]);
      assert chain[k] in chain;
      var part := LwipChksum(chain[k]);
      ghost var before := acc;
      acc := Fold(acc + part);
      NextPiece(before, Flatten(chain[..k]), chain[k], swapped, part, acc);
      if |chain[k]| % 2 != 0 {
        swapped := !swapped;
        acc := Swap(acc);
      }
      k := k + 1;
    }
    assert chain[..k] == chain;
    ghost var sum := Sum(Flatten(chain));
    AllSummed(acc, Flatten(chain), swapped);
    if swapped {
      acc := Swap(acc);
    }
    SameAdd(acc, sum, PseudoSum(src, dest, proto, len));
    SameNorm(acc + PseudoSum(src, dest, proto, len), sum + PseudoSum(src, dest, proto, len));
    acc := acc + src % 0x1_0000;
    acc := acc + src / 0x1_0000;
    acc := acc + dest % 0x1_0000;
    acc := acc + dest / 0x1_0000;
    acc := acc + Swap(proto);
    acc := acc + Swap(len);
    acc := Fold(acc);
    r := ONES - acc;
  }

  // ---------------------------------------------------------------------------------------------
  // Filling and checking

  /** The word at an even offset. */
  function WordAt(s: seq<u8>, k: nat): u16
    requires k + 1 < |s|
  {
    Word(s[k], s[k + 1])
  }

  /** A word stored in the machine's byte order. */
  function Store(s: seq<u8>, k: nat, w: u16): (r: seq<u8>)
    requires k + 1 < |s|
    ensures |r| == |s| && WordAt(r, k) == w
  {
    s[k := w % 0x100][k + 1 := w / 0x100]
  }

  /** Storing a word at an even offset replaces one term of the sum. */
  lemma {:induction false} StoreSum(s: seq<u8>, k: nat, w: u16)
    requires k + 1 < |s| && k % 2 == 0
    ensures Sum(Store(s, k, w)) + WordAt(s, k) == Sum(s) + w
  {
    var r := Store(s, k, w);
    if k == 0 {
      assert r[2..] == s[2..];
    } else {
      assert r[2..] == Store(s[2..], k - 2, w);
      StoreSum(s[2..], k - 2, w);
      assert WordAt(s[2..], k - 2) == WordAt(s, k);
    }
  }

  /** A packet whose checksum field was zero and then filled checks to 0. */
  lemma FilledChecks(s: seq<u8>, k: nat, src: u32, dest: u32, proto: u8, len: u16)
    requires k + 1 < |s| && k % 2 == 0 && WordAt(s, k) == 0
    ensures PseudoChksum(Store(s, k, PseudoChksum(s, src, dest, proto, len)), src, dest, proto, len) == 0
  {
    hide Norm;
    hide Sum;
    hide Store;
    hide PseudoSum;
    StoreSum(s, k, PseudoChksum(s, src, dest, proto, len));
    Complement(Sum(s) + PseudoSum(src, dest, proto, len));
  }

  lemma Complement(x: nat)
    ensures Norm(x + (ONES - Norm(x))) == ONES
  {
    if x > 0 {
      assert x + (ONES - Norm(x)) - 1 == ONES - 1 + ONES * ((x - 1) / ONES);
      ModShift(ONES - 1, (x - 1) / ONES);
    }
  }

  /** A filled header, summed without a pseudo header. */
  lemma FilledHeaderChecks(s: seq<u8>, k: nat)
    requires k + 1 < |s| && k % 2 == 0 && WordAt(s, k) == 0
    ensures Chksum(Store(s, k, Chksum(s))) == 0
  {
    hide Norm;
    hide Sum;
    hide Store;
    StoreSum(s, k, Chksum(s));
    Complement(Sum(s));
  }

  /** When a correct packet has one word replaced, the check fails, unless the words are the two zeros of
      one's complement arithmetic. */
  lemma DamageIsSeen(s: seq<u8>, k: nat, w: u16, src: u32, dest: u32, proto: u8, len: u16)
    requires k + 1 < |s| && k % 2 == 0 && proto != 0
    requires PseudoChksum(s, src, dest, proto, len) == 0
    ensures PseudoChksum(Store(s, k, w), src, dest, proto, len) == 0 <==> w % ONES == WordAt(s, k) % ONES
  {
    hide Norm;
    hide Sum;
    hide Store;
    var p := PseudoSum(src, dest, proto, len);
    PseudoPositive(src, dest, proto, len);
    hide PseudoSum;
    StoreSum(s, k, w);
    NormIsOnes(Sum(s) + p);
    NormIsOnes(Sum(Store(s, k, w)) + p);
    ReplacedTerm(Sum(s) + p, WordAt(s, k), Sum(Store(s, k, w)) + p, w);
  }

  lemma ReplacedTerm(d: nat, x: nat, e: nat, w: nat)
    requires d % ONES == 0 && e + x == d + w
    ensures e % ONES == 0 <==> w % ONES == x % ONES
  {
    if e % ONES == 0 {
      assert x == w + ONES * (d / ONES - e / ONES);
      ModShift(w, d / ONES - e / ONES);
    }
    if w % ONES == x % ONES {
      assert e == 0 + ONES * (d / ONES + w / ONES - x / ONES);
      ModShift(0, d / ONES + w / ONES - x / ONES);
    }
  }

  lemma PseudoPositive(src: u32, dest: u32, proto: u8, len: u16)
    requires proto != 0
    ensures PseudoSum(src, dest, proto, len) > 0
  {
  }

  lemma NormIsOnes(x: nat)
    ensures Norm(x) == ONES <==> x > 0 && x % ONES == 0
  {
    NormSame(x);
  }

  // ---------------------------------------------------------------------------------------------
  // The definition of RFC 1071, section 1: words in network order, padded with a zero byte

  function NetworkSum(s: seq<u8>): nat {
    if s == [] then 0 else if |s| == 1 then Word(0, s[0]) else Word(s[1], s[0]) + NetworkSum(s[2..])
  }

  function NetworkChksum(s: seq<u8>): u16 {
    ONES - Norm(NetworkSum(s))
  }

  lemma {:induction false} NetworkSumSame(s: seq<u8>)
    ensures Same(NetworkSum(s), 0x100 * Sum(s))
  {
    if |s| >= 2 {
      NetworkSumSame(s[2..]);
      SameAdd(NetworkSum(s[2..]), 0x100 * Sum(s[2..]), Word(s[1], s[0]));
      ByteCarry(0x100 * (s[0] as int) + 0x100 * Sum(s[2..]), s[1]);
    }
  }

  /** The sum of the words as they lie in memory is that of the words in network order, with its bytes
      swapped: stored in memory it is the checksum of the standard. */
  lemma ByteOrderIndependent(s: seq<u8>)
    ensures Chksum(s) == Swap(NetworkChksum(s))
  {
    hide Same;
    hide Norm;
    hide Sum;
    hide NetworkSum;
    var n, m := NetworkSum(s), Sum(s);
    NetworkSumSame(s);
    NormSame(n);
    SwapSame(Norm(n));
    SameTimes(Norm(n), n);
    SameTimes(n, 0x100 * m);
    TwiceSame(m);
    SameTrans(Swap(Norm(n)), 0x100 * Norm(n), 0x100 * n);
    SameTrans(Swap(Norm(n)), 0x100 * n, 0x100 * (0x100 * m));
    SameTrans(Swap(Norm(n)), 0x100 * (0x100 * m), m);
    FoldedIsNorm(Swap(Norm(n)), m);
    SwapComplement(Norm(n));
  }

  lemma SwapComplement(x: u16)
    ensures Swap(ONES - x) == ONES - Swap(x)
  {
  }
}
