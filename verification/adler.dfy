/** The Adler-32 checksum of zutil.h, which reduces its two sums only once for every NMAX bytes. */
module Adler {
  import opened Bytes

  const BASE := 65521
  const NMAX := 5552

  /** The two sums. */
  datatype Sums = Sums(s1: nat, s2: nat)

  /** One byte, with both sums reduced at once. */
  function Step(s: Sums, b: u8): (r: Sums)
    ensures r.s1 < BASE && r.s2 < BASE
  {
    var s1 := (s.s1 + b) % BASE;
    Sums(s1, (s.s2 + s1) % BASE)
  }

  /** The definition: both sums are reduced after every byte. */
  function Run(s: Sums, data: seq<u8>): (r: Sums)
    ensures data != [] ==> r.s1 < BASE && r.s2 < BASE
    decreases |data|
  {
    if data == [] then s else Step(Run(s, data[..|data| - 1]), data[|data| - 1])
  }

  function Split(adler: u32): Sums {
    Sums(adler % 0x1_0000, adler / 0x1_0000)
  }

  /** Both sums fit a half of the result. */
  predicate Halves(s: Sums) { s.s1 < 0x1_0000 && s.s2 < 0x1_0000 }

  function Join(s: Sums): u32
    requires Halves(s)
  {
    s.s2 * 0x1_0000 + s.s1
  }

  /** Summing x and then y is summing both. */
  lemma {:induction false} RunConcat(s: Sums, x: seq<u8>, y: seq<u8>)
    ensures Run(s, x + y) == Run(Run(s, x), y)
    decreases |y|
  {
    if y == [] {
      assert x + y == x;
    } else {
      var n := |y| - 1;
      assert (x + y)[..|x + y| - 1] == x + y[..n];
      RunConcat(s, x, y[..n]);
    }
  }

  /** The same sums modulo BASE. */
  predicate Same(s: Sums, t: Sums) {
    s.s1 % BASE == t.s1 % BASE && s.s2 % BASE == t.s2 % BASE
  }

  lemma AddSame(a: nat, b: nat, c: nat, d: nat)
    requires a % BASE == b % BASE && c % BASE == d % BASE
    ensures (a + c) % BASE == (b + d) % BASE
  {
    var j, k := a / BASE - b / BASE, c / BASE - d / BASE;
    assert a + c == (b + d) + BASE * (j + k);
    Shift(b + d, j + k);
  }

  lemma Shift(x: int, k: int)
    ensures (x + BASE * k) % BASE == x % BASE
  {
  }

  /** The largest values the sums can have after n bytes without reduction. */
  function Triangle(n: nat): nat {
    if n == 0 then 0 else n + Triangle(n - 1)
  }

  lemma {:induction false} TriangleIs(n: nat)
    ensures 2 * Triangle(n) == n * (n + 1)
  {
    if n > 0 {
      TriangleIs(n - 1);
    }
  }

  lemma {:induction false} TriangleGrows(m: nat, n: nat)
    requires m <= n
    ensures Triangle(m) <= Triangle(n)
    decreases n
  {
    if m < n {
      TriangleGrows(m, n - 1);
    }
  }

  predicate Bounded(s: Sums, n: nat) {
    s.s1 <= 0xffff + 255 * n && s.s2 <= 0xffff * (n + 1) + 255 * Triangle(n)
  }

  /** NMAX is small enough: the sums stay within 32 bits, even from a start value that is not reduced. */
  lemma NoOverflow(s: Sums, n: nat)
    requires Bounded(s, n) && n <= NMAX
    ensures s.s1 < 0x1_0000_0000 && s.s2 < 0x1_0000_0000
  {
    TriangleGrows(n, NMAX);
    TriangleIs(NMAX);
  }

  /** It is also as large as it can be, even from one that is. */
  lemma NmaxIsLargest()
    ensures (BASE - 1) * (NMAX + 2) + 255 * Triangle(NMAX + 1) >= 0x1_0000_0000
  {
    TriangleIs(NMAX + 1);
  }

  /** One byte without reduction. */
  lemma ByteStep(s: Sums, t: Sums, b: u8, n: nat)
    requires Same(s, t) && Bounded(s, n)
    ensures var r := Sums(s.s1 + b, s.s2 + (s.s1 + b)); Same(r, Step(t, b)) && Bounded(r, n + 1)
  {
    hide Triangle;
    AddSame(s.s1, t.s1, b, b);
    var s1 := (t.s1 + b) % BASE;
    AddSame(s.s2, t.s2, s.s1 + b, s1);
    assert Triangle(n + 1) == n + 1 + Triangle(n) by { NextTriangle(n); }
    assert 0xffff * (n + 2) == 0xffff * (n + 1) + 0xffff;
  }

  lemma NextTriangle(n: nat)
    ensures Triangle(n + 1) == n + 1 + Triangle(n)
  {
  }

  /** The bytes of one round of at most NMAX, added without reduction: the unrolled sixteens and the
      rest. */
  method Block(data: seq<u8>, from: nat, k0: nat, s10: u32, s20: u32, ghost t0: Sums) returns (s1: u32, s2: u32)
    requires from + k0 <= |data| && k0 <= NMAX && Halves(Sums(s10, s20)) && Same(Sums(s10, s20), t0)
    ensures Same(Sums(s1, s2), Run(t0, data[from..from + k0]))
  {
    s1, s2 := s10, s20;
    var k, at := k0, from;
    hide Triangle;
    assert Triangle(0) == 0 by { TriangleIs(0); }
    assert data[from..at] == [];
    while k >= 16
      invariant 0 <= k <= k0 && at == from + (k0 - k)
      invariant Same(Sums(s1, s2), Run(t0, data[from..at])) && Bounded(Sums(s1, s2), k0 - k)
    {
      s1, s2 := Bytewise(data, from, at, 16, k0 - k, s1, s2, t0);
      at := at + 16;
      k := k - 16;
    }
    if k != 0 {
      s1, s2 := Bytewise(data, from, at, k, k0 - k, s1, s2, t0);
      at := at + k;
    }
    assert at == from + k0;
  }

  /** n bytes from place at on, after done others. */
  method Bytewise(data: seq<u8>, from: nat, at: nat, n: nat, done: nat, s10: u32, s20: u32, ghost t0: Sums)
    returns (s1: u32, s2: u32)
    requires from <= at && at + n <= |data| && done + n <= NMAX
    requires Same(Sums(s10, s20), Run(t0, data[from..at])) && Bounded(Sums(s10, s20), done)
    ensures Same(Sums(s1, s2), Run(t0, data[from..at + n])) && Bounded(Sums(s1, s2), done + n)
  {
    hide Same;
    hide Bounded;
    hide Step;
    hide Run;
    hide Triangle;
    s1, s2 := s10, s20;
    var i := 0;
    while i < n
      invariant 0 <= i <= n
      invariant Same(Sums(s1, s2), Run(t0, data[from..at + i])) && Bounded(Sums(s1, s2), done + i)
    {
      ByteStep(Sums(s1, s2), Run(t0, data[from..at + i]), data[at + i], done + i);
      RunMore(t0, data, from, at + i);
      NoOverflow(Sums(s1 + data[at + i], s2 + (s1 + data[at + i])), done + i + 1);
      s1 := s1 + data[at + i];
      s2 := s2 + s1;
      i := i + 1;
    }
  }

  lemma RunMore(t: Sums, data: seq<u8>, from: nat, to: nat)
    requires from <= to < |data|
    ensures Run(t, data[from..to + 1]) == Step(Run(t, data[from..to]), data[to])
  {
    assert data[from..to + 1][..to - from] == data[from..to];
    hide Step;
  }

  /** zlib_adler32.  Without a buffer the result is the start value for the checksum; otherwise it is that of
      reducing after every byte. */
  method Adler32(adler: u32, there: bool, data: seq<u8>) returns (r: u32)
    ensures Halves(Run(Split(adler), data))
    ensures r == if there then Join(Run(Split(adler), data)) else 1
  {
    hide Run;
    hide Same;
    ghost var t := Split(adler);
    var s1: u32, s2: u32 := adler % 0x1_0000, adler / 0x1_0000;
    var len, at := |data|, 0;
    NoBytes(t, data);
    RunHalves(adler, data);
    if !there {
      return 1;
    }
    while len > 0
      invariant at + len == |data| && at >= 0 && len >= 0
      invariant Halves(Sums(s1, s2)) && Sums(s1, s2) == Run(t, data[..at])
    {
      var k := if len < NMAX then len else NMAX;
      SameSums(Sums(s1, s2));
      len := len - k;
      s1, s2 := Block(data, at, k, s1, s2, Run(t, data[..at]));
      assert data[..at + k] == data[..at] + data[at..at + k];
      RunConcat(t, data[..at], data[at..at + k]);
      Reduced(Sums(s1, s2), Run(t, data[..at]), data[at..at + k]);
      s1 := s1 % BASE;
      s2 := s2 % BASE;
      at := at + k;
    }
    assert data[..at] == data;
    r := s2 * 0x1_0000 + s1;
  }

  lemma RunHalves(adler: u32, data: seq<u8>)
    ensures Halves(Run(Split(adler), data))
  {
    assert data != [] ==> Run(Split(adler), data).s1 < BASE;
  }

  lemma NoBytes(t: Sums, data: seq<u8>)
    ensures Run(t, data[..0]) == t
  {
  }

  lemma SameSums(s: Sums)
    ensures Same(s, s)
  {
  }

  lemma Reduced(s: Sums, t: Sums, data: seq<u8>)
    requires data != [] && Same(s, Run(t, data))
    ensures Run(t, data) == Sums(s.s1 % BASE, s.s2 % BASE)
  {
  }

  /** The checksum of a buffer is that of its pieces, one after the other. */
  lemma PiecewiseIsWhole(adler: u32, x: seq<u8>, y: seq<u8>)
    ensures Halves(Run(Split(adler), x))
    ensures Run(Split(Join(Run(Split(adler), x))), y) == Run(Split(adler), x + y)
  {
    RunHalves(adler, x);
    SplitJoin(Run(Split(adler), x));
    RunConcat(Split(adler), x, y);
    hide Run;
  }

  lemma SplitJoin(s: Sums)
    requires Halves(s)
    ensures Split(Join(s)) == s
  {
  }

  // ---------------------------------------------------------------------------------------------
  // The sums of RFC 1950, section 8.2

  function ByteSum(data: seq<u8>): nat {
    if data == [] then 0 else data[0] + ByteSum(data[1..])
  }

  /** Each byte as often as there are bytes from it on. */
  function WeightedSum(data: seq<u8>): nat {
    if data == [] then 0 else |data| * data[0] + WeightedSum(data[1..])
  }

  lemma {:induction false} OneByteMore(data: seq<u8>, b: u8)
    ensures ByteSum(data + [b]) == ByteSum(data) + b
    ensures WeightedSum(data + [b]) == WeightedSum(data) + ByteSum(data) + b
    decreases |data|
  {
    if data == [] {
      assert [b][1..] == [];
    } else {
      assert (data + [b])[1..] == data[1..] + [b];
      OneByteMore(data[1..], b);
      assert (|data| + 1) * data[0] == |data| * data[0] + data[0];
    }
  }

  /** One step from sums that are known modulo BASE. */
  lemma StepIs(s: Sums, x: nat, y: nat, b: u8)
    requires s.s1 % BASE == x % BASE && s.s2 % BASE == y % BASE
    ensures Step(s, b) == Sums((x + b) % BASE, (y + x + b) % BASE)
  {
    AddSame(s.s1, x, b, b);
    Twice(x + b);
    AddSame(s.s2, y, (x + b) % BASE, x + b);
  }

  /** The sums without any reduction. */
  function Plain(s: Sums, data: seq<u8>): Sums
    decreases |data|
  {
    if data == [] then s
    else
      var t, b := Plain(s, data[..|data| - 1]), data[|data| - 1];
      Sums(t.s1 + b, t.s2 + t.s1 + b)
  }

  /** Reducing after every byte changes nothing but whole multiples of BASE. */
  lemma {:induction false} RunIsPlain(s: Sums, data: seq<u8>)
    ensures Same(Run(s, data), Plain(s, data))
    decreases |data|
  {
    hide Step;
    if data != [] {
      var n := |data| - 1;
      RunIsPlain(s, data[..n]);
      var t := Plain(s, data[..n]);
      StepIs(Run(s, data[..n]), t.s1, t.s2, data[n]);
      Twice(t.s1 + data[n]);
      Twice(t.s2 + t.s1 + data[n]);
    }
  }

  lemma Twice(a: nat)
    ensures a % BASE % BASE == a % BASE
  {
  }

  lemma LastByte(data: seq<u8>)
    requires data != []
    ensures var front, b := data[..|data| - 1], data[|data| - 1];
            ByteSum(data) == ByteSum(front) + b && WeightedSum(data) == WeightedSum(front) + ByteSum(front) + b
  {
    OneByteMore(data[..|data| - 1], data[|data| - 1]);
    assert data == data[..|data| - 1] + [data[|data| - 1]];
    hide ByteSum;
    hide WeightedSum;
  }

  lemma OneTermMore(n: nat, x: nat)
    ensures (n + 1) * x == n * x + x
  {
  }

  /** The plain sums: the start value with all bytes, and all values of that sum. */
  lemma {:induction false} PlainSums(s: Sums, data: seq<u8>)
    ensures Plain(s, data).s1 == s.s1 + ByteSum(data)
    ensures Plain(s, data).s2 == s.s2 + |data| * s.s1 + WeightedSum(data)
    decreases |data|
  {
    if data != [] {
      hide ByteSum;
      hide WeightedSum;
      PlainSums(s, data[..|data| - 1]);
      LastByte(data);
      OneTermMore(|data| - 1, s.s1);
    }
  }

  lemma ReducedSame(s: Sums, t: Sums)
    requires Same(s, t) && s.s1 < BASE && s.s2 < BASE
    ensures s == Sums(t.s1 % BASE, t.s2 % BASE)
  {
  }

  lemma JoinHalves(s: Sums)
    requires Halves(s)
    ensures Join(s) % 0x1_0000 == s.s1 && Join(s) / 0x1_0000 == s.s2
  {
  }

  /** The checksum from any start value: the low half is the low half before with the sum of the bytes, the high half
      is the high half before with the low one for every byte and the weighted sum. */
  lemma AdlerHalves(adler: u32, data: seq<u8>)
    ensures Halves(Run(Split(adler), data))
    ensures data == [] ==> Join(Run(Split(adler), data)) == adler
    ensures data != [] ==> Join(Run(Split(adler), data)) % 0x1_0000 == (adler % 0x1_0000 + ByteSum(data)) % BASE
    ensures data != [] ==> Join(Run(Split(adler), data)) / 0x1_0000 ==
                           (adler / 0x1_0000 + |data| * (adler % 0x1_0000) + WeightedSum(data)) % BASE
  {
    hide Same;
    hide Halves;
    hide Plain;
    hide ByteSum;
    hide WeightedSum;
    RunHalves(adler, data);
    RunIsPlain(Split(adler), data);
    PlainSums(Split(adler), data);
    JoinHalves(Run(Split(adler), data));
    if data != [] {
      ReducedSame(Run(Split(adler), data), Plain(Split(adler), data));
    } else {
      JoinSplit(adler);
    }
    hide Join;
  }

  lemma JoinSplit(adler: u32)
    ensures Halves(Split(adler)) && Join(Split(adler)) == adler
  {
  }

  /** From the start value 1 both are as the RFC has them, for any data. */
  lemma AdlerFromOne(data: seq<u8>)
    ensures Halves(Run(Split(1), data))
    ensures Join(Run(Split(1), data)) % 0x1_0000 == (1 + ByteSum(data)) % BASE
    ensures Join(Run(Split(1), data)) / 0x1_0000 == (|data| + WeightedSum(data)) % BASE
  {
    hide Join;
    hide Run;
    AdlerHalves(1, data);
    assert |data| * (1 % 0x1_0000) == |data|;
  }
}
