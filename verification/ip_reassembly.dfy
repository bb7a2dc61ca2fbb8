/** The reassembly buffer as ip_frag.c keeps it: arrays for the data and the bitmap, changed in place. */
module IpReassembly {
  import opened Bytes
  import opened IpHeader
  import IpFrag
  import opened IpReass

  /** The size of the bitmap in bytes. */
  const BITMAP := IP_REASS_BUFSIZE / 64

  /** The bits from index k to the end of a byte, most significant bit first. */
  function BitmapBits(k: nat): bv8
    requires k < 8
  {
    if k == 0 then 0xff else if k == 1 then 0x7f else if k == 2 then 0x3f else if k == 3 then 0x1f
    else if k == 4 then 0x0f else if k == 5 then 0x07 else if k == 6 then 0x03 else 0x01
  }

  function Mask(k: nat): bv8
    requires k < 8
  {
    if k == 0 then 0x80 else if k == 1 then 0x40 else if k == 2 then 0x20 else if k == 3 then 0x10
    else if k == 4 then 0x08 else if k == 5 then 0x04 else if k == 6 then 0x02 else 0x01
  }

  predicate Bit(x: bv8, k: nat)
    requires k < 8
  {
    x & Mask(k) != 0
  }

  /** The bitmap as the list of its bits. */
  function Marks(bm: seq<bv8>): (marks: seq<bool>)
    ensures |marks| == 8 * |bm| && forall b :: 0 <= b < 8 * |bm| ==> marks[b] == Bit(bm[b / 8], b % 8)
  {
    seq(8 * |bm|, b requires 0 <= b < 8 * |bm| => Bit(bm[b / 8], b % 8))
  }

  lemma BitsFrom(m: nat, k: nat)
    requires m < 8 && k < 8
    ensures Bit(BitmapBits(m), k) <==> m <= k
  {
  }

  function Or(x: bv8, y: bv8): bv8 { x | y }
  function And(x: bv8, y: bv8): bv8 { x & y }
  function Not(x: bv8): bv8 { !x }

  lemma BitOr(x: bv8, y: bv8, k: nat)
    requires k < 8
    ensures Bit(Or(x, y), k) <==> Bit(x, k) || Bit(y, k)
  {
  }

  lemma BitAnd(x: bv8, y: bv8, k: nat)
    requires k < 8
    ensures Bit(And(x, y), k) <==> Bit(x, k) && Bit(y, k)
  {
  }

  lemma BitNot(x: bv8, k: nat)
    requires k < 8
    ensures Bit(Not(x), k) <==> !Bit(x, k)
  {
  }

  lemma BitOnes(k: nat)
    requires k < 8
    ensures Bit(0xff, k)
  {
  }

  /** A byte is known by its bits. */
  lemma SameBits(x: bv8, y: bv8)
    requires forall k :: 0 <= k < 8 ==> (Bit(x, k) <==> Bit(y, k))
    ensures x == y
  {
    assert Bit(x, 0) == Bit(y, 0) && Bit(x, 1) == Bit(y, 1) && Bit(x, 2) == Bit(y, 2) && Bit(x, 3) == Bit(y, 3);
    assert Bit(x, 4) == Bit(y, 4) && Bit(x, 5) == Bit(y, 5) && Bit(x, 6) == Bit(y, 6) && Bit(x, 7) == Bit(y, 7);
  }

  /** Byte i of the bitmap after the marking: from has the bits set from the first block on, to those from
      the end on. */
  function ByteAfter(x: bv8, i: nat, first: nat, final: nat, from: bv8, to: bv8): bv8 {
    if first == final then (if i == first then Or(x, And(from, Not(to))) else x)
    else if i == first then Or(x, from)
    else if first < i < final then 0xff
    else if i == final then Or(x, Not(to))
    else x
  }

  /** One bit of a byte after the marking. */
  predicate BitAfter(x: bool, i: nat, first: nat, final: nat, from: bool, to: bool) {
    if first == final then x || (i == first && from && !to)
    else if i == first then x || from
    else if first < i < final then true
    else if i == final then x || !to
    else x
  }

  lemma ByteAfterBit(x: bv8, i: nat, first: nat, final: nat, from: bv8, to: bv8, k: nat)
    requires k < 8
    ensures Bit(ByteAfter(x, i, first, final, from, to), k) ==
            BitAfter(Bit(x, k), i, first, final, Bit(from, k), Bit(to, k))
  {
    hide Bit;
    hide Or;
    hide And;
    hide Not;
    BitNot(to, k);
    BitAnd(from, Not(to), k);
    BitOr(x, And(from, Not(to)), k);
    BitOr(x, from, k);
    BitOr(x, Not(to), k);
    BitOnes(k);
  }

  lemma ByteAfterBits(x: bv8, i: nat, first: nat, f: nat, final: nat, t: nat, k: nat)
    requires k < 8 && f < 8 && t < 8 && 8 * first + f <= 8 * final + t
    ensures Bit(ByteAfter(x, i, first, final, BitmapBits(f), BitmapBits(t)), k) <==>
            Bit(x, k) || 8 * first + f <= 8 * i + k < 8 * final + t
  {
    hide Bit;
    hide BitmapBits;
    hide ByteAfter;
    BitsFrom(f, k);
    BitsFrom(t, k);
    ByteAfterBit(x, i, first, final, BitmapBits(f), BitmapBits(t), k);
  }

  /** The bitmap after marking, byte by byte, is the range marked. */
  lemma MarksAfter(bm: seq<bv8>, bm': seq<bv8>, first: nat, f: nat, final: nat, t: nat)
    requires |bm| == |bm'| && f < 8 && t < 8 && 8 * first + f <= 8 * final + t
    requires forall i :: 0 <= i < |bm| ==> bm'[i] == ByteAfter(bm[i], i, first, final, BitmapBits(f), BitmapBits(t))
    ensures Marks(bm') == MarkRange(Marks(bm), 8 * first + f, 8 * final + t)
  {
    hide ByteAfter;
    hide Bit;
    hide BitmapBits;
    forall b: nat | b < 8 * |bm| ensures Marks(bm')[b] == MarkRange(Marks(bm), 8 * first + f, 8 * final + t)[b] {
      ByteAfterBits(bm[b / 8], b / 8, first, f, final, t, b % 8);
    }
  }

  /** All blocks of byte i are marked. */
  predicate FullByte(marks: seq<bool>, i: nat)
    requires 8 * i + 8 <= |marks|
  {
    forall b :: 8 * i <= b < 8 * i + 8 ==> marks[b]
  }

  /** Exactly the first m blocks of byte i are marked. */
  predicate LastByte(marks: seq<bool>, i: nat, m: nat)
    requires 8 * i + 8 <= |marks|
  {
    forall b :: 8 * i <= b < 8 * i + 8 ==> (marks[b] <==> b < 8 * i + m)
  }

  lemma PassesBytewise(marks: seq<bool>, len: nat)
    requires |marks| == 8 * BITMAP && len < IP_REASS_BUFSIZE
    ensures Passes(marks, len) <==>
              (forall i :: 0 <= i < len / 64 - 1 ==> FullByte(marks, i)) && LastByte(marks, len / 64, len / 8 % 8)
  {
    SixtyFour(len);
    assert len / 8 == 8 * (len / 64) + len / 8 % 8;
    if forall i :: 0 <= i < len / 64 - 1 ==> FullByte(marks, i) {
      forall b: nat | b < 8 * (len / 64 - 1) ensures marks[b] {
        assert FullByte(marks, b / 8);
      }
    }
  }

  /** What the check reads off the bitmap. */
  lemma CheckedBytes(bm: seq<bv8>, i: nat, m: nat)
    requires i < |bm| && m < 8
    ensures bm[i] == 0xff <==> FullByte(Marks(bm), i)
    ensures bm[i] == Not(BitmapBits(m)) <==> LastByte(Marks(bm), i, m)
  {
    hide Bit;
    hide Not;
    hide BitmapBits;
    forall k: nat | k < 8
      ensures Bit(bm[i], k) == Marks(bm)[8 * i + k] && Bit(0xff, k) && (Bit(Not(BitmapBits(m)), k) <==> k < m)
    {
      BitsFrom(m, k);
      BitNot(BitmapBits(m), k);
      BitOnes(k);
    }
    hide Marks;
    if FullByte(Marks(bm), i) {
      SameBits(bm[i], 0xff);
    }
    if LastByte(Marks(bm), i, m) {
      SameBits(bm[i], Not(BitmapBits(m)));
    }
    forall b: nat | 8 * i <= b < 8 * i + 8 ensures Marks(bm)[b] == Bit(bm[i], b - 8 * i) {
      assert b == 8 * i + (b - 8 * i);
    }
  }

  /** The byte of the bitmap for the end of a fragment that is accepted exists if and only if the fragment does
      not end at the very end of the buffer.  In that case the byte behind the bitmap is written, but no bit of it
      is set. */
  lemma MarkInRange(h: Header)
    requires !Outside(h)
    ensures Hi(h) / 64 < BITMAP <==> Hi(h) < IP_REASS_BUFSIZE
    ensures Hi(h) == IP_REASS_BUFSIZE ==> Hi(h) / 64 == BITMAP && Not(BitmapBits(Hi(h) / 8 % 8)) == 0
  {
    hide Parse;
  }

  /** There is such a fragment: the last 8 bytes of the buffer. */
  lemma EndOfBufferAccepted()
    ensures var h := Header(0x45, 0, IP_HLEN + 8, 1, 719, 64, 17, 0, Addr(10, 0, 0, 1), Addr(10, 0, 0, 2));
            !Outside(h) && Hi(h) == IP_REASS_BUFSIZE
  {
  }

  /** The static state of ip_frag.c. */
  class Reassembler {
    const buf: array<u8>
    const bitmap: array<bv8>
    var head: Header
    var len: nat
    var last: bool
    var timer: nat

    predicate Valid()
      reads this
    {
      buf.Length == IP_REASS_BUFSIZE && bitmap.Length == BITMAP && (timer > 0 && last ==> len < IP_REASS_BUFSIZE)
    }

    /** The state as the specification sees it. */
    ghost function Value(): Reass
      reads this, buf, bitmap
      requires Valid()
    {
      Reass(timer, head, buf[..], Marks(bitmap[..]), last, len)
    }

    constructor ()
      ensures Valid() && fresh(buf) && fresh(bitmap) && Value().timer == 0
    {
      buf := new u8[IP_REASS_BUFSIZE](_ => 0);
      bitmap := new bv8[BITMAP](_ => 0);
      head := Header(0, 0, 0, 0, 0, 0, 0, 0, Addr(0, 0, 0, 0), Addr(0, 0, 0, 0));
      len, last, timer := 0, false, 0;
    }

    /** ip_reass_timer. */
    method Timer()
      requires Valid()
      modifies this`timer
      ensures Valid() && Value() == Tick(old(Value()))
    {
      if timer > 1 {
        timer := timer - 1;
      } else if timer == 1 {
        timer := 0;
      }
    }

    /** A new datagram: its header, the timer, and an empty bitmap. */
    method Begin(h: Header)
      requires Valid()
      modifies this, bitmap
      ensures Valid() && timer > 0 && Value() == Start(old(Value()), h)
    {
      if timer == 0 {
        head := h;
        timer := IP_REASS_MAXAGE;
        last := false;
        forall i | 0 <= i < bitmap.Length {
          bitmap[i] := 0;
        }
        NoBits(bitmap[..]);
      }
    }

    /** Sets the bits of the blocks between two offsets. */
    method Mark(offset: nat, end: nat)
      requires Valid() && offset <= end < IP_REASS_BUFSIZE
      modifies bitmap
      ensures Marks(bitmap[..]) == MarkRange(Marks(old(bitmap[..])), offset / 8, end / 8)
    {
      hide BitmapBits;
      hide Marks;
      hide ByteAfter;
      ghost var bm := bitmap[..];
      SixtyFour(offset);
      SixtyFour(end);
      var f, t := offset / 8 % 8, end / 8 % 8;
      MarkBytes(offset / 64, end / 64, BitmapBits(f), BitmapBits(t));
      MarksAfter(bm, bitmap[..], offset / 64, f, end / 64, t);
    }

    /** Sets the bits in the bytes of the bitmap. */
    method MarkBytes(first: nat, final: nat, from: bv8, to: bv8)
      requires Valid() && first <= final < BITMAP
      modifies bitmap
      ensures forall j :: 0 <= j < bitmap.Length ==> bitmap[j] == ByteAfter(old(bitmap[j]), j, first, final, from, to)
    {
      hide Or;
      hide And;
      hide Not;
      if first == final {
        bitmap[first] := Or(bitmap[first], And(from, Not(to)));
      } else {
        bitmap[first] := Or(bitmap[first], from);
        var i := 1 + first;
        while i < final
          invariant first < i <= final
          invariant forall j :: 0 <= j < bitmap.Length ==>
                      bitmap[j] == if j == first then Or(old(bitmap[j]), from)
                                   else if first < j < i then 0xff else old(bitmap[j])
        {
          bitmap[i] := 0xff;
          i := i + 1;
        }
        bitmap[final] := Or(bitmap[final], Not(to));
      }
    }

    /** The check for a full datagram. */
    method Full() returns (ok: bool)
      requires Valid() && len < IP_REASS_BUFSIZE
      ensures ok == Passes(Marks(bitmap[..]), len)
    {
      hide BitmapBits;
      hide Marks;
      hide Passes;
      hide FullByte;
      hide LastByte;
      ghost var marks := Marks(bitmap[..]);
      PassesBytewise(marks, len);
      var n := len / 64;
      var i := 0;
      while i < n - 1
        invariant 0 <= i && (i <= n - 1 || i == 0)
        invariant forall j :: 0 <= j < i ==> FullByte(marks, j)
      {
        CheckedBytes(bitmap[..], i, 0);
        if bitmap[i] != 0xff {
          return false;
        }
        i := i + 1;
      }
      CheckedBytes(bitmap[..], n, len / 8 % 8);
      ok := bitmap[n] == Not(BitmapBits(len / 8 % 8));
    }

    /** The data of an accepted fragment goes into the buffer, and its blocks into the bitmap. */
    method Accept(p: seq<seq<u8>>)
      requires Valid() && p != [] && InFirst(p) && Fits(Flatten(p))
      modifies this`len, this`last, buf, bitmap
      ensures Valid() && Value() == Store(old(Value()), Flatten(p))
    {
      hide Marks;
      hide Parse;
      hide Flatten;
      hide MarkRange;
      hide IpFrag.Splice;
      hide Store;
      hide Fits;
      FirstBuffer(p);
      StoreIs(Value(), Flatten(p), Parse(p[0]));
      var h := Parse(p[0]);
      var offset, n := Lo(h), DataLen(h);
      var q, end := IpFrag.CopyFromPbuf(p, h.Hlen(), buf, offset, n);
      Mark(offset, offset + n);
      if !h.More() {
        last := true;
        len := offset + n;
      }
    }

    /** ip_reass. */
    method Receive(p: seq<seq<u8>>, memory: bool) returns (d: Result)
      requires Valid() && p != [] && InFirst(p) && Readable(Flatten(p))
      modifies this, buf, bitmap
      ensures Valid() && (Value(), d) == IpReass.Receive(old(Value()), Flatten(p), memory)
    {
      hide Marks;
      hide Parse;
      hide Flatten;
      hide Passes;
      hide Finish;
      hide Wire;
      hide Store;
      hide Start;
      FirstBuffer(p);
      var h := Parse(p[0]);
      d := Nothing;
      Begin(h);
      if !SameDatagram(head, h) {
        return;
      }
      if Outside(h) {
        timer := 0;
        return;
      }
      Accept(p);
      if !last {
        return;
      }
      var full := Full();
      if full {
        head := WholeHead(head, len);
        timer := 0;
        if memory {
          d := Datagram(Wire(head) + buf[..len]);
        }
        len := len + IP_HLEN;
      }
    }
  }

  /** What a fragment does to the state, in the terms of its header. */
  lemma StoreIs(r: Reass, p: Packet, h: Header)
    requires Sized(r) && Fits(p) && h == Parse(p)
    ensures h.Hlen() + DataLen(h) <= |p| && Hi(h) < IP_REASS_BUFSIZE
    ensures Store(r, p) == r.(buf := IpFrag.Splice(r.buf, Lo(h), p[h.Hlen()..h.Hlen() + DataLen(h)]),
                              marks := MarkRange(r.marks, Lo(h) / 8, Hi(h) / 8),
                              last := r.last || !h.More(),
                              len := if h.More() then r.len else Hi(h))
  {
    hide Parse;
    hide MarkRange;
    hide IpFrag.Splice;
    assert Hi(h) / 8 == h.Offset() + DataLen(h) / 8;
  }

  /** The header, options included, lies in the first buffer of the chain. */
  predicate InFirst(p: seq<seq<u8>>)
    requires p != []
  {
    |p[0]| >= IP_HLEN && Parse(p[0]).Hlen() <= |p[0]|
  }

  lemma FirstBuffer(p: seq<seq<u8>>)
    requires p != [] && |p[0]| >= IP_HLEN
    ensures |Flatten(p)| >= IP_HLEN && Parse(Flatten(p)) == Parse(p[0])
  {
    assert Flatten(p)[..IP_HLEN] == p[0][..IP_HLEN];
    ParsePrefix(Flatten(p));
    ParsePrefix(p[0]);
    hide Parse;
  }

  lemma SixtyFour(n: nat)
    ensures n / 64 == n / 8 / 8 && n / 8 == 8 * (n / 64) + n / 8 % 8
  {
  }

  lemma NoBits(bm: seq<bv8>)
    requires |bm| == BITMAP && forall i :: 0 <= i < |bm| ==> bm[i] == 0
    ensures Marks(bm) == NoMarks()
  {
  }
}
