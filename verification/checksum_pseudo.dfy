/**
 * The checksum of TCP and UDP is that of the pseudo header of RFC 793, section 3.1, and the data behind it.
 */
module ChecksumPseudo {
  import opened Bytes
  import opened Checksum

  /** The four bytes of a number as they lie in memory; an address lies there in network order. */
  function FourBytes(v: u32): (s: seq<u8>)
    ensures |s| == 4
  {
    [v % 0x100, v / 0x100 % 0x100, v / 0x1_0000 % 0x100, v / 0x100_0000]
  }

  /** Source address, destination address, zero, protocol, and length, in network order. */
  function PseudoHeader(src: u32, dest: u32, proto: u8, len: u16): (s: seq<u8>)
    ensures |s| == 12
  {
    FourBytes(src) + FourBytes(dest) + [0, proto, len / 0x100, len % 0x100]
  }

  /** Behind an even number of bytes the words of the second piece stay words. */
  lemma {:induction false} SumBehindEven(a: seq<u8>, b: seq<u8>)
    requires |a| % 2 == 0
    ensures Sum(a + b) == Sum(a) + Sum(b)
    decreases |a|
  {
    hide Word;
    if a == [] {
      assert a + b == b;
    } else {
      SumFront(a);
      SumFront(a + b);
      hide Sum;
      assert (a + b)[2..] == a[2..] + b;
      SumBehindEven(a[2..], b);
    }
  }

  lemma SumOfTwo(a: u8, b: u8)
    ensures Sum([a, b]) == Word(a, b)
  {
    SumFront([a, b]);
    assert [a, b][2..] == [];
    hide Word;
  }

  lemma SumOfFour(a: u8, b: u8, c: u8, d: u8)
    ensures Sum([a, b, c, d]) == Word(a, b) + Word(c, d)
  {
    hide Word;
    assert [a, b] + [c, d] == [a, b, c, d];
    SumBehindEven([a, b], [c, d]);
    SumOfTwo(a, b);
    SumOfTwo(c, d);
    hide Sum;
  }

  lemma FourBytesSum(v: u32)
    ensures Sum(FourBytes(v)) == v % 0x1_0000 + v / 0x1_0000
  {
    SumOfFour(v % 0x100, v / 0x100 % 0x100, v / 0x1_0000 % 0x100, v / 0x100_0000);
    hide Sum;
    LowWord(v);
    HighWord(v);
  }

  lemma LowWord(v: u32)
    ensures Word(v % 0x100, v / 0x100 % 0x100) == v % 0x1_0000
  {
  }

  lemma HighWord(v: u32)
    ensures Word(v / 0x1_0000 % 0x100, v / 0x100_0000) == v / 0x1_0000
  {
    var h := v / 0x1_0000;
    assert h / 0x100 == v / 0x100_0000;
  }

  lemma PseudoHeaderSum(src: u32, dest: u32, proto: u8, len: u16)
    ensures Sum(PseudoHeader(src, dest, proto, len)) == PseudoSum(src, dest, proto, len)
  {
    hide Sum;
    hide Word;
    hide Swap;
    hide FourBytes;
    var tail := [0, proto, len / 0x100, len % 0x100];
    SumOfFour(0, proto, len / 0x100, len % 0x100);
    ProtoWord(proto);
    SwappedWord(len);
    FourBytesSum(src);
    FourBytesSum(dest);
    SumBehindEven(FourBytes(src) + FourBytes(dest), tail);
    SumBehindEven(FourBytes(src), FourBytes(dest));
  }

  lemma ProtoWord(x: u8)
    ensures Word(0, x) == Swap(x)
  {
  }

  lemma SwappedWord(x: u16)
    ensures Word(x / 0x100, x % 0x100) == Swap(x)
  {
  }

  /** What inet_chksum_pseudo computes is the checksum of the pseudo header with the data behind it. */
  lemma PseudoIsHeader(s: seq<u8>, src: u32, dest: u32, proto: u8, len: u16)
    ensures PseudoChksum(s, src, dest, proto, len) == Chksum(PseudoHeader(src, dest, proto, len) + s)
    ensures PseudoChksum(s, src, dest, proto, len) == Swap(NetworkChksum(PseudoHeader(src, dest, proto, len) + s))
  {
    hide Sum;
    hide Norm;
    hide PseudoSum;
    hide NetworkChksum;
    hide PseudoHeader;
    PseudoHeaderSum(src, dest, proto, len);
    SumBehindEven(PseudoHeader(src, dest, proto, len), s);
    ByteOrderIndependent(PseudoHeader(src, dest, proto, len) + s);
  }

  /** A packet that is right for its pseudo header is not right for one in which a word of an address or of the
      length is another, unless the two words are the two zeros of one's complement arithmetic. */
  lemma HeaderDamageIsSeen(s: seq<u8>, k: nat, w: u16, src: u32, dest: u32, proto: u8, len: u16,
                           src': u32, dest': u32, len': u16)
    requires k in {0, 2, 4, 6, 10} && proto != 0 && PseudoChksum(s, src, dest, proto, len) == 0
    requires PseudoHeader(src', dest', proto, len') == Store(PseudoHeader(src, dest, proto, len), k, w)
    ensures PseudoChksum(s, src', dest', proto, len') == 0 <==>
            w % ONES == WordAt(PseudoHeader(src, dest, proto, len), k) % ONES
  {
    hide Sum;
    hide Norm;
    hide PseudoHeader;
    hide Store;
    hide WordAt;
    var p, p' := PseudoSum(src, dest, proto, len), PseudoSum(src', dest', proto, len');
    PseudoPositive(src, dest, proto, len);
    PseudoPositive(src', dest', proto, len');
    PseudoHeaderSum(src, dest, proto, len);
    PseudoHeaderSum(src', dest', proto, len');
    StoreSum(PseudoHeader(src, dest, proto, len), k, w);
    hide PseudoSum;
    NormIsOnes(Sum(s) + p);
    NormIsOnes(Sum(s) + p');
    ReplacedTerm(Sum(s) + p, WordAt(PseudoHeader(src, dest, proto, len), k), Sum(s) + p', w);
  }
}
