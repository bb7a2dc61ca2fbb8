/** Machine integers and buffer chains. */
module Bytes {
  type u8 = x: int | 0 <= x < 0x100
  type u16 = x: int | 0 <= x < 0x1_0000
  type u32 = x: int | 0 <= x < 0x1_0000_0000

  /** Two bytes as the machine reads them, low byte first. */
  function Word(lo: u8, hi: u8): u16 {
    (lo as int) + 0x100 * (hi as int)
  }

  /** A 16-bit number from its two bytes, and its two bytes, by steps of 0x100. */
  function Join(lo: u8, hi: u8): (v: u16)
    ensures v <= lo + 0x100 * (hi as int)
  {
    if hi == 0 then lo else 0x100 + Join(lo, hi - 1)
  }

  function High(v: u16): (hi: u8)
    ensures 0x100 * (hi as int) <= v
  {
    if v < 0x100 then 0 else High(v - 0x100) + 1
  }

  function Low(v: u16): u8 {
    if v < 0x100 then v else Low(v - 0x100)
  }

  lemma {:induction false} JoinParts(v: u16)
    ensures Join(Low(v), High(v)) == v
  {
    if v >= 0x100 {
      JoinParts(v - 0x100);
    }
  }

  /** These are the quotient and the remainder. */
  lemma {:induction false} PartsAre(v: u16)
    ensures Low(v) == v % 0x100 && High(v) == v / 0x100
  {
    if v >= 0x100 {
      PartsAre(v - 0x100);
    }
  }

  /** The data of a chain of buffers. */
  function Flatten(chain: seq<seq<u8>>): (s: seq<u8>)
    ensures forall i :: 0 <= i < |chain| ==> |chain[i]| <= |s|
  {
    if chain == [] then [] else chain[0] + Flatten(chain[1..])
  }

  /** The tot_len of a chain. */
  function TotLen(p: seq<seq<u8>>): (n: nat)
    ensures n == |Flatten(p)|
  {
    if p == [] then 0 else |p[0]| + TotLen(p[1..])
  }

  lemma {:induction false} FlattenAppend(chain: seq<seq<u8>>, piece: seq<u8>)
    ensures Flatten(chain + [piece]) == Flatten(chain) + piece
  {
    if chain == [] {
      assert [piece][1..] == [];
    } else {
      assert (chain + [piece])[1..] == chain[1..] + [piece];
      FlattenAppend(chain[1..], piece);
    }
  }
}
