/** The IP header of ip.h: its fields, and its 20 bytes on the wire. */
module IpHeader {
  import opened Bytes
  import opened Checksum

  const IP_HLEN := 20
  const IP_MF := 0x2000

  datatype Addr = Addr(a: u8, b: u8, c: u8, d: u8)

  /** The fields; chksum is as the machine stores it, everything else is in network order on the wire. */
  datatype Header = Header(verHl: u8, tos: u8, len: u16, id: u16, frag: u16, ttl: u8, proto: u8, chksum: u16,
                           src: Addr, dest: Addr)
  {
    /** The length of the header in bytes, options included. */
    function Hlen(): nat { verHl % 16 * 4 }

    function Offset(): nat { frag % 0x2000 }

    predicate More() { frag / IP_MF % 2 == 1 }
  }

  /** The field of one buffer as its 20 bytes. */
  function Wire(h: Header): (s: seq<u8>)
    ensures |s| == IP_HLEN
  {
    [h.verHl, h.tos, High(h.len), Low(h.len), High(h.id), Low(h.id), High(h.frag), Low(h.frag),
     h.ttl, h.proto, Low(h.chksum), High(h.chksum),
     h.src.a, h.src.b, h.src.c, h.src.d, h.dest.a, h.dest.b, h.dest.c, h.dest.d]
  }

  function Parse(s: seq<u8>): Header
    requires |s| >= IP_HLEN
  {
    Header(s[0], s[1], Join(s[3], s[2]), Join(s[5], s[4]), Join(s[7], s[6]), s[8], s[9], Join(s[10], s[11]),
           Addr(s[12], s[13], s[14], s[15]), Addr(s[16], s[17], s[18], s[19]))
  }

  /** Reading a header back gives the fields that were written, whatever follows it. */
  lemma ParseWire(h: Header, rest: seq<u8>)
    ensures Parse(Wire(h) + rest) == h
  {
    JoinParts(h.len);
    JoinParts(h.id);
    JoinParts(h.frag);
    JoinParts(h.chksum);
  }

  /** Where the fields are, high byte first, as section 3.1 of RFC 791 draws them; the checksum goes out as the
      machine stores it. */
  lemma FieldsOnWire(h: Header)
    ensures var s := Wire(h);
            && s[0] == h.verHl && s[1] == h.tos && s[8] == h.ttl && s[9] == h.proto
            && 0x100 * (s[2] as int) + s[3] == h.len && 0x100 * (s[4] as int) + s[5] == h.id
            && 0x100 * (s[6] as int) + s[7] == h.frag && s[10] + 0x100 * (s[11] as int) == h.chksum
            && s[12..16] == [h.src.a, h.src.b, h.src.c, h.src.d]
            && s[16..20] == [h.dest.a, h.dest.b, h.dest.c, h.dest.d]
  {
    hide Low;
    hide High;
    var s := Wire(h);
    assert s[2] == High(h.len) && s[3] == Low(h.len) && s[4] == High(h.id) && s[5] == Low(h.id);
    assert s[6] == High(h.frag) && s[7] == Low(h.frag) && s[10] == Low(h.chksum) && s[11] == High(h.chksum);
    TwoBytes(h.len);
    TwoBytes(h.id);
    TwoBytes(h.frag);
    TwoBytes(h.chksum);
  }

  lemma TwoBytes(v: u16)
    ensures 0x100 * (High(v) as int) + Low(v) == v
  {
    PartsAre(v);
  }

  lemma ParsePrefix(s: seq<u8>)
    requires |s| >= IP_HLEN
    ensures Parse(s) == Parse(s[..IP_HLEN])
  {
  }

  /** The header with its checksum filled. */
  function Finish(h: Header): Header {
    h.(chksum := Chksum(Wire(h.(chksum := 0))))
  }

  /** A finished header passes the check of the receiver. */
  lemma FinishedChecks(h: Header)
    ensures Chksum(Wire(Finish(h))) == 0
  {
    var s := Wire(h.(chksum := 0));
    PartsAre(0);
    PartsAre(Chksum(s));
    assert Wire(Finish(h)) == Store(s, 10, Chksum(s));
    FilledHeaderChecks(s, 10);
  }
}
