/**
 * Options that do not fit the options field: the overload option of RFC 2132, section 9.3, says that more are in the
 * file field, in the sname field, or in both.
 */
module DhcpOverload {
  import opened Bytes
  import opened Dhcp

  const IN_FILE := 1
  const IN_SNAME := 2
  const IN_BOTH := 3

  /** Options that lie in some bytes from a place on. */
  ghost predicate LiesAt(s: seq<u8>, i: nat, os: seq<Option>)
    requires Encodable(os)
  {
    i + |Encode(os)| <= |s| && s[i..i + |Encode(os)|] == Encode(os)
  }

  /** A field of the message holds options, closed by END or by the end of the field. */
  ghost predicate FieldHolds(m: seq<u8>, start: nat, end: nat, os: seq<Option>)
    requires end <= |m|
  {
    && Usable(os) && LiesAt(m, start, os) && start + |Encode(os)| <= end
    && (start + |Encode(os)| < end ==> m[start + |Encode(os)|] == OPTION_END)
  }

  lemma RestLies(s: seq<u8>, i: nat, os: seq<Option>)
    requires os != [] && Encodable(os) && LiesAt(s, i, os)
    ensures Encodable(os[1..]) && i + 1 < |s| && s[i] == os[0].kind && s[i + 1] == |os[0].data|
    ensures LiesAt(s, i + 2 + |os[0].data|, os[1..])
    ensures |Encode(os)| == 2 + |os[0].data| + |Encode(os[1..])|
  {
    hide Encode;
    EncodeParts(os);
    var n, all := 2 + |os[0].data|, Encode(os);
    SliceAt(s, i, all, 0);
    SliceAt(s, i, all, 1);
    SliceBehind(s, i, all, n);
  }

  /** The search in the options field passes over options of other types. */
  lemma {:induction false} ScanAlong(o: seq<u8>, i: nat, os: seq<Option>, kind: u8, overload: u8)
    requires Usable(os) && LiesAt(o, i, os)
    ensures FirstOf(os, kind) < |os| ==> Scan(o, i, kind, overload) == Hit(i + Place(os, FirstOf(os, kind)))
    ensures FirstOf(os, kind) == |os| ==> Scan(o, i, kind, overload) == Scan(o, i + |Encode(os)|, kind, overload)
    decreases |os|
  {
    EncodeNothing();
    hide Encode;
    hide Place;
    hide LiesAt;
    if os != [] {
      RestLies(o, i, os);
      PlaceNext(os, kind);
      if os[0].kind != kind {
        ScanAlong(o, i + 2 + |os[0].data|, os[1..], kind, overload);
      }
    }
  }

  /** The search in a field does the same. */
  lemma {:induction false} FieldAlong(m: seq<u8>, i: nat, end: nat, os: seq<Option>, kind: u8)
    requires |m| == MSG_LEN && end <= FILE + FILE_LEN
    requires Usable(os) && LiesAt(m, i, os) && i + |Encode(os)| <= end
    ensures FirstOf(os, kind) < |os| ==> ScanField(m, i, end, kind) == Hit(i + Place(os, FirstOf(os, kind)))
    ensures FirstOf(os, kind) == |os| ==> ScanField(m, i, end, kind) == ScanField(m, i + |Encode(os)|, end, kind)
    decreases |os|
  {
    EncodeNothing();
    hide Encode;
    hide Place;
    hide LiesAt;
    if os != [] {
      RestLies(m, i, os);
      PlaceNext(os, kind);
      if os[0].kind != kind {
        FieldAlong(m, i + 2 + |os[0].data|, end, os[1..], kind);
      }
    }
  }

  /** The options field: some options, the overload option, some more, and END. */
  ghost predicate Overloads(o: seq<u8>, before: seq<Option>, which: u8, after: seq<Option>)
    requires Encodable(before) && Encodable(after)
  {
    var at := |Encode(before)|;
    var end := at + 3 + |Encode(after)|;
    && LiesAt(o, 0, before) && end < |o|
    && o[at] == OPTION_OVERLOAD && o[at + 1] == 1 && o[at + 2] == which
    && LiesAt(o, at + 3, after) && o[end] == OPTION_END
  }

  lemma AtOverload(o: seq<u8>, at: nat, kind: u8, overload: u8)
    requires at + 2 < |o| && o[at] == OPTION_OVERLOAD
    ensures Scan(o, at, kind, overload) == Scan(o, at + 3, kind, o[at + 2])
  {
  }

  lemma AtEnd(o: seq<u8>, at: nat, kind: u8, overload: u8)
    requires at < |o| && o[at] == OPTION_END
    ensures Scan(o, at, kind, overload) == Miss(overload)
  {
  }

  /** The options field is searched to its end, and the overload is seen. */
  lemma ScanOverload(o: seq<u8>, before: seq<Option>, which: u8, after: seq<Option>, kind: u8)
    requires Usable(before) && Usable(after) && Overloads(o, before, which, after)
    requires FirstOf(before, kind) == |before| && FirstOf(after, kind) == |after|
    ensures Scan(o, 0, kind, 0) == Miss(which)
  {
    hide Encode;
    hide LiesAt;
    hide Scan;
    hide FirstOf;
    hide Place;
    hide Encodable;
    var at := |Encode(before)|;
    ScanAlong(o, 0, before, kind, 0);
    AtOverload(o, at, kind, 0);
    ScanAlong(o, at + 3, after, kind, which);
    AtEnd(o, at + 3 + |Encode(after)|, kind, which);
  }

  /** What the search in a field says. */
  function InField(x: Scanned): Pointer {
    if x.Hit? then InMessage(x.at) else Null
  }

  lemma SearchGoesOn(o: seq<u8>, m: seq<u8>, which: u8, kind: u8)
    requires |m| == MSG_LEN && Scan(o, 0, kind, 0) == Miss(which) && which > 0
    ensures Pointed(o, m, kind) == InField(ScanField(m, FieldStart(which), FieldEnd(which), kind))
  {
    hide Scan;
    hide ScanField;
  }

  /** A search in one field only. */
  lemma OneField(m: seq<u8>, start: nat, end: nat, os: seq<Option>, kind: u8)
    requires |m| == MSG_LEN && start <= end <= FILE + FILE_LEN && FieldHolds(m, start, end, os)
    ensures ScanField(m, start, end, kind) ==
            if FirstOf(os, kind) < |os| then Hit(start + Place(os, FirstOf(os, kind))) else Miss(0)
  {
    hide Encode;
    hide LiesAt;
    hide Place;
    FieldAlong(m, start, end, os, kind);
  }

  /** With overload 1 or 2 the option is found in the file or the sname field. */
  lemma FieldIsSearched(o: seq<u8>, m: seq<u8>, before: seq<Option>, which: u8, after: seq<Option>, os: seq<Option>,
                        kind: u8)
    requires |m| == MSG_LEN && which in {IN_FILE, IN_SNAME}
    requires Usable(before) && Usable(after) && Overloads(o, before, which, after)
    requires FirstOf(before, kind) == |before| && FirstOf(after, kind) == |after|
    requires which == IN_FILE ==> FieldHolds(m, 108, 236, os)
    requires which == IN_SNAME ==> FieldHolds(m, 44, 108, os)
    ensures Scan(o, 0, kind, 0) != Beyond
    ensures var start := if which == IN_FILE then 108 else 44;
            Pointed(o, m, kind) ==
            if FirstOf(os, kind) < |os| then InMessage(start + Place(os, FirstOf(os, kind))) else Null
  {
    hide Overloads;
    hide FieldHolds;
    hide Usable;
    hide FirstOf;
    hide Scan;
    hide ScanField;
    hide Place;
    hide Pointed;
    ScanOverload(o, before, which, after, kind);
    SearchGoesOn(o, m, which, kind);
    if which == IN_FILE {
      OneField(m, FILE, FILE + FILE_LEN, os, kind);
    } else {
      OneField(m, SNAME, SNAME + SNAME_LEN, os, kind);
    }
  }

  /** With overload 3 the two fields are searched as if they were one: an option in sname is found, and one in file if
      and only if the options in sname fill it to the last byte, so that no END is in between. */
  lemma BothFields(o: seq<u8>, m: seq<u8>, before: seq<Option>, after: seq<Option>, ss: seq<Option>, fs: seq<Option>,
                   kind: u8)
    requires |m| == MSG_LEN
    requires Usable(before) && Usable(after) && Overloads(o, before, IN_BOTH, after)
    requires FirstOf(before, kind) == |before| && FirstOf(after, kind) == |after|
    requires FieldHolds(m, 44, 108, ss) && FieldHolds(m, 108, 236, fs)
    ensures Scan(o, 0, kind, 0) != Beyond
    ensures Pointed(o, m, kind) ==
            if FirstOf(ss, kind) < |ss| then InMessage(44 + Place(ss, FirstOf(ss, kind)))
            else if FirstOf(fs, kind) < |fs| && |Encode(ss)| == 64 then InMessage(108 + Place(fs, FirstOf(fs, kind)))
            else Null
  {
    hide Overloads;
    hide Encode;
    hide Scan;
    hide ScanField;
    hide FirstOf;
    hide Place;
    hide Pointed;
    hide FieldHolds;
    hide Usable;
    ScanOverload(o, before, IN_BOTH, after, kind);
    SearchGoesOn(o, m, IN_BOTH, kind);
    BothSearched(m, ss, fs, kind);
  }

  lemma BothSearched(m: seq<u8>, ss: seq<Option>, fs: seq<Option>, kind: u8)
    requires |m| == MSG_LEN
    requires FieldHolds(m, SNAME, FILE, ss) && FieldHolds(m, FILE, FILE + FILE_LEN, fs)
    ensures ScanField(m, SNAME, FILE + FILE_LEN, kind) ==
            if FirstOf(ss, kind) < |ss| then Hit(SNAME + Place(ss, FirstOf(ss, kind)))
            else if FirstOf(fs, kind) < |fs| && |Encode(ss)| == FILE - SNAME
            then Hit(FILE + Place(fs, FirstOf(fs, kind)))
            else Miss(0)
  {
    hide LiesAt;
    hide Encode;
    hide ScanField;
    hide FirstOf;
    hide Place;
    FieldAlong(m, SNAME, FILE + FILE_LEN, ss, kind);
    OneField(m, FILE, FILE + FILE_LEN, fs, kind);
    if |Encode(ss)| < FILE - SNAME {
      FieldEnds(m, SNAME + |Encode(ss)|, FILE + FILE_LEN, kind);
    }
  }

  lemma FieldEnds(m: seq<u8>, i: nat, end: nat, kind: u8)
    requires |m| == MSG_LEN && i < end <= FILE + FILE_LEN && m[i] == OPTION_END
    ensures ScanField(m, i, end, kind) == Miss(0)
  {
  }

  /** The data of an option that lies in some bytes. */
  lemma DataLies(s: seq<u8>, i: nat, os: seq<Option>, k: nat)
    requires Usable(os) && LiesAt(s, i, os) && k < |os|
    ensures i + Place(os, k) + 2 + |os[k].data| <= |s| && s[i + Place(os, k) + 1] == |os[k].data|
    ensures s[i + Place(os, k) + 2..i + Place(os, k) + 2 + |os[k].data|] == os[k].data
  {
    PlaceInside(os, k);
    var t := Encode(os);
    hide Encode;
    hide Place;
    var p, n := Place(os, k), |os[k].data|;
    Slices(t, t, p, os[k]);
    SliceOfSlice(s, i, i + |t|, p + 2, p + 2 + n);
    assert t[p + 1] == s[i..i + |t|][p + 1] == s[i + p + 1];
  }

  /** A message whose file field holds the boot file name, option 67, and whose sname field holds no options. */
  function FileOnly(): (m: seq<u8>)
    ensures |m| == MSG_LEN && m[44] == 255 && m[108] == 67 && m[109] == 1 && m[110] == 7 && m[111] == 255
  {
    var byte: nat -> u8 := i =>
      if i == 44 || i == 111 then 255 else if i == 108 then 67 else if i == 109 then 1 else if i == 110 then 7 else 0;
    seq(MSG_LEN, byte)
  }

  /** The options field says that both fields hold options; the END that closes sname hides the option in file. */
  lemma FileIsHidden()
    ensures var o, fs := [OPTION_OVERLOAD, 1, IN_BOTH, OPTION_END], [Option(67, [7])];
            && Overloads(o, [], IN_BOTH, [])
            && FieldHolds(FileOnly(), 44, 108, []) && FieldHolds(FileOnly(), 108, 236, fs)
            && Scan(o, 0, 67, 0) != Beyond && Pointed(o, FileOnly(), 67) == Null
  {
    hide Scan;
    hide Pointed;
    hide FileOnly;
    var o, fs := [OPTION_OVERLOAD, 1, IN_BOTH, OPTION_END], [Option(67, [7])];
    assert fs[1..] == [];
    assert Encode(fs) == [67, 1, 7];
    EncodeNothing();
    assert FileOnly()[108..111] == [67, 1, 7];
    BothFields(o, FileOnly(), [], [], [], fs, 67);
  }
}
