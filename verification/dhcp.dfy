/**
 * DHCP options of dhcp.c: written behind one another, closed by a trailer, unfolded from a chain of buffers,
 * and searched for.
 */
module Dhcp {
  import opened Bytes

  const OPTIONS_LEN := 68
  const MSG_LEN := 240
  const SNAME := 44
  const SNAME_LEN := 64
  const FILE := 108
  const FILE_LEN := 128
  const OPTION_END := 255
  const OPTION_OVERLOAD := 52

  datatype Option = Option(kind: u8, data: seq<u8>)

  /** The length of every option fits into its byte. */
  ghost predicate Encodable(os: seq<Option>) {
    forall i :: 0 <= i < |os| ==> |os[i].data| < 0x100
  }

  /** The options as bytes. */
  function Encode(os: seq<Option>): seq<u8>
    requires Encodable(os)
  {
    if os == [] then [] else [os[0].kind, |os[0].data|] + os[0].data + Encode(os[1..])
  }

  function Zeros(n: nat): (z: seq<u8>)
    ensures |z| == n && forall i :: 0 <= i < n ==> z[i] == 0
  {
    seq(n, _ => 0)
  }

  /** The trailer closes the options and fills them up to their full length. */
  function Closed(s: seq<u8>): seq<u8>
    requires |s| < OPTIONS_LEN
  {
    s + [OPTION_END] + Zeros(OPTIONS_LEN - 1 - |s|)
  }

  // ---------------------------------------------------------------------------------------------
  // Writing

  /** The options of the message being written. */
  class Writer {
    const options: array<u8>
    var outLen: nat

    predicate Valid()
      reads this
    {
      options.Length == OPTIONS_LEN && outLen <= OPTIONS_LEN
    }

    ghost function Written(): seq<u8>
      reads this, options
      requires Valid()
    {
      options[..outLen]
    }

    constructor ()
      ensures Valid() && Written() == [] && fresh(options)
    {
      options := new u8[OPTIONS_LEN](_ => 0);
      outLen := 0;
    }

    /** dhcp_option_byte. */
    method Byte(value: u8)
      requires Valid() && outLen < OPTIONS_LEN
      modifies this`outLen, options
      ensures Valid() && Written() == old(Written()) + [value]
    {
      options[outLen] := value;
      outLen := outLen + 1;
    }

    /** dhcp_option: the type and the length, with room for the data. */
    method Header(kind: u8, len: u8)
      requires Valid() && outLen + 2 + len <= OPTIONS_LEN
      modifies this`outLen, options
      ensures Valid() && Written() == old(Written()) + [kind, len]
    {
      Byte(kind);
      Byte(len);
    }

    /** The bytes of an option behind its header, written one by one. */
    method Bytes(data: seq<u8>)
      requires Valid() && outLen + |data| <= OPTIONS_LEN
      modifies this`outLen, options
      ensures Valid() && Written() == old(Written()) + data
    {
      var i := 0;
      while i < |data|
        invariant i <= |data| && Valid() && outLen == old(outLen) + i && Written() == old(Written()) + data[..i]
      {
        Byte(data[i]);
        i := i + 1;
      }
    }

    /** A list of options, as the client writes them. */
    method Options(os: seq<Option>)
      requires Valid() && Encodable(os) && outLen == 0 && |Encode(os)| <= OPTIONS_LEN
      modifies this`outLen, options
      ensures Valid() && Written() == Encode(os)
    {
      hide Encode;
      EncodeNothing();
      var i := 0;
      assert os[..0] == [];
      while i < |os|
        invariant i <= |os| && Valid() && Encodable(os[..i]) && Written() == Encode(os[..i])
      {
        assert os[..i + 1] == os[..i] + [os[i]];
        EncodeMore(os[..i], os[i]);
        EncodeFront(os, i + 1);
        Header(os[i].kind, |os[i].data|);
        Bytes(os[i].data);
        i := i + 1;
      }
      assert os[..i] == os;
    }

    /** dhcp_option_short. */
    method Short(value: u16)
      requires Valid() && outLen + 2 <= OPTIONS_LEN
      modifies this`outLen, options
      ensures Valid() && Written() == old(Written()) + ShortBytes(value)
    {
      Byte(value / 0x100);
      Byte(value % 0x100);
    }

    /** dhcp_option_long. */
    method Long(value: u32)
      requires Valid() && outLen + 4 <= OPTIONS_LEN
      modifies this`outLen, options
      ensures Valid() && Written() == old(Written()) + LongBytes(value)
    {
      Byte(value / 0x100_0000);
      Byte(value / 0x1_0000 % 0x100);
      Byte(value / 0x100 % 0x100);
      Byte(value % 0x100);
    }

    /** dhcp_option_trailer. */
    method Trailer()
      requires Valid() && outLen < OPTIONS_LEN
      modifies this`outLen, options
      ensures Valid() && Written() == Closed(old(Written()))
    {
      ghost var s := Written();
      Byte(OPTION_END);
      assert Written() == s + [OPTION_END] + Zeros(0);
      while outLen < OPTIONS_LEN || outLen % 4 != 0
        invariant Valid() && outLen > |s| && Written() == s + [OPTION_END] + Zeros(outLen - 1 - |s|)
        decreases OPTIONS_LEN - outLen
      {
        Byte(0);
      }
    }
  }

  function ShortBytes(v: u16): (s: seq<u8>)
    ensures |s| == 2
  {
    [v / 0x100, v % 0x100]
  }

  function LongBytes(v: u32): (s: seq<u8>)
    ensures |s| == 4
  {
    [v / 0x100_0000, v / 0x1_0000 % 0x100, v / 0x100 % 0x100, v % 0x100]
  }

  // ---------------------------------------------------------------------------------------------
  // Unfolding

  /** No buffer of the chain is empty. */
  predicate NonEmpty(chain: seq<seq<u8>>) {
    forall i :: 0 <= i < |chain| ==> chain[i] != []
  }

  /** The place in a chain: at a byte, or behind the last one. */
  predicate At(q: seq<seq<u8>>, j: nat) {
    NonEmpty(q) && if q == [] then j == 0 else j < |q[0]|
  }

  /** What follows from a place on. */
  function From(q: seq<seq<u8>>, j: nat): seq<u8>
    requires At(q, j)
  {
    if q == [] then [] else q[0][j..] + Flatten(q[1..])
  }

  lemma FromFirst(q: seq<seq<u8>>, j: nat)
    requires At(q, j) && q != []
    ensures From(q, j)[0] == q[0][j]
    ensures j + 1 < |q[0]| ==> At(q, j + 1) && From(q, j)[1..] == From(q, j + 1)
    ensures j + 1 == |q[0]| ==> At(q[1..], 0) && From(q, j)[1..] == From(q[1..], 0)
  {
    if j + 1 == |q[0]| && |q| > 1 {
      assert q[1..][1..] == q[2..];
      assert q[1] != [];
      assert From(q[1..], 0) == q[1] + Flatten(q[2..]);
    }
  }

  /** The copy loop of dhcp_unfold_reply: n bytes from a place in the chain. */
  method CopyBytes(q0: seq<seq<u8>>, j0: nat, n: nat) returns (out: seq<u8>, q: seq<seq<u8>>, j: nat)
    requires At(q0, j0) && n <= |From(q0, j0)|
    ensures At(q, j) && out == From(q0, j0)[..n] && From(q, j) == From(q0, j0)[n..]
  {
    hide From;
    hide At;
    ghost var all := From(q0, j0);
    q, j, out := q0, j0, [];
    var i := 0;
    while i < n
      invariant 0 <= i <= n && At(q, j) && out == all[..i] && From(q, j) == all[i..]
    {
      NotAtEnd(q, j);
      FromFirst(q, j);
      out := out + [q[0][j]];
      j := j + 1;
      if j == |q[0]| {
        q := q[1..];
        j := 0;
      }
      assert all[i..][1..] == all[i + 1..];
      i := i + 1;
    }
  }

  lemma NotAtEnd(q: seq<seq<u8>>, j: nat)
    requires At(q, j) && |From(q, j)| > 0
    ensures q != [] && j < |q[0]|
  {
  }

  lemma FromStart(q: seq<seq<u8>>)
    requires NonEmpty(q)
    ensures At(q, 0) && From(q, 0) == Flatten(q)
  {
  }

  datatype Unfolded = NoMemory | Message(msg: seq<u8>, options: seq<u8>)

  /** dhcp_unfold_reply.  The fixed part and the options are copied to memory of their own, if there is any;
      the message has its fixed part, and no buffer is empty. */
  method Unfold(chain: seq<seq<u8>>, optionsMemory: bool, msgMemory: bool) returns (r: Unfolded)
    requires NonEmpty(chain) && MSG_LEN <= |Flatten(chain)|
    ensures r == if (|Flatten(chain)| > MSG_LEN && !optionsMemory) || !msgMemory then NoMemory
                 else Message(Flatten(chain)[..MSG_LEN], Flatten(chain)[MSG_LEN..])
  {
    hide From;
    hide Flatten;
    var optionsLen := TotLen(chain) - MSG_LEN;
    if optionsLen > 0 && !optionsMemory {
      return NoMemory;
    }
    if !msgMemory {
      return NoMemory;
    }
    FromStart(chain);
    var msg, q, j := CopyBytes(chain, 0, MSG_LEN);
    var options := [];
    if optionsLen > 0 {
      options, q, j := CopyBytes(q, j, optionsLen);
    }
    r := Message(msg, options);
  }

  // ---------------------------------------------------------------------------------------------
  // Searching

  /** Where the search in the options ends: at the option, at the end with the overload seen on the way, or
      behind the last byte, where the source reads on. */
  datatype Scanned = Hit(at: nat) | Miss(overload: u8) | Beyond

  function Scan(o: seq<u8>, i: nat, kind: u8, overload: u8): Scanned
    decreases |o| - i
  {
    if i >= |o| || o[i] == OPTION_END then Miss(overload)
    else if o[i] == OPTION_OVERLOAD then (if i + 2 < |o| then Scan(o, i + 3, kind, o[i + 2]) else Beyond)
    else if o[i] == kind then Hit(i)
    else if i + 1 < |o| then Scan(o, i + 2 + o[i + 1], kind, overload)
    else Beyond
  }

  /** The search in the file and sname fields, from place i to the end of the field. */
  function ScanField(m: seq<u8>, i: nat, end: nat, kind: u8): Scanned
    requires |m| == MSG_LEN && end <= FILE + FILE_LEN
    decreases end - i
  {
    if i >= end || m[i] == OPTION_END then Miss(0)
    else if m[i] == kind then Hit(i)
    else ScanField(m, i + 2 + m[i + 1], end, kind)
  }

  /** A pointer to an option: in the options, or in the fixed part of the message. */
  datatype Pointer = Null | InOptions(at: nat) | InMessage(at: nat)

  function FieldStart(overload: u8): nat {
    if overload == 1 then FILE else SNAME
  }

  function FieldEnd(overload: u8): nat {
    if overload == 2 then SNAME + SNAME_LEN else FILE + FILE_LEN
  }

  function Pointed(o: seq<u8>, m: seq<u8>, kind: u8): Pointer
    requires |m| == MSG_LEN && Scan(o, 0, kind, 0) != Beyond
  {
    match Scan(o, 0, kind, 0)
    case Hit(i) => InOptions(i)
    case Miss(overload) =>
      if overload == 0 then Null
      else
        match ScanField(m, FieldStart(overload), FieldEnd(overload), kind)
        case Hit(i) => InMessage(i)
        case _ => Null
  }

  /** dhcp_get_option_ptr. */
  method GetOptionPtr(o: seq<u8>, m: seq<u8>, kind: u8) returns (p: Pointer)
    requires |m| == MSG_LEN && |o| + 0x200 < 0x1_0000 && Scan(o, 0, kind, 0) != Beyond
    ensures p == Pointed(o, m, kind)
  {
    var overload: u8 := 0;
    if |o| > 0 {
      var offset: u16 := 0;
      while offset < |o| && o[offset] != OPTION_END
        invariant Scan(o, 0, kind, 0) == Scan(o, offset, kind, overload)
        decreases |o| - offset
      {
        if o[offset] == OPTION_OVERLOAD {
          offset := offset + 2;
          overload := o[offset];
          offset := offset + 1;
        } else if o[offset] == kind {
          return InOptions(offset);
        } else {
          offset := offset + 1;
          offset := offset + 1 + o[offset];
        }
      }
      if overload != 0 {
        var start, end := FieldStart(overload), FieldEnd(overload);
        var at: nat := start;
        while at < end && m[at] != OPTION_END
          invariant ScanField(m, start, end, kind) == ScanField(m, at, end, kind)
          decreases end - at
        {
          if m[at] == kind {
            return InMessage(at);
          }
          at := at + 1;
          at := at + 1 + m[at];
        }
      }
    }
    return Null;
  }

  /** dhcp_get_option_byte, dhcp_get_option_short and dhcp_get_option_long. */
  function GetByte(s: seq<u8>, i: nat): u8
    requires i < |s|
  {
    s[i]
  }

  function GetShort(s: seq<u8>, i: nat): u16
    requires i + 1 < |s|
  {
    Word(s[i + 1], s[i])
  }

  function GetLong(s: seq<u8>, i: nat): u32
    requires i + 3 < |s|
  {
    (GetShort(s, i) as int) * 0x1_0000 + GetShort(s, i + 2)
  }

  // ---------------------------------------------------------------------------------------------
  // Round trips

  /** Options that can be found again: no type is that of END or OVERLOAD, and they fit. */
  ghost predicate Usable(os: seq<Option>) {
    Encodable(os) && forall i :: 0 <= i < |os| ==> os[i].kind != OPTION_END && os[i].kind != OPTION_OVERLOAD
  }

  /** The first option of a type, or the number of options. */
  function FirstOf(os: seq<Option>, kind: u8): (k: nat)
    ensures k <= |os|
    ensures k < |os| ==> os[k].kind == kind
    ensures forall i :: 0 <= i < k ==> os[i].kind != kind
  {
    if os == [] || os[0].kind == kind then 0 else 1 + FirstOf(os[1..], kind)
  }

  /** Writing a header and the data behind encoded options adds the option. */
  lemma {:induction false} EncodeMore(os: seq<Option>, x: Option)
    requires Encodable(os) && |x.data| < 0x100
    ensures Encodable(os + [x])
    ensures Encode(os + [x]) == Encode(os) + [x.kind, |x.data|] + x.data
  {
    if os == [] {
      assert [x][1..] == [];
    } else {
      assert (os + [x])[1..] == os[1..] + [x];
      EncodeMore(os[1..], x);
    }
  }

  /** The first options take no more room than all. */
  lemma {:induction false} EncodeFront(os: seq<Option>, k: nat)
    requires Encodable(os) && k <= |os|
    ensures |Encode(os[..k])| <= |Encode(os)|
    decreases k
  {
    if k > 0 {
      EncodeFront(os[1..], k - 1);
      assert os[..k][1..] == os[1..][..k - 1];
    }
  }

  /** Where option k begins. */
  function Place(os: seq<Option>, k: nat): nat
    requires k <= |os|
  {
    if k == 0 then 0 else 2 + |os[0].data| + Place(os[1..], k - 1)
  }

  lemma {:induction false} PlaceInside(os: seq<Option>, k: nat)
    requires Usable(os) && k <= |os|
    ensures k < |os| ==> Place(os, k) + 2 + |os[k].data| <= |Encode(os)|
    ensures k < |os| ==>
            Encode(os)[Place(os, k)..Place(os, k) + 2 + |os[k].data|] == [os[k].kind, |os[k].data|] + os[k].data
    decreases k
  {
    if k > 0 {
      PlaceInside(os[1..], k - 1);
      var head := [os[0].kind, |os[0].data|] + os[0].data;
      assert Encode(os) == head + Encode(os[1..]);
    }
  }

  /** In any bytes that go on with the options and END, the search finds the first option of the type, or
      nothing. */
  lemma {:induction false} ScanFinds(o: seq<u8>, i: nat, os: seq<Option>, kind: u8)
    requires Usable(os)
    requires i + |Encode(os)| < |o| && o[i..i + |Encode(os)|] == Encode(os) && o[i + |Encode(os)|] == OPTION_END
    ensures Scan(o, i, kind, 0) == if FirstOf(os, kind) < |os| then Hit(i + Place(os, FirstOf(os, kind))) else Miss(0)
    decreases |os|
  {
    EncodeNothing();
    hide Encode;
    hide Place;
    if os != [] {
      FirstOption(o, i, os);
      PlaceNext(os, kind);
      if os[0].kind != kind {
        ScanFinds(o, i + 2 + |os[0].data|, os[1..], kind);
      }
    }
  }

  lemma EncodeNothing()
    ensures Encode([]) == []
  {
  }

  /** Where the first option of a type lies, when it is not the first option. */
  lemma PlaceNext(os: seq<Option>, kind: u8)
    requires os != []
    ensures Place(os, 0) == 0
    ensures os[0].kind != kind && FirstOf(os, kind) < |os| ==>
              Place(os, FirstOf(os, kind)) == 2 + |os[0].data| + Place(os[1..], FirstOf(os[1..], kind))
  {
  }

  lemma SliceOfSlice(o: seq<u8>, a: nat, b: nat, c: nat, d: nat)
    requires a <= b <= |o| && c <= d <= b - a
    ensures o[a..b][c..d] == o[a + c..a + d]
  {
    forall k | 0 <= k < d - c ensures o[a..b][c..d][k] == o[a + c..a + d][k] {
      assert o[a..b][c..d][k] == o[a..b][c + k] == o[a + (c + k)];
    }
    assert o[a..b][c..d] == o[a + c..a + d];
  }

  /** The first option and the others, in the bytes. */
  lemma FirstOption(o: seq<u8>, i: nat, os: seq<Option>)
    requires os != [] && Encodable(os)
    requires i + |Encode(os)| < |o| && o[i..i + |Encode(os)|] == Encode(os)
    ensures o[i] == os[0].kind && o[i + 1] == |os[0].data|
    ensures var n, rest := 2 + |os[0].data|, Encode(os[1..]);
            i + |Encode(os)| == i + n + |rest| && o[i + n..i + n + |rest|] == rest
  {
    hide Encode;
    hide Encodable;
    EncodeParts(os);
    var n, all := 2 + |os[0].data|, Encode(os);
    SliceAt(o, i, all, 0);
    SliceAt(o, i, all, 1);
    SliceBehind(o, i, all, n);
  }

  lemma SliceAt(o: seq<u8>, i: nat, all: seq<u8>, k: nat)
    requires i + |all| <= |o| && o[i..i + |all|] == all && k < |all|
    ensures o[i + k] == all[k]
  {
    assert o[i..i + |all|][k] == o[i + k];
  }

  lemma SliceBehind(o: seq<u8>, i: nat, all: seq<u8>, n: nat)
    requires i + |all| <= |o| && o[i..i + |all|] == all && n <= |all|
    ensures o[i + n..i + |all|] == all[n..|all|]
  {
    SliceOfSlice(o, i, i + |all|, n, |all|);
  }

  lemma EncodeParts(os: seq<Option>)
    requires os != [] && Encodable(os)
    ensures var n, all, rest := 2 + |os[0].data|, Encode(os), Encode(os[1..]);
            |all| == n + |rest| && all[0] == os[0].kind && all[1] == |os[0].data| && all[n..|all|] == rest
  {
    var head := [os[0].kind, |os[0].data|] + os[0].data;
    assert Encode(os) == head + Encode(os[1..]);
  }

  /** Built, closed, cut into any chain of buffers, unfolded and searched: the first option of each type is
      found with its data, and types that are not there are not found. */
  lemma OptionsRoundTrip(msg: seq<u8>, os: seq<Option>, chain: seq<seq<u8>>, kind: u8)
    requires |msg| == MSG_LEN && Usable(os)
    requires |Encode(os)| < OPTIONS_LEN && Flatten(chain) == msg + Closed(Encode(os))
    ensures var o := Flatten(chain)[MSG_LEN..]; var k := FirstOf(os, kind);
            && Flatten(chain)[..MSG_LEN] == msg
            && Scan(o, 0, kind, 0) != Beyond
            && (k == |os| ==> Pointed(o, msg, kind) == Null)
            && (k < |os| ==>
                  && Pointed(o, msg, kind) == InOptions(Place(os, k))
                  && Place(os, k) + 2 + |os[k].data| <= |o|
                  && GetByte(o, Place(os, k) + 1) == |os[k].data|
                  && o[Place(os, k) + 2..Place(os, k) + 2 + |os[k].data|] == os[k].data)
  {
    hide Encode;
    hide Scan;
    hide Place;
    hide Flatten;
    var s := Encode(os);
    var o := Closed(s);
    SplitAt(Flatten(chain), msg, o);
    ClosedParts(s);
    hide Closed;
    ScanFinds(o, 0, os, kind);
    var k := FirstOf(os, kind);
    if k < |os| {
      PlaceInside(os, k);
      Slices(o, s, Place(os, k), os[k]);
    }
  }

  lemma SplitAt(all: seq<u8>, msg: seq<u8>, o: seq<u8>)
    requires all == msg + o
    ensures all[..|msg|] == msg && all[|msg|..] == o
  {
  }

  lemma ClosedParts(s: seq<u8>)
    requires |s| < OPTIONS_LEN
    ensures |Closed(s)| == OPTIONS_LEN && Closed(s)[..|s|] == s && Closed(s)[0..0 + |s|] == s
            && Closed(s)[|s|] == OPTION_END
  {
  }

  /** The parts of an option that lies at place p. */
  lemma Slices(o: seq<u8>, s: seq<u8>, p: nat, x: Option)
    requires |s| <= |o| && o[..|s|] == s && |x.data| < 0x100 && p + 2 + |x.data| <= |s|
    requires s[p..p + 2 + |x.data|] == [x.kind, |x.data|] + x.data
    ensures o[p + 1] == |x.data| && o[p + 2..p + 2 + |x.data|] == x.data
  {
    var n := |x.data|;
    SliceOfSlice(o, 0, |s|, p, p + 2 + n);
    assert o[0..|s|] == s;
    var whole := [x.kind, |x.data|] + x.data;
    assert o[p..p + 2 + n] == whole && o[p + 1] == whole[1];
    SliceOfSlice(o, p, p + 2 + n, 2, 2 + n);
    assert whole[2..2 + n] == x.data;
  }

  /** The values come back from the data that holds them. */
  lemma ValuesRoundTrip(s: seq<u8>, i: nat, short: u16, long: u32)
    ensures i + 2 <= |s| && s[i..i + 2] == ShortBytes(short) ==> GetShort(s, i) == short
    ensures i + 4 <= |s| && s[i..i + 4] == LongBytes(long) ==> GetLong(s, i) == long
  {
    if i + 2 <= |s| && s[i..i + 2] == ShortBytes(short) {
      assert s[i] == s[i..i + 2][0] && s[i + 1] == s[i..i + 2][1];
    }
    if i + 4 <= |s| && s[i..i + 4] == LongBytes(long) {
      assert s[i] == s[i..i + 4][0] && s[i + 1] == s[i..i + 4][1] && s[i + 2] == s[i..i + 4][2]
             && s[i + 3] == s[i..i + 4][3];
      LongParts(long);
    }
  }

  function Sum(lens: seq<nat>): nat {
    if lens == [] then 0 else lens[0] + Sum(lens[1..])
  }

  /** A message cut into buffers of the given lengths. */
  function Cut(s: seq<u8>, lens: seq<nat>): (chain: seq<seq<u8>>)
    requires Sum(lens) == |s|
    ensures Flatten(chain) == s
    ensures (forall i :: 0 <= i < |lens| ==> lens[i] > 0) ==> NonEmpty(chain)
    decreases |lens|
  {
    if lens == [] then [] else [s[..lens[0]]] + Cut(s[lens[0]..], lens[1..])
  }

  /** What one side writes the other side finds: the options are written and closed, the message is sent in
      any cut, unfolded and searched, and the values are read. */
  method Exchange(msg: seq<u8>, os: seq<Option>, lens: seq<nat>, kind: u8) returns (o: seq<u8>, p: Pointer)
    requires |msg| == MSG_LEN && Usable(os) && |Encode(os)| < OPTIONS_LEN
    requires Sum(lens) == MSG_LEN + OPTIONS_LEN && forall i :: 0 <= i < |lens| ==> lens[i] > 0
    ensures o == Closed(Encode(os))
    ensures p == if FirstOf(os, kind) < |os| then InOptions(Place(os, FirstOf(os, kind))) else Null
    ensures p.InOptions? ==>
              var data := os[FirstOf(os, kind)].data;
              && p.at + 2 + |data| <= |o| && GetByte(o, p.at + 1) == |data| && o[p.at + 2..p.at + 2 + |data|] == data
              && (forall v: u16 :: data == ShortBytes(v) ==> GetShort(o, p.at + 2) == v)
              && (forall v: u32 :: data == LongBytes(v) ==> GetLong(o, p.at + 2) == v)
  {
    hide Encode;
    hide Closed;
    hide Scan;
    hide ScanField;
    hide Place;
    hide Flatten;
    hide Cut;
    hide GetShort;
    hide GetLong;
    hide ShortBytes;
    hide LongBytes;
    var w := new Writer();
    w.Options(os);
    w.Trailer();
    ClosedParts(Encode(os));
    var sent := msg + w.options[..w.outLen];
    var chain := Cut(sent, lens);
    SplitAt(sent, msg, Closed(Encode(os)));
    OptionsRoundTrip(msg, os, chain, kind);
    var r := Unfold(chain, true, true);
    o := r.options;
    p := GetOptionPtr(r.options, r.msg, kind);
    if p.InOptions? {
      ValuesReadBack(o, p.at + 2, os[FirstOf(os, kind)].data);
    }
  }

  lemma ValuesReadBack(o: seq<u8>, at: nat, data: seq<u8>)
    requires at + |data| <= |o| && o[at..at + |data|] == data
    ensures forall v: u16 :: data == ShortBytes(v) ==> GetShort(o, at) == v
    ensures forall v: u32 :: data == LongBytes(v) ==> GetLong(o, at) == v
  {
    hide GetShort;
    hide GetLong;
    hide ShortBytes;
    hide LongBytes;
    forall v: u16 | data == ShortBytes(v) ensures GetShort(o, at) == v {
      ValuesRoundTrip(o, at, v, 0);
    }
    forall v: u32 | data == LongBytes(v) ensures GetLong(o, at) == v {
      ValuesRoundTrip(o, at, 0, v);
    }
  }

  lemma LongParts(v: u32)
    ensures (Word(v / 0x1_0000 % 0x100, v / 0x100_0000) as int) * 0x1_0000 + Word(v % 0x100, v / 0x100 % 0x100) == v
  {
    FourParts(v);
    hide Word;
    WordIs(v / 0x1_0000 % 0x100, v / 0x100_0000);
    WordIs(v % 0x100, v / 0x100 % 0x100);
  }

  lemma WordIs(lo: u8, hi: u8)
    ensures Word(lo, hi) == lo + 0x100 * (hi as int)
  {
  }

  lemma FourParts(v: int)
    ensures v == v % 0x100 + 0x100 * (v / 0x100 % 0x100)
                 + 0x1_0000 * (v / 0x1_0000 % 0x100) + 0x100_0000 * (v / 0x100_0000)
  {
    var a := v / 0x100;
    var b := a / 0x100;
    assert b == v / 0x1_0000;
    assert b / 0x100 == v / 0x100_0000;
  }
}
