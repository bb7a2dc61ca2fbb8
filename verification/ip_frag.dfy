/** Cutting an IP packet into fragments: ip_frag and its copy from a chain of buffers. */
module IpFrag {
  import opened Bytes
  import opened Checksum
  import opened IpHeader

  const MAX_MTU := 1500

  /** A fragment on the wire: its header and the data its length field covers. */
  datatype Fragment = Fragment(head: Header, data: seq<u8>) {
    /** The bytes of the datagram it carries. */
    function Lo(): nat { 8 * head.Offset() }
    function Hi(): nat { Lo() + |data| }
  }

  /** The blocks of 8 bytes that fit into a frame. */
  function Blocks(mtu: nat): (n: nat)
    requires 28 <= mtu
    ensures 0 < n && 8 * n <= mtu - IP_HLEN
  {
    (mtu - IP_HLEN) / 8
  }

  /** The header of the fragment with n bytes from position pos on. */
  function FragmentHead(h: Header, pos: nat, n: nat, last: bool): Header
    requires n + IP_HLEN < 0x1_0000
  {
    Finish(h.(frag := (if h.More() || !last then IP_MF else 0) + (h.Offset() + pos / 8) % 0x2000, len := n + IP_HLEN))
  }

  /** The size of the fragment from position pos on. */
  function Size(data: seq<u8>, mtu: nat, pos: nat): (n: nat)
    requires 28 <= mtu <= MAX_MTU && pos < |data|
    ensures 0 < n <= mtu - IP_HLEN && pos + n <= |data|
    ensures pos + n < |data| ==> n % 8 == 0
  {
    if |data| - pos <= mtu - IP_HLEN then |data| - pos else 8 * Blocks(mtu)
  }

  /** The fragment from position pos on. */
  function FragmentAt(h: Header, data: seq<u8>, mtu: nat, pos: nat): Fragment
    requires 28 <= mtu <= MAX_MTU && pos < |data|
  {
    var n := Size(data, mtu, pos);
    Fragment(FragmentHead(h, pos, n, pos + n == |data|), data[pos..pos + n])
  }

  /** The fragments of the data from position pos on. */
  function Fragments(h: Header, data: seq<u8>, mtu: nat, pos: nat): seq<Fragment>
    requires 28 <= mtu <= MAX_MTU
    decreases |data| - pos
  {
    if pos >= |data| then []
    else [FragmentAt(h, data, mtu, pos)] + Fragments(h, data, mtu, pos + Size(data, mtu, pos))
  }

  /** A frame that carries a fragment; the frame may be longer than the fragment. */
  predicate Carries(frame: seq<u8>, f: Fragment) {
    && |frame| >= IP_HLEN + |f.data|
    && frame[..IP_HLEN] == Wire(f.head)
    && frame[IP_HLEN..IP_HLEN + |f.data|] == f.data
  }

  /** A buffer with the data written at an offset. */
  function Splice(s: seq<u8>, at: nat, data: seq<u8>): (r: seq<u8>)
    requires at + |data| <= |s|
    ensures |r| == |s|
    ensures forall i :: 0 <= i < |s| ==> r[i] == if at <= i < at + |data| then data[i - at] else s[i]
  {
    s[..at] + data + s[at + |data|..]
  }

  lemma SpliceMore(s: seq<u8>, at: nat, all: seq<u8>, m: nat, n: nat)
    requires m <= n <= |all| && at + n <= |s|
    ensures Splice(Splice(s, at, all[..m]), at + m, all[m..n]) == Splice(s, at, all[..n])
  {
  }

  lemma SpliceNothing(s: seq<u8>, at: nat, all: seq<u8>)
    requires at <= |s|
    ensures Splice(s, at, all[..0]) == s
  {
  }

  method Memcpy(buffer: array<u8>, at: nat, data: seq<u8>)
    requires at + |data| <= buffer.Length
    modifies buffer
    ensures buffer[..] == Splice(old(buffer[..]), at, data)
  {
    forall i | 0 <= i < |data| {
      buffer[at + i] := data[i];
    }
  }

  /** copy_from_pbuf: copies len bytes of the chain, from an offset in its first buffer, to the buffer.
      The rest of the chain and the offset in it are where the next copy goes on. */
  method CopyFromPbuf(p: seq<seq<u8>>, offset: nat, buffer: array<u8>, at: nat, len: nat)
    returns (q: seq<seq<u8>>, end: nat)
    requires p != [] && offset <= |p[0]| && offset + len <= |Flatten(p)| && at + len <= buffer.Length
    modifies buffer
    ensures buffer[..] == Splice(old(buffer[..]), at, Flatten(p)[offset..offset + len])
    ensures len > 0 ==> q != [] && end <= |q[0]| <= |Flatten(q)| && Flatten(q)[end..] == Flatten(p)[offset + len..]
    ensures len == 0 ==> q == [p[0][offset..]] + p[1..] && end == offset
  {
    hide Splice;
    hide Flatten;
    q := [p[0][offset..]] + p[1..];
    end := offset;
    ghost var all := Flatten(p)[offset..];
    ghost var s := buffer[..];
    AdvancePayload(p, offset);
    SpliceNothing(s, at, all);
    Tails(Flatten(p), offset, len);
    var left := len;
    while left > 0
      invariant 0 <= left <= len
      invariant left > 0 ==> Flatten(q) == all[len - left..]
      invariant left == 0 < len ==> q != [] && end <= |q[0]| <= |Flatten(q)| && Flatten(q)[end..] == all[len..]
      invariant len == 0 ==> q == [p[0][offset..]] + p[1..] && end == offset
      invariant buffer[..] == Splice(s, at, all[..len - left])
      decreases |q|, left
    {
      ghost var done := len - left;
      CopyStep(all, q, done, len);
      var l := if left < |q[0]| then left else |q[0]|;
      SpliceMore(s, at, all, done, done + l);
      Memcpy(buffer, at + (len - left), q[0][..l]);
      left := left - l;
      if left > 0 {
        q := q[1..];
      } else {
        end := l;
      }
    }
  }

  lemma Tails(s: seq<u8>, offset: nat, len: nat)
    requires offset + len <= |s|
    ensures s[offset..][..len] == s[offset..offset + len] && s[offset..][len..] == s[offset + len..]
  {
  }

  /** One round of the copy. */
  lemma CopyStep(all: seq<u8>, q: seq<seq<u8>>, done: nat, len: nat)
    requires done < len <= |all| && Flatten(q) == all[done..]
    ensures q != []
    ensures var l := if len - done < |q[0]| then len - done else |q[0]|;
            && done + l <= len
            && q[0][..l] == all[done..done + l]
            && (done + l < len ==> Flatten(q[1..]) == all[done + l..])
            && (done + l == len ==> l <= |q[0]| <= |Flatten(q)| && Flatten(q)[l..] == all[len..])
  {
    FlattenFront(q);
    hide Flatten;
    var l := if len - done < |q[0]| then len - done else |q[0]|;
    assert q[0][..l] == Flatten(q)[..l] == all[done..done + l];
    assert Flatten(q)[l..] == all[done + l..];
  }

  lemma FlattenFront(q: seq<seq<u8>>)
    requires |Flatten(q)| > 0
    ensures q != [] && Flatten(q) == q[0] + Flatten(q[1..])
    ensures Flatten(q)[|q[0]|..] == Flatten(q[1..])
  {
  }

  lemma AdvancePayload(p: seq<seq<u8>>, offset: nat)
    requires p != [] && offset <= |p[0]|
    ensures offset <= |Flatten(p)|
    ensures Flatten([p[0][offset..]] + p[1..]) == Flatten(p)[offset..]
  {
    assert ([p[0][offset..]] + p[1..])[1..] == p[1..];
  }

  // ---------------------------------------------------------------------------------------------
  // ip_frag

  /** Headers that differ in length, fragment field and checksum only. */
  predicate SameBut(h: Header, k: Header) {
    h.(len := 0, frag := 0, chksum := 0) == k.(len := 0, frag := 0, chksum := 0)
  }

  lemma FragmentHeadOf(h: Header, k: Header, frag: u16, len: u16)
    requires SameBut(h, k)
    ensures Finish(h.(frag := frag, len := len)) == Finish(k.(frag := frag, len := len))
    ensures SameBut(Finish(h.(frag := frag, len := len)), k)
  {
    assert h.(frag := frag, len := len, chksum := 0) == k.(frag := frag, len := len, chksum := 0);
  }

  /** The frame of a fragment, in the buffer that holds it. */
  lemma FrameCarries(s: seq<u8>, f: Fragment, n: nat)
    requires IP_HLEN + |f.data| <= n <= |s|
    requires s[..IP_HLEN] == Wire(f.head) && s[IP_HLEN..IP_HLEN + |f.data|] == f.data
    ensures Carries(s[..n], f)
  {
    assert s[..n][..IP_HLEN] == s[..IP_HLEN];
    assert s[..n][IP_HLEN..IP_HLEN + |f.data|] == s[IP_HLEN..IP_HLEN + |f.data|];
  }

  /** The frames sent so far carry the fragments so far. */
  ghost predicate AllCarried(out: seq<seq<u8>>, fs: seq<Fragment>) {
    |out| == |fs| && forall k :: 0 <= k < |fs| ==> Carries(out[k], fs[k])
  }

  lemma OneMore(out: seq<seq<u8>>, fs: seq<Fragment>, frame: seq<u8>, f: Fragment)
    requires AllCarried(out, fs) && Carries(frame, f)
    ensures AllCarried(out + [frame], fs + [f])
  {
  }

  /** The fragments so far, when the data up to pos is sent. */
  ghost predicate Progress(h: Header, data: seq<u8>, mtu: nat, pos: nat, fs: seq<Fragment>)
    requires 28 <= mtu <= MAX_MTU
  {
    fs + Fragments(h, data, mtu, pos) == Fragments(h, data, mtu, 0)
  }

  lemma ProgressStarts(h: Header, data: seq<u8>, mtu: nat)
    requires 28 <= mtu <= MAX_MTU
    ensures Progress(h, data, mtu, 0, [])
  {
  }

  lemma ProgressStep(h: Header, data: seq<u8>, mtu: nat, pos: nat, fs: seq<Fragment>)
    requires 28 <= mtu <= MAX_MTU && pos < |data| && Progress(h, data, mtu, pos, fs)
    ensures Progress(h, data, mtu, pos + Size(data, mtu, pos), fs + [FragmentAt(h, data, mtu, pos)])
  {
    var f, rest := FragmentAt(h, data, mtu, pos), Fragments(h, data, mtu, pos + Size(data, mtu, pos));
    assert Fragments(h, data, mtu, pos) == [f] + rest;
    assert Fragments(h, data, mtu, 0) == fs + ([f] + rest);
    hide FragmentAt;
    hide Fragments;
    hide Size;
    assert fs + ([f] + rest) == (fs + [f]) + rest;
  }

  lemma ProgressEnds(h: Header, data: seq<u8>, mtu: nat, pos: nat, fs: seq<Fragment>)
    requires 28 <= mtu <= MAX_MTU && pos >= |data| && Progress(h, data, mtu, pos, fs)
    ensures fs == Fragments(h, data, mtu, 0)
  {
    assert fs + [] == fs;
  }

  lemma FrameInBuffer(s: seq<u8>, head: Header, data: seq<u8>, n: nat)
    requires IP_HLEN + |data| <= n <= |s|
    ensures Carries(Splice(Splice(s, IP_HLEN, data), 0, Wire(head))[..n], Fragment(head, data))
  {
    var r := Splice(Splice(s, IP_HLEN, data), 0, Wire(head));
    hide Wire;
    assert r[..IP_HLEN] == Wire(head);
    assert r[IP_HLEN..IP_HLEN + |data|] == data;
    FrameCarries(r, Fragment(head, data), n);
  }

  /** Fills the frame: the next cop bytes of the chain, behind the header. */
  method FillFrame(q0: seq<seq<u8>>, poff: nat, buf: array<u8>, h: Header, cop: nat, n: nat)
    returns (q: seq<seq<u8>>, end: nat, frame: seq<u8>)
    requires q0 != [] && poff <= |q0[0]| && poff + cop <= |Flatten(q0)| && 0 < cop && IP_HLEN + cop <= n <= buf.Length
    modifies buf
    ensures q != [] && end <= |q[0]| <= |Flatten(q)| && Flatten(q)[end..] == Flatten(q0)[poff + cop..]
    ensures Carries(frame, Fragment(h, Flatten(q0)[poff..poff + cop])) && |frame| == n
  {
    hide Flatten;
    hide Wire;
    hide Splice;
    hide Carries;
    FrameInBuffer(buf[..], h, Flatten(q0)[poff..poff + cop], n);
    q, end := CopyFromPbuf(q0, poff, buf, IP_HLEN, cop);
    Memcpy(buf, 0, Wire(h));
    frame := buf[..n];
  }

  /** The rest of the data, after another piece of it. */
  lemma RestOfData(q0: seq<u8>, poff: nat, q: seq<u8>, end: nat, data: seq<u8>, pos: nat, cop: nat)
    requires poff <= |q0| && pos + cop <= |data| && q0[poff..] == data[pos..]
    requires end <= |q| && poff + cop <= |q0| && q[end..] == q0[poff + cop..]
    ensures q0[poff..poff + cop] == data[pos..pos + cop] && q[end..] == data[pos + cop..]
  {
    assert q0[poff..][..cop] == q0[poff..poff + cop] && data[pos..][..cop] == data[pos..pos + cop];
    assert q0[poff..][cop..] == q0[poff + cop..] && data[pos..][cop..] == data[pos + cop..];
  }

  /** What the loop still has to send: left bytes of the data, from the offset poff of the chain on. */
  ghost predicate Remains(q: seq<seq<u8>>, poff: nat, data: seq<u8>, pos: nat) {
    q != [] && poff <= |q[0]| && poff <= |Flatten(q)| && pos <= |data| && Flatten(q)[poff..] == data[pos..]
  }

  lemma RemainsStart(p: seq<seq<u8>>)
    requires p != [] && IP_HLEN <= |p[0]|
    ensures IP_HLEN <= |Flatten(p)| && Remains(p, IP_HLEN, Flatten(p)[IP_HLEN..], 0)
  {
  }

  /** The next cop bytes are those of the data, and the rest remains. */
  lemma RemainsNext(q: seq<seq<u8>>, poff: nat, data: seq<u8>, pos: nat, cop: nat)
    requires Remains(q, poff, data, pos) && pos + cop <= |data|
    ensures q != [] && poff <= |q[0]| && poff + cop <= |Flatten(q)|
    ensures Flatten(q)[poff..poff + cop] == data[pos..pos + cop]
    ensures forall q': seq<seq<u8>>, end: nat ::
              q' != [] && end <= |q'[0]| <= |Flatten(q')| && Flatten(q')[end..] == Flatten(q)[poff + cop..] ==>
                Remains(q', end, data, pos + cop)
  {
    hide Flatten;
    assert |Flatten(q)| - poff == |data| - pos;
    forall q': seq<seq<u8>>, end: nat
      | q' != [] && end <= |q'[0]| <= |Flatten(q')| && Flatten(q')[end..] == Flatten(q)[poff + cop..]
      ensures Remains(q', end, data, pos + cop)
    {
      RestOfData(Flatten(q), poff, Flatten(q'), end, data, pos, cop);
    }
    assert Flatten(q)[poff..][..cop] == Flatten(q)[poff..poff + cop];
    assert data[pos..][..cop] == data[pos..pos + cop];
  }

  /** The header and size that the loop computes are those of the fragment. */
  lemma LoopFragment(h: Header, h0: Header, data: seq<u8>, mtu: nat, pos: nat, cop: nat, frag: u16)
    requires 28 <= mtu <= MAX_MTU && pos < |data| && pos % 8 == 0 && SameBut(h, h0)
    requires cop == if |data| - pos <= mtu - IP_HLEN then |data| - pos else 8 * Blocks(mtu)
    requires frag == (if h0.More() || |data| - pos > mtu - IP_HLEN then IP_MF else 0) + (h0.Offset() + pos / 8) % 0x2000
    ensures cop == Size(data, mtu, pos)
    ensures Fragment(Finish(h.(frag := frag, len := cop + IP_HLEN)), data[pos..pos + cop]) ==
            FragmentAt(h0, data, mtu, pos)
    ensures SameBut(Finish(h.(frag := frag, len := cop + IP_HLEN)), h0)
    ensures pos + cop < |data| ==> cop == 8 * Blocks(mtu)
  {
    hide Finish;
    FragmentHeadOf(h, h0, frag, cop + IP_HLEN);
    hide SameBut;
  }

  /** ip_frag: the packet in the chain goes out as frames that carry the fragments of its data. */
  method Frag(p: seq<seq<u8>>, mtu: nat, buf: array<u8>) returns (out: seq<seq<u8>>)
    requires 28 <= mtu <= MAX_MTU == buf.Length
    requires p != [] && IP_HLEN <= |p[0]| && |Flatten(p)| < 0x1_0000
    modifies buf
    ensures AllCarried(out, Fragments(Parse(p[0]), Flatten(p)[IP_HLEN..], mtu, 0))
  {
    hide Flatten;
    hide Parse;
    hide Carries;
    hide AllCarried;
    hide Fragments;
    hide FragmentAt;
    hide Size;
    hide Finish;
    hide SameBut;
    hide Progress;
    hide Remains;
    var h := Parse(p[0]);
    RemainsStart(p);
    ghost var h0, data := h, Flatten(p)[IP_HLEN..];
    ghost var pos: nat, fs: seq<Fragment> := 0, [];
    var ofo, omf := h.Offset(), h.More();
    var nfb: nat, q, poff: nat := 0, p, IP_HLEN;
    var left := TotLen(p) - IP_HLEN;
    out := [];
    NothingCarried();
    SameHeader(h0);
    ProgressStarts(h0, data, mtu);
    while left > 0
      invariant 0 <= left && pos + left == |data|
      invariant left > 0 ==> Remains(q, poff, data, pos)
      invariant left > 0 ==> pos % 8 == 0 && ofo + nfb == h0.Offset() + pos / 8
      invariant SameBut(h, h0) && omf == h0.More()
      invariant AllCarried(out, fs) && Progress(h0, data, mtu, pos, fs)
    {
      var last := left <= mtu - IP_HLEN;
      ofo := ofo + nfb;
      nfb := Blocks(mtu);
      var cop := if last then left else 8 * nfb;
      var frag := (if omf || !last then IP_MF else 0) + ofo % 0x2000;
      LoopFragment(h, h0, data, mtu, pos, cop, frag);
      h := Finish(h.(frag := frag, len := cop + IP_HLEN));
      RemainsNext(q, poff, data, pos, cop);
      var frame;
      q, poff, frame := FillFrame(q, poff, buf, h, cop, if last then left + IP_HLEN else mtu);
      OneMore(out, fs, frame, FragmentAt(h0, data, mtu, pos));
      ProgressStep(h0, data, mtu, pos, fs);
      out := out + [frame];
      fs := fs + [FragmentAt(h0, data, mtu, pos)];
      pos := pos + cop;
      left := left - cop;
    }
    ProgressEnds(h0, data, mtu, pos, fs);
  }

  lemma SameHeader(h: Header)
    ensures SameBut(h, h)
  {
  }

  lemma NothingCarried()
    ensures AllCarried([], [])
  {
  }

  // ---------------------------------------------------------------------------------------------
  // What the fragments are

  /** f is a part of the datagram with header h and the given data, which may itself be a fragment. */
  ghost predicate Part(f: Fragment, h: Header, data: seq<u8>) {
    var base := 8 * h.Offset();
    && base <= f.Lo() < f.Hi() <= base + |data|
    && f.data == data[f.Lo() - base..f.Hi() - base]
    && SameBut(f.head, h)
    && f.head.len == IP_HLEN + |f.data|
    && (f.head.More() <==> h.More() || f.Hi() < base + |data|)
    && (f.Hi() < base + |data| ==> f.Hi() % 8 == 0)
    && Chksum(Wire(f.head)) == 0
  }

  lemma HeadFields(h: Header, pos: nat, n: nat, last: bool)
    requires n + IP_HLEN < 0x1_0000 && h.Offset() + pos / 8 < 0x2000
    ensures var k := FragmentHead(h, pos, n, last);
            && k.Offset() == h.Offset() + pos / 8
            && (k.More() <==> h.More() || !last)
            && SameBut(k, h) && k.len == n + IP_HLEN && Chksum(Wire(k)) == 0
  {
    hide Chksum;
    hide Wire;
    FragBits(h.More() || !last, h.Offset() + pos / 8);
    FinishedChecks(h.(frag := (if h.More() || !last then IP_MF else 0) + (h.Offset() + pos / 8) % 0x2000,
        len := n + IP_HLEN));
  }

  lemma FragBits(more: bool, offset: nat)
    requires offset < 0x2000
    ensures offset % 0x2000 == offset
    ensures ((if more then IP_MF else 0) + offset) % 0x2000 == offset
    ensures ((if more then IP_MF else 0) + offset) / IP_MF % 2 == (if more then 1 else 0)
  {
  }

  lemma FirstIsPart(h: Header, data: seq<u8>, mtu: nat, pos: nat)
    requires 28 <= mtu <= MAX_MTU && pos < |data| && pos % 8 == 0 && h.Offset() + |data| / 8 < 0x2000
    ensures Part(FragmentAt(h, data, mtu, pos), h, data)
    ensures FragmentAt(h, data, mtu, pos).Lo() == 8 * h.Offset() + pos
    ensures |FragmentAt(h, data, mtu, pos).data| == Size(data, mtu, pos)
  {
    hide FragmentHead;
    hide Chksum;
    hide Wire;
    hide Size;
    hide SameBut;
    var n := Size(data, mtu, pos);
    HeadFields(h, pos, n, pos + n == |data|);
  }

  /** Fragment k + 1 begins where fragment k ends. */
  predicate Follows(fs: seq<Fragment>, k: int)
    requires 0 <= k < |fs| - 1
  {
    fs[k].Hi() == fs[k + 1].Lo()
  }

  /** The fragments are parts of the datagram; each begins where the one before ends, and the last ends
      with the datagram. */
  ghost predicate Chop(fs: seq<Fragment>, h: Header, data: seq<u8>, pos: nat) {
    && (forall k :: 0 <= k < |fs| ==> Part(fs[k], h, data))
    && (fs != [] ==> fs[0].Lo() == 8 * h.Offset() + pos && fs[|fs| - 1].Hi() == 8 * h.Offset() + |data|)
    && (forall k :: 0 <= k < |fs| - 1 ==> Follows(fs, k))
    && (fs == [] <==> pos >= |data|)
  }

  lemma NextPosition(data: seq<u8>, mtu: nat, pos: nat)
    requires 28 <= mtu <= MAX_MTU && pos < |data| && pos % 8 == 0
    ensures (pos + Size(data, mtu, pos)) % 8 == 0 || pos + Size(data, mtu, pos) == |data|
  {
  }

  lemma {:induction false} FragmentsChop(h: Header, data: seq<u8>, mtu: nat, pos: nat)
    requires 28 <= mtu <= MAX_MTU && h.Offset() + |data| / 8 < 0x2000
    requires pos % 8 == 0 || pos >= |data|
    ensures Chop(Fragments(h, data, mtu, pos), h, data, pos)
    decreases |data| - pos
  {
    hide Part;
    hide Chop;
    hide FragmentAt;
    hide Size;
    if pos >= |data| {
      ChopNothing(h, data, pos);
    } else {
      NextPosition(data, mtu, pos);
      FirstIsPart(h, data, mtu, pos);
      FragmentsChop(h, data, mtu, pos + Size(data, mtu, pos));
      ChopMore(FragmentAt(h, data, mtu, pos), Fragments(h, data, mtu, pos + Size(data, mtu, pos)), h, data, pos);
    }
  }

  lemma ChopNothing(h: Header, data: seq<u8>, pos: nat)
    requires pos >= |data|
    ensures Chop([], h, data, pos)
  {
  }

  lemma ChopMore(f: Fragment, rest: seq<Fragment>, h: Header, data: seq<u8>, pos: nat)
    requires Part(f, h, data) && f.Lo() == 8 * h.Offset() + pos && pos < pos + |f.data| <= |data|
    requires Chop(rest, h, data, pos + |f.data|)
    ensures Chop([f] + rest, h, data, pos)
  {
    hide Part;
    var fs := [f] + rest;
    forall k | 0 <= k < |fs| - 1 ensures Follows(fs, k) {
      if k > 0 {
        assert Follows(rest, k - 1);
      }
    }
  }

  /** Every byte of the datagram is in some fragment. */
  lemma {:induction false} FragmentsCover(fs: seq<Fragment>, h: Header, data: seq<u8>, pos: nat, x: nat)
    requires Chop(fs, h, data, pos) && 8 * h.Offset() + pos <= x < 8 * h.Offset() + |data|
    ensures exists k :: 0 <= k < |fs| && fs[k].Lo() <= x < fs[k].Hi()
    decreases |fs|
  {
    hide Part;
    if x >= fs[0].Hi() {
      ChopRest(fs, h, data, pos);
      FragmentsCover(fs[1..], h, data, pos + |fs[0].data|, x);
      var k :| 0 <= k < |fs[1..]| && fs[1..][k].Lo() <= x < fs[1..][k].Hi();
      assert fs[k + 1].Lo() <= x < fs[k + 1].Hi();
    }
  }

  lemma ChopRest(fs: seq<Fragment>, h: Header, data: seq<u8>, pos: nat)
    requires Chop(fs, h, data, pos) && fs != [] && fs[0].Hi() < 8 * h.Offset() + |data|
    ensures Chop(fs[1..], h, data, pos + |fs[0].data|)
  {
    hide Part;
    assert |fs| > 1 ==> Follows(fs, 0);
    forall k | 0 <= k < |fs[1..]| - 1 ensures Follows(fs[1..], k) {
      assert Follows(fs, k + 1);
    }
  }

  /** Every fragment fits the MTU, and each but the last is as long as blocks of 8 bytes allow. */
  lemma {:induction false} FragmentsFull(h: Header, data: seq<u8>, mtu: nat, pos: nat, k: nat)
    requires 28 <= mtu <= MAX_MTU && k < |Fragments(h, data, mtu, pos)|
    ensures var fs := Fragments(h, data, mtu, pos);
            && |fs[k].data| + IP_HLEN <= mtu
            && (k < |fs| - 1 ==> mtu < |fs[k].data| + IP_HLEN + 8)
    decreases k
  {
    hide FragmentHead;
    var next := pos + Size(data, mtu, pos);
    if k > 0 {
      FragmentsFull(h, data, mtu, next, k - 1);
    } else if next >= |data| {
      assert Fragments(h, data, mtu, next) == [];
    }
  }
}
