/**
 * Reassembly of IP fragments: ip_reass with its buffer, its bitmap of 8-byte blocks, and its timer.
 */
module IpReass {
  import opened Bytes
  import opened Checksum
  import opened IpHeader
  import IpFrag

  const IP_REASS_BUFSIZE := 5760
  const IP_REASS_MAXAGE := 30

  /** The blocks the bitmap has bits for. */
  const BLOCKS := IP_REASS_BUFSIZE / 8

  /** The datagram being put together, if the timer runs: the header of its first fragment, the data, the
      blocks marked as received, and the length once the fragment without MF has come. */
  datatype Reass = Reass(timer: nat, head: Header, buf: seq<u8>, marks: seq<bool>, last: bool, len: nat)

  datatype Result = Nothing | Datagram(bytes: seq<u8>)

  /** The sizes of the buffer and the bitmap. */
  predicate Sized(r: Reass) {
    |r.buf| == IP_REASS_BUFSIZE && |r.marks| == BLOCKS
  }

  /** The length of the data behind a header, in 16 bits. */
  function DataLen(h: Header): nat {
    (h.len - h.Hlen()) % 0x1_0000
  }

  /** Where the data of a fragment begins and ends in the datagram. */
  function Lo(h: Header): nat { 8 * h.Offset() }
  function Hi(h: Header): nat { Lo(h) + DataLen(h) }

  predicate SameDatagram(a: Header, b: Header) {
    a.src == b.src && a.dest == b.dest && a.id == b.id
  }

  predicate Outside(h: Header) {
    Lo(h) > IP_REASS_BUFSIZE || Hi(h) > IP_REASS_BUFSIZE
  }

  /** A packet has at least a header. */
  type Packet = p: seq<u8> | |p| >= IP_HLEN witness seq(IP_HLEN, _ => 0)

  /** The packet has the bytes its length promises, and its data lies in the buffer.  It must not end at
      the very end of the buffer, where the bitmap has no byte. */
  predicate Fits(p: Packet) {
    Hi(Parse(p)) < IP_REASS_BUFSIZE && Parse(p).Hlen() + DataLen(Parse(p)) <= |p|
  }

  /** What is asked of a packet: to fit, unless it is to be refused. */
  predicate Readable(p: Packet) {
    Outside(Parse(p)) || Fits(p)
  }

  function MarkRange(marks: seq<bool>, lo: int, hi: int): (r: seq<bool>)
    ensures |r| == |marks|
    ensures forall b :: 0 <= b < |marks| ==> r[b] == (marks[b] || lo <= b < hi)
  {
    seq(|marks|, b requires 0 <= b < |marks| => marks[b] || lo <= b < hi)
  }

  function NoMarks(): (r: seq<bool>)
    ensures |r| == BLOCKS && forall b :: 0 <= b < BLOCKS ==> !r[b]
  {
    seq(BLOCKS, b => false)
  }

  /** A fragment that comes when no datagram is in the buffer starts a new one. */
  function Start(r: Reass, h: Header): Reass {
    if r.timer == 0
    then r.(timer := IP_REASS_MAXAGE, head := h, marks := NoMarks(), last := false)
    else r
  }

  /** What a fragment brings: data from a block on, and whether more is to come. */
  datatype Piece = Piece(block: nat, data: seq<u8>, more: bool) {
    function Lo(): nat { 8 * block }
    function Hi(): nat { Lo() + |data| }
  }

  predicate InBuffer(x: Piece) { x.Hi() < IP_REASS_BUFSIZE }

  function PieceOf(p: Packet): (x: Piece)
    requires Fits(p)
  {
    var h := Parse(p);
    Piece(h.Offset(), p[h.Hlen()..h.Hlen() + DataLen(h)], h.More())
  }

  /** The data goes into the buffer, its whole blocks are marked, and the last fragment tells the length. */
  function Put(r: Reass, x: Piece): Reass
    requires Sized(r) && InBuffer(x)
  {
    var r1 := r.(buf := IpFrag.Splice(r.buf, x.Lo(), x.data),
        marks := MarkRange(r.marks, x.block, x.block + |x.data| / 8));
    if x.more then r1 else r1.(last := true, len := x.Hi())
  }

  function Store(r: Reass, p: Packet): Reass
    requires Sized(r) && Fits(p)
  {
    Put(r, PieceOf(p))
  }

  /** The check for a full datagram: the blocks of the bytes before the last one but one of the bitmap,
      and the last byte, which has to be exact. */
  predicate Passes(marks: seq<bool>, len: nat)
    requires |marks| == BLOCKS && len < IP_REASS_BUFSIZE
  {
    && (forall b :: 0 <= b < 8 * (len / 64 - 1) ==> marks[b])
    && (forall b :: 8 * (len / 64) <= b < 8 * (len / 64) + 8 ==> (marks[b] <==> b < len / 8))
  }

  predicate Complete(r: Reass)
    requires Sized(r)
  {
    r.last && r.len < IP_REASS_BUFSIZE && Passes(r.marks, r.len)
  }

  /** The header of the whole datagram. */
  function WholeHead(h: Header, len: nat): Header
    requires len + IP_HLEN < 0x1_0000
  {
    Finish(h.(len := len + IP_HLEN, frag := 0))
  }

  /** ip_reass.  memory says whether there are buffers for the datagram. */
  function Receive(r: Reass, p: Packet, memory: bool): (Reass, Result)
    requires Sized(r) && Readable(p)
  {
    var r1 := Start(r, Parse(p));
    if !SameDatagram(r1.head, Parse(p)) then (r1, Nothing)
    else if Outside(Parse(p)) then (r1.(timer := 0), Nothing)
    else
      var r2 := Store(r1, p);
      if Complete(r2) then
        var head := WholeHead(r2.head, r2.len);
        (r2.(timer := 0, head := head, len := r2.len + IP_HLEN),
         if memory then Datagram(Wire(head) + r2.buf[..r2.len]) else Nothing)
      else (r2, Nothing)
  }

  /** ip_reass_timer. */
  function Tick(r: Reass): Reass {
    if r.timer > 0 then r.(timer := r.timer - 1) else r
  }

  /** The state between calls. */
  predicate Ok(r: Reass) {
    Sized(r) && (r.timer > 0 && r.last ==> r.len < IP_REASS_BUFSIZE)
  }

  lemma ReceiveKeeps(r: Reass, p: Packet, memory: bool)
    requires Ok(r) && Readable(p)
    ensures Ok(Receive(r, p, memory).0) && Ok(Tick(r))
  {
  }

  // ---------------------------------------------------------------------------------------------
  // The index and the buffer agree with the fragments

  ghost predicate AllInBuffer(xs: seq<Piece>) {
    forall i :: 0 <= i < |xs| ==> InBuffer(xs[i])
  }

  /** The state after storing a list of fragments. */
  function StoreAll(r: Reass, xs: seq<Piece>): (r': Reass)
    requires Sized(r) && AllInBuffer(xs)
    ensures Sized(r')
  {
    if xs == [] then r
    else Put(StoreAll(r, xs[..|xs| - 1]), xs[|xs| - 1])
  }

  /** A fragment covers a block, or a byte. */
  predicate CoversBlock(x: Piece, b: nat) {
    x.block <= b < x.block + |x.data| / 8
  }

  predicate CoversByte(x: Piece, at: nat) {
    x.Lo() <= at < x.Hi()
  }

  lemma PutMarks(r: Reass, x: Piece, b: nat)
    requires Sized(r) && InBuffer(x) && b < BLOCKS
    ensures Put(r, x).marks[b] <==> r.marks[b] || CoversBlock(x, b)
  {
  }

  lemma PutBytes(r: Reass, x: Piece, at: nat)
    requires Sized(r) && InBuffer(x) && at < IP_REASS_BUFSIZE
    ensures Put(r, x).buf[at] == if CoversByte(x, at) then x.data[at - x.Lo()] else r.buf[at]
  {
  }

  ghost predicate SomeCovers(xs: seq<Piece>, b: nat) {
    exists i :: 0 <= i < |xs| && CoversBlock(xs[i], b)
  }

  lemma SomeCoversMore(xs: seq<Piece>, b: nat)
    requires xs != []
    ensures SomeCovers(xs, b) <==> SomeCovers(xs[..|xs| - 1], b) || CoversBlock(xs[|xs| - 1], b)
  {
    hide CoversBlock;
    var n := |xs| - 1;
    if SomeCovers(xs, b) {
      var i :| 0 <= i < |xs| && CoversBlock(xs[i], b);
      assert i < n ==> CoversBlock(xs[..n][i], b);
    }
    if SomeCovers(xs[..n], b) {
      var i :| 0 <= i < n && CoversBlock(xs[..n][i], b);
      assert CoversBlock(xs[i], b);
    }
  }

  /** A block is marked exactly when it was marked before or some fragment covers it. */
  lemma {:induction false} MarkedIffCovered(r: Reass, xs: seq<Piece>, b: nat)
    requires Sized(r) && b < BLOCKS && AllInBuffer(xs)
    ensures StoreAll(r, xs).marks[b] <==> r.marks[b] || SomeCovers(xs, b)
  {
    hide Put;
    hide CoversBlock;
    hide InBuffer;
    if xs != [] {
      var n := |xs| - 1;
      MarkedIffCovered(r, xs[..n], b);
      PutMarks(StoreAll(r, xs[..n]), xs[n], b);
      SomeCoversMore(xs, b);
    }
  }

  /** A byte of the buffer is the one written by the last fragment that covers it. */
  lemma {:induction false} LastWriterWins(r: Reass, xs: seq<Piece>, at: nat, i: nat)
    requires Sized(r) && at < IP_REASS_BUFSIZE && AllInBuffer(xs)
    requires i < |xs| && CoversByte(xs[i], at) && forall j :: i < j < |xs| ==> !CoversByte(xs[j], at)
    ensures StoreAll(r, xs).buf[at] == xs[i].data[at - xs[i].Lo()]
  {
    hide Put;
    hide InBuffer;
    var n := |xs| - 1;
    PutBytes(StoreAll(r, xs[..n]), xs[n], at);
    if i < n {
      LastWriterWins(r, xs[..n], at, i);
    }
  }

  /** A byte no fragment covers is not written. */
  lemma {:induction false} OthersUntouched(r: Reass, xs: seq<Piece>, at: nat)
    requires Sized(r) && at < IP_REASS_BUFSIZE && AllInBuffer(xs)
    requires forall j :: 0 <= j < |xs| ==> !CoversByte(xs[j], at)
    ensures StoreAll(r, xs).buf[at] == r.buf[at]
  {
    hide Put;
    hide CoversByte;
    hide InBuffer;
    if xs != [] {
      var n := |xs| - 1;
      OthersUntouched(r, xs[..n], at);
      PutBytes(StoreAll(r, xs[..n]), xs[n], at);
    }
  }

  // ---------------------------------------------------------------------------------------------
  // The check

  /** Every whole block of the datagram has come. */
  predicate AllMarked(marks: seq<bool>, len: nat)
    requires |marks| == BLOCKS && len < IP_REASS_BUFSIZE
  {
    forall b :: 0 <= b < len / 8 ==> marks[b]
  }

  /** The byte of the bitmap the check does not look at. */
  predicate UncheckedFull(marks: seq<bool>, len: nat)
    requires |marks| == BLOCKS && len < IP_REASS_BUFSIZE
  {
    forall b :: 0 <= b && 8 * (len / 64 - 1) <= b < 8 * (len / 64) ==> marks[b]
  }

  /** Nothing is marked behind the end, as far as the last byte of the bitmap shows. */
  predicate NoneBehind(marks: seq<bool>, len: nat)
    requires |marks| == BLOCKS && len < IP_REASS_BUFSIZE
  {
    forall b :: len / 8 <= b < 8 * (len / 64) + 8 ==> !marks[b]
  }

  /** A datagram that passes the check is whole exactly when the byte that is not looked at is full, and a
      whole one passes unless something is marked behind its end. */
  lemma PassesExactly(marks: seq<bool>, len: nat)
    requires |marks| == BLOCKS && len < IP_REASS_BUFSIZE
    ensures Passes(marks, len) ==> (AllMarked(marks, len) <==> UncheckedFull(marks, len))
    ensures AllMarked(marks, len) ==> (Passes(marks, len) <==> NoneBehind(marks, len))
  {
  }

  // ---------------------------------------------------------------------------------------------
  // Runs

  /** What arrives: a frame with a fragment of our datagram, a frame of another one, or a timer tick. */
  datatype Event = Own(k: nat, frame: Packet) | Foreign(frame: Packet) | Second

  function Step(r: Reass, e: Event): (Reass, Result)
    requires Ok(r) && (!e.Second? ==> Readable(e.frame))
  {
    if e.Second? then (Tick(r), Nothing) else Receive(r, e.frame, true)
  }

  ghost predicate AllReadable(es: seq<Event>) {
    forall i :: 0 <= i < |es| ==> !es[i].Second? ==> Readable(es[i].frame)
  }

  lemma StepOk(r: Reass, e: Event)
    requires Ok(r) && (!e.Second? ==> Readable(e.frame))
    ensures Ok(Step(r, e).0)
  {
    if !e.Second? {
      ReceiveKeeps(r, e.frame, true);
    }
  }

  /** The state after a run. */
  function Run(r: Reass, es: seq<Event>): (r': Reass)
    requires Ok(r) && AllReadable(es)
    ensures Ok(r')
    decreases |es|
  {
    if es == [] then r
    else
      StepOk(r, es[0]);
      Run(Step(r, es[0]).0, es[1..])
  }

  /** No step of a run hands anything up. */
  predicate Silent(r: Reass, es: seq<Event>)
    requires Ok(r) && AllReadable(es)
    decreases |es|
  {
    if es == [] then true
    else
      StepOk(r, es[0]);
      Step(r, es[0]).1 == Nothing && Silent(Step(r, es[0]).0, es[1..])
  }

  function Ticks(es: seq<Event>): nat {
    if es == [] then 0 else (if es[0].Second? then 1 else 0) + Ticks(es[1..])
  }

  // ---------------------------------------------------------------------------------------------
  // Fragment, then reassemble

  /** A datagram that can be cut and put together: not itself a fragment, without options, and shorter
      than the buffer. */
  predicate Whole(h: Header, data: seq<u8>) {
    h.Offset() == 0 && !h.More() && h.Hlen() == IP_HLEN && 0 < |data| < IP_REASS_BUFSIZE
  }

  lemma CarriedHead(f: IpFrag.Fragment, frame: Packet)
    requires IpFrag.Carries(frame, f)
    ensures Parse(frame) == f.head
  {
    ParsePrefix(frame);
    ParseWire(f.head, []);
    assert Wire(f.head) + [] == Wire(f.head);
    hide Parse;
    hide Wire;
  }

  /** The numbers in the header of a part of the datagram. */
  lemma OwnHead(f: IpFrag.Fragment, h: Header, data: seq<u8>)
    requires Whole(h, data) && IpFrag.Part(f, h, data)
    ensures f.head.Hlen() == IP_HLEN && DataLen(f.head) == |f.data| && Lo(f.head) == f.Lo() && Hi(f.head) == f.Hi()
    ensures f.Lo() < f.Hi() <= |data| < IP_REASS_BUFSIZE && !Outside(f.head) && SameDatagram(h, f.head)
    ensures f.data == data[f.Lo()..f.Hi()] && |f.data| == f.Hi() - f.Lo()
  {
    hide Wire;
    hide Chksum;
  }

  /** What a frame with a part of the datagram brings. */
  lemma OwnFrame(f: IpFrag.Fragment, frame: Packet, h: Header, data: seq<u8>)
    requires Whole(h, data) && IpFrag.Part(f, h, data) && IpFrag.Carries(frame, f)
    ensures Parse(frame) == f.head && Fits(frame) && !Outside(f.head) && SameDatagram(h, f.head)
    ensures PieceOf(frame) == Piece(f.head.Offset(), f.data, f.head.More())
    ensures f.data == data[f.Lo()..f.Hi()] && |f.data| == f.Hi() - f.Lo()
  {
    hide Parse;
    hide Wire;
    hide IpFrag.Part;
    hide Whole;
    hide DataLen;
    hide Lo;
    hide Hi;
    hide Outside;
    hide SameDatagram;
    hide Header.Hlen;
    hide Header.Offset;
    hide Header.More;
    OwnHead(f, h, data);
    CarriedHead(f, frame);
    PieceIs(frame);
  }

  lemma PieceIs(p: Packet)
    requires Fits(p)
    ensures var h := Parse(p);
            PieceOf(p) == Piece(h.Offset(), p[h.Hlen()..h.Hlen() + DataLen(h)], h.More())
  {
    hide Parse;
  }

  /** The state while the fragments but the last are coming in: age is the seconds since the first. */
  ghost predicate Gathering(r: Reass, h: Header, data: seq<u8>, age: nat) {
    && Sized(r)
    && r.timer == IP_REASS_MAXAGE - age && age < IP_REASS_MAXAGE
    && IpFrag.SameBut(r.head, h)
    && !r.last
    && forall b :: 0 <= b < BLOCKS && r.marks[b] ==> b < |data| / 8
  }

  /** The part of the datagram that fragment f carries is in the buffer, and its blocks are marked. */
  ghost predicate Held(r: Reass, f: IpFrag.Fragment, data: seq<u8>)
    requires Sized(r) && f.Hi() <= |data| < IP_REASS_BUFSIZE
  {
    && (forall b :: f.Lo() / 8 <= b < f.Hi() / 8 ==> r.marks[b])
    && (forall x :: f.Lo() <= x < f.Hi() ==> r.buf[x] == data[x])
  }

  lemma GatheringStarts(r: Reass, frame: Packet, f: IpFrag.Fragment, h: Header, data: seq<u8>)
    requires Ok(r) && r.timer == 0 && Whole(h, data) && IpFrag.Part(f, h, data) && IpFrag.Carries(frame, f)
    requires Readable(frame)
    ensures Gathering(Start(r, Parse(frame)), h, data, 0)
    ensures Receive(r, frame, true) == Receive(Start(r, Parse(frame)), frame, true)
  {
    hide Parse;
    hide Wire;
    hide Chksum;
    CarriedHead(f, frame);
  }

  /** What storing a part does to marks and bytes. */
  lemma StoreEffect(r: Reass, frame: Packet, f: IpFrag.Fragment, h: Header, data: seq<u8>)
    requires Sized(r) && Whole(h, data) && IpFrag.Part(f, h, data) && IpFrag.Carries(frame, f)
    ensures Fits(frame) && f.Hi() <= |data|
    ensures var r' := Store(r, frame);
            && Sized(r') && r'.timer == r.timer && r'.head == r.head
            && r'.last == (r.last || !f.head.More()) && r'.len == (if f.head.More() then r.len else f.Hi())
            && (forall b: nat :: b < BLOCKS ==> (r'.marks[b] <==> r.marks[b] || f.Lo() / 8 <= b < f.Hi() / 8))
            && (forall x: nat :: x < IP_REASS_BUFSIZE ==>
                  r'.buf[x] == if f.Lo() <= x < f.Hi() then data[x] else r.buf[x])
  {
    hide Parse;
    hide Wire;
    hide Chksum;
    hide IpFrag.Carries;
    OwnFrame(f, frame, h, data);
    PartFacts(f, h, data);
    hide IpFrag.Part;
    var x := Piece(f.head.Offset(), f.data, f.head.More());
    assert f.Hi() / 8 == x.block + |x.data| / 8;
    forall at: nat | at < IP_REASS_BUFSIZE
      ensures Store(r, frame).buf[at] == if f.Lo() <= at < f.Hi() then data[at] else r.buf[at]
    {
      PutBytes(r, x, at);
    }
  }

  /** Storing a part keeps the state gathering, and holds the part. */
  lemma StorePart(r: Reass, frame: Packet, f: IpFrag.Fragment, h: Header, data: seq<u8>, age: nat)
    requires Gathering(r, h, data, age) && Whole(h, data) && IpFrag.Part(f, h, data) && IpFrag.Carries(frame, f)
    ensures Fits(frame) && f.Hi() <= |data|
    ensures var r' := Store(r, frame);
            && Sized(r') && r'.timer == r.timer && r'.head == r.head
            && (forall b :: 0 <= b < BLOCKS && r'.marks[b] ==> b < |data| / 8)
            && Held(r', f, data)
            && (f.head.More() ==> !r'.last)
            && (!f.head.More() ==> r'.last && r'.len == f.Hi())
  {
    hide IpFrag.Carries;
    hide IpFrag.Part;
    hide Store;
    hide Parse;
    StoreEffect(r, frame, f, h, data);
  }

  /** It loses no other part. */
  lemma StoreHolds(r: Reass, frame: Packet, f: IpFrag.Fragment, h: Header, data: seq<u8>, age: nat, g: IpFrag.Fragment)
    requires Gathering(r, h, data, age) && Whole(h, data) && IpFrag.Part(f, h, data) && IpFrag.Carries(frame, f)
    requires g.Hi() <= |data| && Held(r, g, data)
    ensures Fits(frame) && Held(Store(r, frame), g, data)
  {
    hide IpFrag.Carries;
    hide IpFrag.Part;
    hide Store;
    hide Parse;
    StoreEffect(r, frame, f, h, data);
  }

  /** An event of the run: a frame with any fragment but the last, a frame of another datagram, a tick. */
  ghost predicate Expected(e: Event, h: Header, fs: seq<IpFrag.Fragment>) {
    match e
    case Own(k, frame) => k < |fs| - 1 && IpFrag.Carries(frame, fs[k]) && Fits(frame)
    case Foreign(frame) => Readable(frame) && !SameDatagram(h, Parse(frame))
    case Second => true
  }

  lemma PartFacts(f: IpFrag.Fragment, h: Header, data: seq<u8>)
    requires IpFrag.Part(f, h, data) && Whole(h, data)
    ensures f.Hi() <= |data| && (f.head.More() <==> f.Hi() < |data|) && f.Lo() < f.Hi() && f.Lo() % 8 == 0
    ensures f.Hi() < |data| ==> f.Hi() % 8 == 0
  {
    hide Chksum;
    hide Wire;
    hide IpFrag.SameBut;
  }

  /** Where fragment k lies. */
  lemma ChopMiddle(fs: seq<IpFrag.Fragment>, h: Header, data: seq<u8>, k: nat)
    requires IpFrag.Chop(fs, h, data, 0) && Whole(h, data) && k < |fs|
    ensures IpFrag.Part(fs[k], h, data) && fs[k].Hi() <= |data|
    ensures fs[k].head.More() <==> k < |fs| - 1
    ensures fs[k].Lo() % 8 == 0 && (k < |fs| - 1 ==> fs[k].Hi() % 8 == 0)
    ensures k == |fs| - 1 ==> fs[k].Hi() == |data|
  {
    hide IpFrag.Part;
    assert IpFrag.Part(fs[k], h, data);
    PartFacts(fs[k], h, data);
    if k < |fs| - 1 {
      assert IpFrag.Follows(fs, k) && IpFrag.Part(fs[k + 1], h, data);
      PartFacts(fs[k + 1], h, data);
    }
  }

  /** One event: nothing is handed up, and the state goes on gathering. */
  lemma StepGathers(r: Reass, e: Event, h: Header, data: seq<u8>, fs: seq<IpFrag.Fragment>, age: nat)
    requires Ok(r) && Gathering(r, h, data, age) && Whole(h, data) && IpFrag.Chop(fs, h, data, 0)
    requires Expected(e, h, fs) && age + Ticks([e]) < IP_REASS_MAXAGE
    ensures Step(r, e).1 == Nothing && Gathering(Step(r, e).0, h, data, age + Ticks([e]))
  {
    hide Parse;
    hide IpFrag.Chop;
    hide IpFrag.Part;
    hide IpFrag.Carries;
    match e
    case Own(k, frame) =>
      ChopMiddle(fs, h, data, k);
      OwnFrame(fs[k], frame, h, data);
      StorePart(r, frame, fs[k], h, data, age);
      hide Store;
      hide IpFrag.Chop;
      hide IpFrag.Part;
      hide IpFrag.Carries;
      hide Parse;
    case Foreign(frame) =>
    case Second =>
  }

  /** One event keeps what is held, and a frame with a fragment makes it held. */
  lemma StepHolds(r: Reass, e: Event, h: Header, data: seq<u8>, fs: seq<IpFrag.Fragment>, age: nat, k: nat)
    requires Ok(r) && Gathering(r, h, data, age) && Whole(h, data) && IpFrag.Chop(fs, h, data, 0)
    requires Expected(e, h, fs) && age + Ticks([e]) < IP_REASS_MAXAGE
    requires k < |fs| && fs[k].Hi() <= |data| && (Held(r, fs[k], data) || (e.Own? && e.k == k))
    ensures Sized(Step(r, e).0) && Held(Step(r, e).0, fs[k], data)
  {
    match e
    case Own(k', frame) =>
      ChopMiddle(fs, h, data, k');
      OwnFrame(fs[k'], frame, h, data);
      StorePart(r, frame, fs[k'], h, data, age);
      if Held(r, fs[k], data) {
        StoreHolds(r, frame, fs[k'], h, data, age, fs[k]);
      }
      hide Store;
      hide IpFrag.Chop;
      hide IpFrag.Part;
      hide IpFrag.Carries;
      hide Parse;
      hide Held;
    case Foreign(frame) =>
    case Second =>
  }

  ghost predicate AllExpected(es: seq<Event>, h: Header, fs: seq<IpFrag.Fragment>) {
    forall i :: 0 <= i < |es| ==> Expected(es[i], h, fs)
  }

  /** Fragment k comes in the run. */
  ghost predicate Comes(es: seq<Event>, k: nat) {
    exists i :: 0 <= i < |es| && es[i].Own? && es[i].k == k
  }

  lemma ExpectedReadable(es: seq<Event>, h: Header, fs: seq<IpFrag.Fragment>)
    requires AllExpected(es, h, fs)
    ensures AllReadable(es)
  {
    hide Fits;
    hide IpFrag.Carries;
    forall i | 0 <= i < |es| && !es[i].Second? ensures Readable(es[i].frame) {
      assert Expected(es[i], h, fs);
    }
  }

  lemma TicksFirst(es: seq<Event>)
    requires es != []
    ensures Ticks(es) == Ticks([es[0]]) + Ticks(es[1..])
  {
    assert [es[0]][1..] == [];
  }

  lemma ComesLater(es: seq<Event>, k: nat)
    requires Comes(es, k) && !(es[0].Own? && es[0].k == k)
    ensures Comes(es[1..], k)
  {
    var i :| 0 <= i < |es| && es[i].Own? && es[i].k == k;
    assert es[1..][i - 1].Own? && es[1..][i - 1].k == k;
  }

  /** A run of such events, in any order and with any repetitions, hands nothing up, goes on gathering, and
      holds every fragment that came. */
  lemma {:induction false} RunGathers(r: Reass, es: seq<Event>, h: Header, data: seq<u8>, fs: seq<IpFrag.Fragment>,
      age: nat, k: nat)
    requires Ok(r) && Gathering(r, h, data, age) && Whole(h, data) && IpFrag.Chop(fs, h, data, 0)
    requires AllExpected(es, h, fs) && AllReadable(es) && age + Ticks(es) < IP_REASS_MAXAGE
    requires k < |fs| && fs[k].Hi() <= |data|
    ensures Silent(r, es) && Gathering(Run(r, es), h, data, age + Ticks(es))
    ensures Held(r, fs[k], data) || Comes(es, k) ==> Held(Run(r, es), fs[k], data)
    decreases |es|
  {
    hide Ok;
    hide Gathering;
    hide Held;
    hide Step;
    hide IpFrag.Chop;
    hide Expected;
    hide Ticks;
    TicksNone();
    GatheringSized(r, h, data, age);
    if es != [] {
      StepOk(r, es[0]);
      TicksFirst(es);
      StepGathers(r, es[0], h, data, fs, age);
      if Held(r, fs[k], data) || (es[0].Own? && es[0].k == k) {
        StepHolds(r, es[0], h, data, fs, age, k);
      } else if Comes(es, k) {
        ComesLater(es, k);
      }
      RunGathers(Step(r, es[0]).0, es[1..], h, data, fs, age + Ticks([es[0]]), k);
    }
  }

  lemma GatheringSized(r: Reass, h: Header, data: seq<u8>, age: nat)
    requires Gathering(r, h, data, age)
    ensures Sized(r)
  {
  }

  lemma TicksNone()
    ensures Ticks([]) == 0
  {
  }

  /** Every whole block of the datagram lies within one fragment. */
  lemma BlockInFragment(fs: seq<IpFrag.Fragment>, h: Header, data: seq<u8>, b: nat)
    requires IpFrag.Chop(fs, h, data, 0) && Whole(h, data) && b < |data| / 8
    ensures exists k :: 0 <= k < |fs| && fs[k].Lo() / 8 <= b < fs[k].Hi() / 8
  {
    IpFrag.FragmentsCover(fs, h, data, 0, 8 * b);
    var k :| 0 <= k < |fs| && fs[k].Lo() <= 8 * b < fs[k].Hi();
    ChopMiddle(fs, h, data, k);
    hide IpFrag.Chop;
  }

  /** With every fragment held the datagram is in the buffer and the check passes. */
  lemma AllHeld(r: Reass, fs: seq<IpFrag.Fragment>, h: Header, data: seq<u8>)
    requires Sized(r) && IpFrag.Chop(fs, h, data, 0) && Whole(h, data)
    requires forall k :: 0 <= k < |fs| ==> fs[k].Hi() <= |data| && Held(r, fs[k], data)
    requires forall b :: 0 <= b < BLOCKS && r.marks[b] ==> b < |data| / 8
    ensures Passes(r.marks, |data|) && r.buf[..|data|] == data
  {
    hide IpFrag.Chop;
    hide Passes;
    forall b: nat | b < |data| / 8 ensures r.marks[b] {
      BlockInFragment(fs, h, data, b);
    }
    forall x: nat | x < |data| ensures r.buf[x] == data[x] {
      IpFrag.FragmentsCover(fs, h, data, 0, x);
    }
    PassesExactly(r.marks, |data|);
  }

  /** The fragment without MF completes the datagram when all others are held. */
  lemma LastCompletes(r: Reass, frame: Packet, fs: seq<IpFrag.Fragment>, h: Header, data: seq<u8>, age: nat)
    requires Gathering(r, h, data, age) && Whole(h, data) && IpFrag.Chop(fs, h, data, 0) && fs != []
    requires IpFrag.Carries(frame, fs[|fs| - 1]) && Fits(frame)
    requires forall k :: 0 <= k < |fs| - 1 ==> fs[k].Hi() <= |data| && Held(r, fs[k], data)
    ensures Receive(r, frame, true).1 == Datagram(Wire(WholeHead(h, |data|)) + data)
  {
    hide IpFrag.Chop;
    hide IpFrag.Part;
    hide IpFrag.Carries;
    hide Store;
    hide Held;
    hide Passes;
    hide Parse;
    hide Wire;
    hide Finish;
    var n := |fs| - 1;
    ChopMiddle(fs, h, data, n);
    OwnFrame(fs[n], frame, h, data);
    StorePart(r, frame, fs[n], h, data, age);
    var r' := Store(r, frame);
    forall k: nat | k < |fs| ensures fs[k].Hi() <= |data| && Held(r', fs[k], data) {
      if k < n {
        StoreHolds(r, frame, fs[n], h, data, age, fs[k]);
      }
    }
    AllHeld(r', fs, h, data);
    SameWhole(r.head, h, |data|);
  }

  lemma SameWhole(a: Header, h: Header, len: nat)
    requires IpFrag.SameBut(a, h) && len + IP_HLEN < 0x1_0000
    ensures WholeHead(a, len) == WholeHead(h, len)
  {
    IpFrag.FragmentHeadOf(a, h, 0, len + IP_HLEN);
  }

  /** All fragments but the last come, in any order and with repetitions, ours first, with other traffic
      and less than 30 seconds in between; then the last one comes.  Nothing is handed up until then, and
      then the datagram with its original data. */
  lemma FragmentThenReassemble(r: Reass, h: Header, data: seq<u8>, mtu: nat, es: seq<Event>, frame: Packet)
    requires Ok(r) && r.timer == 0 && Whole(h, data) && 28 <= mtu <= IpFrag.MAX_MTU
    requires var fs := IpFrag.Fragments(h, data, mtu, 0);
             && AllExpected(es, h, fs) && (es != [] ==> es[0].Own?)
             && (forall k :: 0 <= k < |fs| - 1 ==> Comes(es, k))
             && fs != [] && IpFrag.Carries(frame, fs[|fs| - 1])
    requires Ticks(es) < IP_REASS_MAXAGE
    ensures AllReadable(es) && Fits(frame) && Silent(r, es)
    ensures Receive(Run(r, es), frame, true).1 == Datagram(Wire(WholeHead(h, |data|)) + data)
  {
    hide Ok;
    hide IpFrag.Carries;
    hide IpFrag.Fragments;
    hide IpFrag.Chop;
    hide IpFrag.Part;
    hide Gathering;
    hide Receive;
    hide Parse;
    hide Wire;
    hide Finish;
    var fs := IpFrag.Fragments(h, data, mtu, 0);
    ExpectedReadable(es, h, fs);
    IpFrag.FragmentsChop(h, data, mtu, 0);
    ChopMiddle(fs, h, data, |fs| - 1);
    OwnFrame(fs[|fs| - 1], frame, h, data);
    FirstFrameStarts(r, h, data, fs, if es == [] then frame else es[0].frame, if es == [] then |fs| - 1 else es[0].k);
    var r1 := Start(r, Parse(if es == [] then frame else es[0].frame));
    if es == [] {
      assert |fs| > 1 ==> Comes(es, 0);
      LastCompletes(r1, frame, fs, h, data, 0);
    } else {
      assert Run(r, es) == Run(r1, es) && (Silent(r1, es) ==> Silent(r, es));
      OkSized(Run(r1, es));
      forall k: nat | k < |fs| - 1 ensures fs[k].Hi() <= |data| && Held(Run(r1, es), fs[k], data) {
        ChopMiddle(fs, h, data, k);
        RunGathers(r1, es, h, data, fs, 0, k);
      }
      RunGathers(r1, es, h, data, fs, 0, |fs| - 1);
      LastCompletes(Run(r1, es), frame, fs, h, data, Ticks(es));
    }
  }

  lemma OkSized(r: Reass)
    requires Ok(r)
    ensures Sized(r)
  {
  }

  lemma FirstFrameStarts(r: Reass, h: Header, data: seq<u8>, fs: seq<IpFrag.Fragment>, frame: Packet, k: nat)
    requires Ok(r) && r.timer == 0 && Whole(h, data) && IpFrag.Chop(fs, h, data, 0) && k < |fs|
    requires IpFrag.Carries(frame, fs[k]) && Fits(frame)
    ensures Ok(Start(r, Parse(frame))) && Gathering(Start(r, Parse(frame)), h, data, 0)
    ensures Receive(r, frame, true) == Receive(Start(r, Parse(frame)), frame, true)
  {
    hide IpFrag.Chop;
    hide IpFrag.Part;
    hide IpFrag.Carries;
    ChopMiddle(fs, h, data, k);
    GatheringStarts(r, frame, fs[k], h, data);
    hide Gathering;
    hide Parse;
    hide Receive;
  }

  /** A packet with a right length and checksum comes back as it was sent, header and all. */
  lemma WholeIsOriginal(h: Header, data: seq<u8>)
    requires h.len == IP_HLEN + |data| && h.frag == 0 && h == Finish(h)
    ensures WholeHead(h, |data|) == h
  {
  }

  // ---------------------------------------------------------------------------------------------
  // When what is handed up is whole

  lemma PutFields(r: Reass, x: Piece)
    requires Sized(r) && InBuffer(x)
    ensures var r' := Put(r, x);
            && r'.timer == r.timer && r'.head == r.head
            && r'.last == (r.last || !x.more)
            && r'.len == (if x.more then r.len else x.Hi())
  {
  }

  ghost predicate SomeCoversByte(xs: seq<Piece>, at: nat) {
    exists i :: 0 <= i < |xs| && CoversByte(xs[i], at)
  }

  /** The length is the end of some fragment, once the last one has come. */
  lemma {:induction false} LengthIsAnEnd(r: Reass, xs: seq<Piece>)
    requires Sized(r) && !r.last && AllInBuffer(xs) && StoreAll(r, xs).last
    ensures exists i :: 0 <= i < |xs| && xs[i].Hi() == StoreAll(r, xs).len
  {
    hide Put;
    hide InBuffer;
    if xs != [] {
      var n := |xs| - 1;
      PutFields(StoreAll(r, xs[..n]), xs[n]);
      if xs[n].more {
        LengthIsAnEnd(r, xs[..n]);
        var i :| 0 <= i < |xs[..n]| && xs[..n][i].Hi() == StoreAll(r, xs[..n]).len;
        assert xs[i].Hi() == StoreAll(r, xs).len;
      }
    }
  }

  /** A block is covered when its last byte is: fragments begin at block boundaries. */
  lemma BlockByLastByte(xs: seq<Piece>, b: nat)
    ensures SomeCovers(xs, b) <==> SomeCoversByte(xs, 8 * b + 7)
  {
    if SomeCovers(xs, b) {
      var i :| 0 <= i < |xs| && CoversBlock(xs[i], b);
      assert CoversByte(xs[i], 8 * b + 7);
    }
    if SomeCoversByte(xs, 8 * b + 7) {
      var i :| 0 <= i < |xs| && CoversByte(xs[i], 8 * b + 7);
      assert CoversBlock(xs[i], b);
    }
  }

  lemma BlockCoversByte(xs: seq<Piece>, at: nat)
    requires SomeCovers(xs, at / 8)
    ensures SomeCoversByte(xs, at)
  {
    var i :| 0 <= i < |xs| && CoversBlock(xs[i], at / 8);
    assert CoversByte(xs[i], at);
  }

  /** The byte of the bitmap that the check for a datagram of this length does not look at. */
  predicate Unchecked(len: nat, b: nat) {
    8 * (len / 64 - 1) <= b < 8 * (len / 64)
  }

  /** A datagram that passes the check has every byte from some fragment exactly when the blocks of the one
      byte that is not looked at have come. */
  lemma HandedUpExactly(r: Reass, xs: seq<Piece>)
    requires Sized(r) && !r.last && (forall b :: 0 <= b < BLOCKS ==> !r.marks[b]) && AllInBuffer(xs)
    requires var s := StoreAll(r, xs); s.last && s.len < IP_REASS_BUFSIZE && Passes(s.marks, s.len)
    ensures (forall at: nat :: at < StoreAll(r, xs).len ==> SomeCoversByte(xs, at)) <==>
            (forall b: nat :: Unchecked(StoreAll(r, xs).len, b) ==> SomeCovers(xs, b))
  {
    hide StoreAll;
    hide SomeCovers;
    hide SomeCoversByte;
    hide AllInBuffer;
    var s := StoreAll(r, xs);
    forall b: nat | b < BLOCKS ensures s.marks[b] <==> SomeCovers(xs, b) {
      MarkedIffCovered(r, xs, b);
    }
    if forall b: nat :: Unchecked(s.len, b) ==> SomeCovers(xs, b) {
      forall at: nat | at < s.len ensures SomeCoversByte(xs, at) {
        if at / 8 < s.len / 8 {
          assert s.marks[at / 8];
          BlockCoversByte(xs, at);
        } else {
          TailCovered(r, xs, at);
        }
      }
    }
    if forall at: nat :: at < s.len ==> SomeCoversByte(xs, at) {
      forall b: nat | Unchecked(s.len, b) ensures SomeCovers(xs, b) {
        BlockByLastByte(xs, b);
      }
    }
  }

  /** The bytes after the last whole block come with the fragment that ends there. */
  lemma TailCovered(r: Reass, xs: seq<Piece>, at: nat)
    requires Sized(r) && !r.last && AllInBuffer(xs) && StoreAll(r, xs).last
    requires at < StoreAll(r, xs).len && at / 8 == StoreAll(r, xs).len / 8
    ensures SomeCoversByte(xs, at)
  {
    hide AllInBuffer;
    hide StoreAll;
    LengthIsAnEnd(r, xs);
    var i :| 0 <= i < |xs| && xs[i].Hi() == StoreAll(r, xs).len;
    assert CoversByte(xs[i], at);
  }

  ghost predicate AllFit(ps: seq<Packet>) {
    forall i :: 0 <= i < |ps| ==> Fits(ps[i])
  }

  /** What a list of packets brings. */
  function Pieces(ps: seq<Packet>): (xs: seq<Piece>)
    requires AllFit(ps)
  {
    if ps == [] then [] else Pieces(ps[..|ps| - 1]) + [PieceOf(ps[|ps| - 1])]
  }

  lemma FitsInside(p: Packet)
    requires Fits(p)
    ensures !Outside(Parse(p)) && InBuffer(PieceOf(p))
  {
    hide Parse;
  }

  lemma {:induction false} PiecesInBuffer(ps: seq<Packet>)
    requires AllFit(ps)
    ensures AllInBuffer(Pieces(ps)) && |Pieces(ps)| == |ps|
  {
    hide Fits;
    hide PieceOf;
    hide InBuffer;
    if ps != [] {
      PiecesInBuffer(ps[..|ps| - 1]);
      FitsInside(ps[|ps| - 1]);
    }
  }

  /** The state after storing what the packets bring. */
  function StorePackets(r: Reass, ps: seq<Packet>): (r': Reass)
    requires Sized(r) && AllFit(ps)
    ensures Sized(r')
  {
    PiecesInBuffer(ps);
    StoreAll(r, Pieces(ps))
  }

  lemma StoreOneMore(r: Reass, ps: seq<Packet>)
    requires Sized(r) && AllFit(ps) && ps != []
    ensures StorePackets(r, ps) == Store(StorePackets(r, ps[..|ps| - 1]), ps[|ps| - 1])
  {
    hide Put;
    hide Fits;
    hide PieceOf;
    hide InBuffer;
    var n := |ps| - 1;
    PiecesInBuffer(ps);
    PiecesInBuffer(ps[..n]);
    assert Pieces(ps)[..n] == Pieces(ps[..n]);
  }

  /** Receives a list of packets. */
  function ReceiveAll(r: Reass, ps: seq<Packet>): (r': Reass)
    requires Ok(r) && AllFit(ps)
    ensures Ok(r')
  {
    if ps == [] then r
    else
      ReceiveKeeps(ReceiveAll(r, ps[..|ps| - 1]), ps[|ps| - 1], true);
      Receive(ReceiveAll(r, ps[..|ps| - 1]), ps[|ps| - 1], true).0
  }

  /** Fragments of the datagram in the buffer, none of which completes it. */
  predicate Pending(r: Reass, ps: seq<Packet>)
    requires Sized(r) && AllFit(ps)
  {
    ps == [] ||
    (Pending(r, ps[..|ps| - 1]) && SameDatagram(r.head, Parse(ps[|ps| - 1])) && !Complete(StorePackets(r, ps)))
  }

  /** As long as the fragments of one datagram come and none completes it, receiving them is storing them. */
  lemma {:induction false} ReceivingIsStoring(r: Reass, ps: seq<Packet>)
    requires Ok(r) && r.timer > 0 && AllFit(ps) && Pending(r, ps)
    ensures ReceiveAll(r, ps) == StorePackets(r, ps)
    ensures StorePackets(r, ps).timer == r.timer && StorePackets(r, ps).head == r.head
  {
    hide Put;
    hide Complete;
    hide SameDatagram;
    hide Parse;
    hide Fits;
    hide PieceOf;
    if ps != [] {
      var n := |ps| - 1;
      ReceivingIsStoring(r, ps[..n]);
      FitsInside(ps[n]);
      StoreOneMore(r, ps);
      PutFields(StorePackets(r, ps[..n]), PieceOf(ps[n]));
      hide StorePackets;
      hide InBuffer;
    }
  }

  /** Fragment i is the last one that covers a byte. */
  ghost predicate LastCovers(xs: seq<Piece>, at: nat, i: nat) {
    i < |xs| && CoversByte(xs[i], at) && forall j :: i < j < |xs| ==> !CoversByte(xs[j], at)
  }

  /** v is the byte that the last fragment to cover it brings. */
  ghost predicate FromLast(xs: seq<Piece>, at: nat, v: u8) {
    exists i: nat :: LastCovers(xs, at, i) && v == xs[i].data[at - xs[i].Lo()]
  }

  ghost predicate AllFromLast(xs: seq<Piece>, data: seq<u8>) {
    forall at: nat :: at < |data| ==> FromLast(xs, at, data[at])
  }

  lemma {:induction false} SomeIsLast(xs: seq<Piece>, at: nat) returns (i: nat)
    requires SomeCoversByte(xs, at)
    ensures LastCovers(xs, at, i)
    decreases |xs|
  {
    hide CoversByte;
    var n := |xs| - 1;
    if CoversByte(xs[n], at) {
      i := n;
    } else {
      var k :| 0 <= k < |xs| && CoversByte(xs[k], at);
      assert CoversByte(xs[..n][k], at);
      i := SomeIsLast(xs[..n], at);
      assert forall j :: i < j < n ==> xs[..n][j] == xs[j];
    }
  }

  /** The buffer has a byte from the last fragment to cover it whenever one covers it. */
  lemma BufferFromLast(r: Reass, xs: seq<Piece>, at: nat)
    requires Sized(r) && AllInBuffer(xs) && at < IP_REASS_BUFSIZE && SomeCoversByte(xs, at)
    ensures FromLast(xs, at, StoreAll(r, xs).buf[at])
  {
    hide StoreAll;
    hide AllInBuffer;
    var i := SomeIsLast(xs, at);
    LastWriterWins(r, xs, at, i);
  }

  /** What ip_reass hands up, for fragments of one datagram in any order: every byte is the one that the last
      fragment to cover it brought, exactly when the blocks that the check does not look at have come. */
  lemma HandedUp(r: Reass, ps: seq<Packet>, p: Packet)
    requires Ok(r) && r.timer > 0 && !r.last && (forall b :: 0 <= b < BLOCKS ==> !r.marks[b])
    requires AllFit(ps) && Pending(r, ps) && Fits(p) && SameDatagram(r.head, Parse(p))
    requires Receive(ReceiveAll(r, ps), p, true).1.Datagram?
    ensures AllFit(ps + [p]) && StorePackets(r, ps + [p]).last && StorePackets(r, ps + [p]).len < IP_REASS_BUFSIZE
    ensures var xs, len := Pieces(ps + [p]), StorePackets(r, ps + [p]).len;
            var bytes := Receive(ReceiveAll(r, ps), p, true).1.bytes;
            && |bytes| == IP_HLEN + len
            && (AllFromLast(xs, bytes[IP_HLEN..]) <==> forall b: nat :: Unchecked(len, b) ==> SomeCovers(xs, b))
  {
    hide Put;
    hide Parse;
    hide Wire;
    hide Finish;
    hide Fits;
    hide PieceOf;
    hide StoreAll;
    hide SomeCovers;
    hide Passes;
    hide Unchecked;
    hide InBuffer;
    hide Pieces;
    hide SameDatagram;
    var qs := ps + [p];
    assert qs[..|qs| - 1] == ps && AllFit(qs);
    ReceivingIsStoring(r, ps);
    FitsInside(p);
    StoreOneMore(r, qs);
    PiecesInBuffer(qs);
    PutFields(StorePackets(r, ps), PieceOf(p));
    var s, xs := StorePackets(r, qs), Pieces(qs);
    HandedUpExactly(r, xs);
    var data := s.buf[..s.len];
    assert Receive(ReceiveAll(r, ps), p, true).1.bytes[IP_HLEN..] == data;
    forall at: nat | at < s.len ensures SomeCoversByte(xs, at) <==> FromLast(xs, at, data[at]) {
      FromLastCovers(xs, at, data[at]);
      if SomeCoversByte(xs, at) {
        BufferFromLast(r, xs, at);
      }
    }
    hide FromLast;
    hide SomeCoversByte;
  }

  lemma FromLastCovers(xs: seq<Piece>, at: nat, v: u8)
    ensures FromLast(xs, at, v) ==> SomeCoversByte(xs, at)
  {
  }

  // ---------------------------------------------------------------------------------------------
  // What does not hold

  /** Two fragments of a datagram of 136 bytes, without the 64 bytes between them. */
  function FirstPart(): Packet {
    Wire(Header(0x45, 0, IP_HLEN + 64, 7, IP_MF, 64, 17, 0, Addr(10, 0, 0, 1), Addr(10, 0, 0, 2))) + seq(64, _ => 1)
  }

  function LastPart(): Packet {
    Wire(Header(0x45, 0, IP_HLEN + 8, 7, 16, 64, 17, 0, Addr(10, 0, 0, 1), Addr(10, 0, 0, 2))) + seq(8, _ => 2)
  }

  lemma PartHeads()
    ensures Parse(FirstPart()) == Header(0x45, 0, IP_HLEN + 64, 7, IP_MF, 64, 17, 0, Addr(10, 0, 0, 1),
            Addr(10, 0, 0, 2))
    ensures Parse(LastPart()) == Header(0x45, 0, IP_HLEN + 8, 7, 16, 64, 17, 0, Addr(10, 0, 0, 1), Addr(10, 0, 0, 2))
  {
    ParseWire(Header(0x45, 0, IP_HLEN + 64, 7, IP_MF, 64, 17, 0, Addr(10, 0, 0, 1), Addr(10, 0, 0, 2)),
        seq(64, _ => 1));
    ParseWire(Header(0x45, 0, IP_HLEN + 8, 7, 16, 64, 17, 0, Addr(10, 0, 0, 1), Addr(10, 0, 0, 2)), seq(8, _ => 2));
    hide Parse;
    hide Wire;
  }

  /** They are handed up as a whole datagram, with 64 bytes from whatever the buffer held before. */
  lemma HandsUpAHole(r: Reass)
    requires Ok(r) && r.timer == 0
    ensures Readable(FirstPart()) && Readable(LastPart()) && Ok(Receive(r, FirstPart(), true).0)
    ensures Receive(r, FirstPart(), true).1 == Nothing
    ensures var d := Receive(Receive(r, FirstPart(), true).0, LastPart(), true).1;
            d.Datagram? && |d.bytes| == IP_HLEN + 136 && d.bytes[IP_HLEN + 64..IP_HLEN + 128] == r.buf[64..128]
  {
    hide Parse;
    hide Wire;
    hide Finish;
    PartHeads();
    var a, b := FirstPart(), LastPart();
    assert Fits(a) && Fits(b);
    var r1 := Store(Start(r, Parse(a)), a);
    assert !r1.last && forall k :: 0 <= k < BLOCKS ==> (r1.marks[k] <==> k < 8);
    var r2 := Store(r1, b);
    assert r2.last && r2.len == 136 && forall k :: 0 <= k < BLOCKS ==> (r2.marks[k] <==> k < 8 || k == 16);
    assert forall x :: 64 <= x < 128 ==> r2.buf[x] == r.buf[x];
    assert r2.buf[64..128] == r.buf[64..128];
    HoleBytes(Wire(WholeHead(r2.head, 136)), r2.buf);
  }

  lemma HoleBytes(head: seq<u8>, buf: seq<u8>)
    requires |head| == IP_HLEN && |buf| == IP_REASS_BUFSIZE
    ensures |head + buf[..136]| == IP_HLEN + 136 && (head + buf[..136])[IP_HLEN + 64..IP_HLEN + 128] == buf[64..128]
  {
  }
}
