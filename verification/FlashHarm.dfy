/** What harm means for the flash log: judged by the sends that follow. */
module FlashHarm {
  import opened Config
  import opened Sequences
  import opened FlashGeometry
  import opened FlashLog
  import opened FlashLaws
  import opened FlashRuns

  // ------------------------------------------------------------ the sends that follow

  datatype Offer = Offer(data: seq<byte>, urgent: bool)

  /** A device that does what it is asked to: it takes the packet, erases, and is done with it. */
  const WORKING: Reply := Reply(true, 0, true, false)

  predicate Sized(sends: seq<Offer>) {
    forall p :: p in sends ==> |p.data| <= MAX_PACKET
  }

  /** The flash after some packets were handed to it. */
  function Sent(f: Flash, sends: seq<Offer>): (g: Flash)
    requires f.InArea() && Sized(sends)
    ensures g.InArea()
    decreases |sends|
  {
    if sends == [] then f
    else
      SendFlashKeepsArea(f, sends[0].data, sends[0].urgent, WORKING);
      Sent(SendFlash(f, sends[0].data, sends[0].urgent, WORKING).0, sends[1..])
  }

  /** The bytes it took of them. */
  function SentBytes(f: Flash, sends: seq<Offer>): seq<byte>
    requires f.InArea() && Sized(sends)
    decreases |sends|
  {
    if sends == [] then []
    else
      SendFlashKeepsArea(f, sends[0].data, sends[0].urgent, WORKING);
      var (next, k) := SendFlash(f, sends[0].data, sends[0].urgent, WORKING);
      sends[0].data[..k] + SentBytes(next, sends[1..])
  }

  /** The log reads as the newest part of `stream`. */
  predicate Intact(f: Flash, stream: seq<byte>)
    requires f.InArea()
  {
    |LogCells(f)| <= |stream| && LogCells(f) == AsCells(Last(stream, |LogCells(f)|))
  }

  /** Between read and write pointer a cell is erased or garbled: the log reads as no bytes at all. */
  ghost predicate Spoilt(f: Flash)
    requires f.InArea()
  {
    exists c :: c in LogCells(f) && !c.Programmed?
  }

  /** However sends go on, on a device without faults the log is the newest part of what was written. */
  ghost predicate Harmless(f: Flash, stream: seq<byte>) {
    f.InArea() && forall sends :: Sized(sends) ==> Intact(Sent(f, sends), stream + SentBytes(f, sends))
  }

  /** Sends exist that spoil the log. */
  ghost predicate Harmful(f: Flash) {
    f.InArea() && exists sends :: Sized(sends) && Spoilt(Sent(f, sends))
  }

  lemma SpoiltIsNotIntact(f: Flash, stream: seq<byte>)
    requires f.InArea() && Spoilt(f)
    ensures !Intact(f, stream)
  {
    var i :| 0 <= i < |LogCells(f)| && !LogCells(f)[i].Programmed?;
    if |LogCells(f)| <= |stream| {
      assert AsCells(Last(stream, |LogCells(f)|))[i].Programmed?;
    }
  }

  lemma HarmfulIsNotHarmless(f: Flash, stream: seq<byte>)
    requires Harmful(f)
    ensures !Harmless(f, stream)
  {
    var sends :| Sized(sends) && Spoilt(Sent(f, sends));
    SpoiltIsNotIntact(Sent(f, sends), stream + SentBytes(f, sends));
  }

  lemma {:induction false} SentKeepsInv(f: Flash, h: History, sends: seq<Offer>) returns (g: History)
    requires Inv(f, h) && f.InArea() && Sized(sends)
    ensures Inv(Sent(f, sends), g) && g.stream == h.stream + SentBytes(f, sends)
    decreases |sends|
  {
    if sends == [] {
      g := h;
      assert h.stream + [] == h.stream;
    } else {
      var data, urgent := sends[0].data, sends[0].urgent;
      var (next, k) := SendFlash(f, data, urgent, WORKING);
      SendKeepsInv(f, h, data, urgent, WORKING);
      SendFlashKeepsArea(f, data, urgent, WORKING);
      g := SentKeepsInv(next, SendHistory(f, h, data, urgent, WORKING), sends[1..]);
      Regroup(h.stream, data[..k], SentBytes(next, sends[1..]));
    }
  }

  /** The invariant is all it takes. */
  lemma InvIsHarmless(f: Flash, h: History)
    requires Inv(f, h)
    ensures Harmless(f, h.stream)
  {
    InvInArea(f, h);
    forall sends | Sized(sends)
      ensures Intact(Sent(f, sends), h.stream + SentBytes(f, sends))
    {
      var g := SentKeepsInv(f, h, sends);
      LogIsSuffix(Sent(f, sends), g);
    }
  }

  // ------------------------------------------------------------ the ends of the log

  /** The newest byte of a log that starts with a sector and ends inside one. */
  lemma NewestCell(f: Flash)
    requires f.InArea() && AtSectorStart(f.rd) && !AtSectorStart(f.wr)
    ensures |LogCells(f)| > 0 && LogCells(f)[|LogCells(f)| - 1] == f.cells[f.wr - 1 - FLASH_START]
  {
    var live := FlashUsageBytes(f.rd, f.wr, f.n);
    assert f.wr != f.rd;
    assert Fold(f.rd - FLASH_START + live - 1, FlashBytes(f.n)) == f.wr - 1 - FLASH_START;
  }

  lemma OldestCell(f: Flash)
    requires f.InArea() && f.rd != f.wr
    ensures |LogCells(f)| > 0 && LogCells(f)[0] == f.cells[f.rd - FLASH_START]
  {
    assert Fold(f.rd - FLASH_START + 0, FlashBytes(f.n)) == f.rd - FLASH_START;
  }

  /** One bad cell is enough. */
  lemma BadCellSpoils(f: Flash, i: nat)
    requires f.InArea() && i < |LogCells(f)| && !LogCells(f)[i].Programmed?
    ensures Spoilt(f)
  {
    assert LogCells(f)[i] in LogCells(f);
  }

  lemma NextSectorStart(f: Flash)
    requires f.InArea()
    ensures AtSectorStart(NextSector(f.n, f.curr)) && InLog(f.n, NextSector(f.n, f.curr))
  {
  }

  lemma NextSectorAligned(n: nat, addr: nat)
    requires SectorCount(n) && InLog(n, addr) && AtSectorStart(addr)
    ensures InLog(n, NextSector(n, addr)) && AtSectorStart(NextSector(n, addr))
  {
  }

  lemma SendKeepsAlignment(f: Flash, data: seq<byte>, urgent: bool, r: Reply)
    requires f.InArea() && |data| <= MAX_PACKET && AtSectorStart(f.rd)
    ensures AtSectorStart(SendFlash(f, data, urgent, r).0.rd)
  {
    NextSectorAligned(f.n, f.rd);
  }

  // ------------------------------------------------------------ harm by the next packets

  lemma SentOne(f: Flash, p: Offer)
    requires f.InArea() && |p.data| <= MAX_PACKET
    ensures Sent(f, [p]) == SendFlash(f, p.data, p.urgent, WORKING).0
  {
    SendFlashKeepsArea(f, p.data, p.urgent, WORKING);
    assert Sent(SendFlash(f, p.data, p.urgent, WORKING).0, []) == SendFlash(f, p.data, p.urgent, WORKING).0;
  }

  /** A spoilt log needs no more sends. */
  lemma SpoiltIsHarmful(f: Flash)
    requires f.InArea() && Spoilt(f)
    ensures Harmful(f)
  {
    assert Spoilt(Sent(f, []));
  }

  lemma SentFirst(f: Flash, p: Offer, sends: seq<Offer>, next: Flash)
    requires f.InArea() && |p.data| <= MAX_PACKET && Sized(sends)
    requires next == SendFlash(f, p.data, p.urgent, WORKING).0
    ensures next.InArea() && Sized([p] + sends) && Sent(f, [p] + sends) == Sent(next, sends)
  {
    SendFlashKeepsArea(f, p.data, p.urgent, WORKING);
    assert ([p] + sends)[1..] == sends;
  }

  /** Harm that takes one packet more. */
  lemma HarmfulOneLater(f: Flash, p: Offer, next: Flash)
    requires f.InArea() && |p.data| <= MAX_PACKET && Harmful(next)
    requires next == SendFlash(f, p.data, p.urgent, WORKING).0
    ensures Harmful(f)
  {
    hide SendFlash, Spoilt;
    var sends :| Sized(sends) && Spoilt(Sent(next, sends));
    SentFirst(f, p, sends, next);
    assert Spoilt(Sent(f, [p] + sends));
  }

  /** A page of zeros, to be sent at once. */
  function UrgentPage(): Offer {
    Offer(seq(MAX_PACKET, _ => 0), true)
  }

  /** With the flag down, a packet that ends in the next sector loses its end to the erase that follows
      it. */
  lemma PacketErasedAfterWrite(f: Flash, data: seq<byte>, r: Reply)
    requires f.InArea() && !f.nextErased && SectorUsageKB(f.wr, f.curr) >= THRESHOLD_KB && r.ok && r.eraseOk
    requires 0 < |data| <= MAX_PACKET && f.wr + |data| <= EndAddress(f.n)
    requires NextSector(f.n, f.curr) < f.wr + |data| <= NextSector(f.n, f.curr) + SECTOR
    ensures var (next, k) := SendFlash(f, data, true, r);
            k == |data| && next.wr == WrapAddr(f.n, f.wr + k) && next.cells[f.wr + k - 1 - FLASH_START] == Erased
  {
  }

  /** One urgent page is then sent half into nothing. */
  lemma UrgentPageSpoils(f: Flash, next: Flash)
    requires f.InArea() && !f.nextErased && AtSectorStart(f.rd) && SectorUsageKB(f.wr, f.curr) >= THRESHOLD_KB
    requires NextSector(f.n, f.curr) < f.wr + MAX_PACKET < NextSector(f.n, f.curr) + SECTOR
    requires f.wr + MAX_PACKET <= EndAddress(f.n) && next == SendFlash(f, UrgentPage().data, true, WORKING).0
    ensures next.InArea() && Spoilt(next)
  {
    PacketErasedAfterWrite(f, UrgentPage().data, WORKING);
    SendKeepsAlignment(f, UrgentPage().data, true, WORKING);
    SendFlashKeepsArea(f, UrgentPage().data, true, WORKING);
    NextSectorStart(f);
    EndOfPageInside(f.n, f.wr, NextSector(f.n, f.curr));
    NewestCell(next);
    BadCellSpoils(next, |LogCells(next)| - 1);
  }

  /** A page that ends inside a sector. */
  lemma EndOfPageInside(n: nat, wr: nat, sector: nat)
    requires SectorCount(n) && AtSectorStart(sector) && sector < wr + MAX_PACKET < sector + SECTOR
    requires wr + MAX_PACKET <= EndAddress(n)
    ensures WrapAddr(n, wr + MAX_PACKET) == wr + MAX_PACKET && !AtSectorStart(wr + MAX_PACKET)
  {
  }

  /** One urgent page is enough to do harm then. */
  lemma UrgentPageDoesHarm(f: Flash)
    requires f.InArea() && !f.nextErased && AtSectorStart(f.rd) && SectorUsageKB(f.wr, f.curr) >= THRESHOLD_KB
    requires NextSector(f.n, f.curr) < f.wr + MAX_PACKET < NextSector(f.n, f.curr) + SECTOR
    requires f.wr + MAX_PACKET <= EndAddress(f.n)
    ensures Harmful(f)
  {
    var p := UrgentPage();
    UrgentPageSpoils(f, SendFlash(f, p.data, true, WORKING).0);
    SentOne(f, p);
    assert Spoilt(Sent(f, [p]));
  }

  /** `k` urgent packets of one byte. */
  function OneByOne(k: nat): (sends: seq<Offer>)
    ensures Sized(sends) && |sends| == k
  {
    if k == 0 then [] else [Offer([0], true)] + OneByOne(k - 1)
  }

  lemma SentOneMore(f: Flash, k: nat)
    requires f.InArea() && k > 0
    ensures SendFlash(f, [0], true, WORKING).0.InArea()
    ensures Sent(f, OneByOne(k)) == Sent(SendFlash(f, [0], true, WORKING).0, OneByOne(k - 1))
  {
    SendFlashKeepsArea(f, [0], true, WORKING);
    assert OneByOne(k)[0] == Offer([0], true) && OneByOne(k)[1..] == OneByOne(k - 1);
  }

  // ------------------------------------------------------------ a byte at the write pointer

  /** The pointers do not depend on what is in the cells. */
  predicate SamePointers(a: Flash, b: Flash) {
    a == b.(cells := a.cells) && |a.cells| == |b.cells|
  }

  lemma SendKeepsSamePointers(a: Flash, b: Flash, data: seq<byte>, urgent: bool, r: Reply)
    requires a.InArea() && b.InArea() && SamePointers(a, b) && |data| <= MAX_PACKET
    ensures SamePointers(SendFlash(a, data, urgent, r).0, SendFlash(b, data, urgent, r).0)
  {
  }

  /** The log cell that holds stream position `p`. */
  lemma CellInLog(f: Flash, h: History, p: nat)
    requires Inv(f, h) && f.InArea() && 65536 * h.oldest <= p < |h.stream|
    ensures 0 <= p - 65536 * h.oldest < |LogCells(f)|
    ensures Fold(f.rd - FLASH_START + (p - 65536 * h.oldest), FlashBytes(f.n)) == CellOf(p, h.lap, f.n)
  {
    LogBounds(f, h);
  }

  /** A send never gives up the sector it writes to. */
  lemma OldestStaysBehind(f: Flash, h: History, packet: seq<byte>, r: Reply)
    requires Inv(f, h) && f.InArea() && |packet| <= MAX_PACKET
    ensures 65536 * PreparedHistory(f, h, packet, r).oldest <= |h.stream|
  {
    if !f.nextErased {
      ReadPointerMoves(f, h);
    }
  }

  /** Where the history of a send has the packet. */
  lemma PlaceOfPacket(f: Flash, h: History, data: seq<byte>, urgent: bool, r: Reply, g: History)
    requires Inv(f, h) && f.InArea() && |data| <= MAX_PACKET && r.ok && 0 < PacketSize(f, data, urgent) <= |data|
    requires g == SendHistory(f, h, data, urgent, r)
    ensures 65536 * g.oldest <= |h.stream| < |g.stream|
    ensures CellOf(|h.stream|, g.lap, f.n) == f.wr - FLASH_START
  {
    OldestStaysBehind(f, h, data[..PacketSize(f, data, urgent)], r);
    AcceptedSend(f, h, data, urgent, r);
  }

  /** A bad cell at a stream position of the log. */
  lemma BadPositionSpoils(shadow: Flash, g: History, f: Flash, p: nat)
    requires Inv(shadow, g) && shadow.InArea() && 65536 * g.oldest <= p < |g.stream| && SamePointers(f, shadow)
    requires 0 <= CellOf(p, g.lap, f.n) < |f.cells| && !f.cells[CellOf(p, g.lap, f.n)].Programmed?
    ensures f.InArea() && Spoilt(f)
  {
    CellInLog(shadow, g, p);
    BadCellSpoils(f, p - 65536 * g.oldest);
  }

  /** A byte sent onto a cell that is not erased stays there garbled. */
  lemma ByteGarbles(f: Flash, h: History, a: Flash)
    requires Inv(f, h) && f.InArea() && SamePointers(a, f) && a.cells[a.wr - FLASH_START] != Erased
    ensures a.InArea() && SendFlash(a, [0], true, WORKING).0.cells[a.wr - FLASH_START] == Garbled
  {
    NextSectorAddr(f.n, h.sector, h.lap);
    assert !f.nextErased ==> |h.stream| < 65536 * (h.sector + 1);
  }

  /** The pointers of a sound log over cells that are not erased at the write pointer. */
  lemma WrittenTargetDoesHarm(f: Flash, h: History, a: Flash)
    requires Inv(f, h) && SamePointers(a, f) && a.wr >= FLASH_START && a.wr - FLASH_START < |a.cells|
    requires a.cells[a.wr - FLASH_START] != Erased
    ensures Harmful(a)
  {
    hide Inv;
    InvInArea(f, h);
    var next := SendFlash(a, [0], true, WORKING).0;
    ByteSpoils(f, h, a, next);
    SpoiltIsHarmful(next);
    HarmfulOneLater(a, Offer([0], true), next);
  }

  lemma ByteSpoils(f: Flash, h: History, a: Flash, next: Flash)
    requires Inv(f, h) && f.InArea() && SamePointers(a, f) && a.cells[a.wr - FLASH_START] != Erased && a.InArea()
    requires next == SendFlash(a, [0], true, WORKING).0
    ensures next.InArea() && Spoilt(next)
  {
    hide Inv;
    var shadow, g := SendFlash(f, [0], true, WORKING).0, SendHistory(f, h, [0], true, WORKING);
    ByteGarbles(f, h, a);
    SendKeepsSamePointers(a, f, [0], true, WORKING);
    SendFlashKeepsArea(f, [0], true, WORKING);
    ShapingIsOptimal(f.wr, EndAddress(f.n), 1, true);
    SendKeepsInv(f, h, [0], true, WORKING);
    PlaceOfPacket(f, h, [0], true, WORKING, g);
    BadPositionSpoils(shadow, g, next, |h.stream|);
  }
}
