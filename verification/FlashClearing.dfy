/** Clearing the log, by a requested erase or by switching on, and what becomes of it. */
module FlashClearing {
  import opened Config
  import opened FlashGeometry
  import opened FlashLog
  import opened FlashLaws
  import opened FlashRuns
  import opened FlashHarm
  import opened FlashDamage

  // ------------------------------------------------------------ requested erase

  /** What the saved pointers say about an erase on request, which does not touch them: the next
      start-up without a request finds an empty log. */
  predicate EraseSticks(n: nat, v: Nvr, saved: Flash)
    requires SectorCount(n) && saved.curr == v.curr
  {
    || IsBlank(v) || !ValidNvr(n, saved)
    || v.wr == if v.nextErased && v.rd == NextSector(n, v.curr) then NextSector(n, v.rd) else v.rd
  }

  /** After an erase on request the log is empty; after the next start-up it is empty exactly when the
      pointers saved long before say so. */
  lemma RequestedEraseSticksIff(f: Flash, saveOk: bool, saveOkAgain: bool)
    requires SectorCount(f.n) && |f.cells| == FlashBytes(f.n)
    ensures var erased := InitFlash(f, true, true, saveOk).0;
            var again := InitFlash(erased, false, true, saveOkAgain).0;
            && erased.rd == erased.wr && erased.nvr == f.nvr
            && (again.rd == again.wr <==> EraseSticks(f.n, f.nvr, Reload(f)))
  {
  }

  /** In every state a run can save: the erase sticks exactly when the saved log was empty and the flag
      was down. Otherwise the next start-up brings back a log made of erased cells only. */
  lemma RequestedEraseForgotten(f: Flash, h: History, saveOk: bool, saveOkAgain: bool)
    requires Inv(Reload(f), h) && !IsBlank(f.nvr)
    ensures EraseSticks(f.n, f.nvr, Reload(f)) <==> f.nvr.rd == f.nvr.wr && !f.nvr.nextErased
    ensures var again := InitFlash(InitFlash(f, true, true, saveOk).0, false, true, saveOkAgain).0;
            && again.InArea() && again.wr == f.nvr.wr
            && (LogCells(again) == [] <==> EraseSticks(f.n, f.nvr, Reload(f)))
            && forall c :: c in LogCells(again) ==> c == Erased
  {
    InvInArea(Reload(f), h);
    SavedEraseSticks(f, h);
    RequestedEraseSticksIff(f, saveOk, saveOkAgain);
    RestartedOverErased(InitFlash(f, true, true, saveOk).0, saveOkAgain);
    ErasedLog(InitFlash(InitFlash(f, true, true, saveOk).0, false, true, saveOkAgain).0);
  }

  lemma SavedEraseSticks(f: Flash, h: History)
    requires Inv(Reload(f), h) && !IsBlank(f.nvr)
    ensures EraseSticks(f.n, f.nvr, Reload(f)) <==> f.nvr.rd == f.nvr.wr && !f.nvr.nextErased
  {
    var was := Reload(f);
    InvInArea(was, h);
    if was.nextErased && AtSectorStart(was.wr) {
      PointersShowRoom(was, h);
      FlagUpAtBoundary(was, h);
    } else if was.nextErased {
      SavedReadAtStart(was, h);
      RestartIsFrom(f, was, true);
    }
  }

  /** With the flag up, a write pointer at a sector start is at the start of the next sector. */
  lemma FlagUpAtBoundary(f: Flash, h: History)
    requires Inv(f, h) && f.nextErased && AtSectorStart(f.wr)
    ensures f.InArea() && f.wr == NextSector(f.n, f.curr) != NextSector(f.n, f.wr)
  {
    InvInArea(f, h);
    NextSectorAddr(f.n, h.sector, h.lap);
  }

  /** Saved pointers over an erased device. */
  lemma RestartedOverErased(f: Flash, saveOk: bool)
    requires SectorCount(f.n) && Reload(f).InArea() && !IsBlank(f.nvr)
    requires forall i :: 0 <= i < |f.cells| ==> f.cells[i] == Erased
    ensures var again := InitFlash(f, false, true, saveOk).0;
            && again.InArea() && again.wr == f.nvr.wr
            && forall i :: 0 <= i < |again.cells| ==> again.cells[i] == Erased
  {
    NextSectorStart(Reload(f));
  }

  lemma ErasedLog(f: Flash)
    requires f.InArea() && forall i :: 0 <= i < |f.cells| ==> f.cells[i] == Erased
    ensures forall c :: c in LogCells(f) ==> c == Erased
    ensures LogCells(f) == [] <==> f.rd == f.wr
  {
    forall i | 0 <= i < |LogCells(f)|
      ensures LogCells(f)[i] == Erased
    {
      assert LogCells(f)[i] == f.cells[Fold(f.rd - FLASH_START + i, FlashBytes(f.n))];
    }
  }

  /** The first packet of an empty log is saved, with the flag down. */
  lemma FirstPacketSaved(f: Flash, data: seq<byte>, urgent: bool, r: Reply, next: Flash, k: nat)
    requires f.InArea() && |data| <= MAX_PACKET && r.ok && PacketSize(f, data, urgent) > 0
    requires f.wr == f.curr == f.rd == FLASH_START && !f.nextErased && (next, k) == SendFlash(f, data, urgent, r)
    ensures 0 < k <= |data| && next.InArea() && next.nvr == ToNvr(next) && !next.nextErased
  {
    ShapingIsOptimal(f.wr, EndAddress(f.n), |data|, urgent);
    SendFlashKeepsArea(f, data, urgent, r);
  }

  lemma SavedIsReloaded(f: Flash, saveOk: bool)
    requires f.InArea() && f.nvr == ToNvr(f) && !f.nextErased
    ensures InitFlash(f, false, true, saveOk) == (f, true)
  {
  }

  /** The first packet accepted makes the erase stick: from then on a start-up finds exactly it. */
  lemma FirstPacketMakesEraseStick(f: Flash, data: seq<byte>, urgent: bool, r: Reply, saveOk: bool, saveOkAgain: bool,
                                   erased: Flash, next: Flash, k: nat)
    requires SectorCount(f.n) && |f.cells| == FlashBytes(f.n) && |data| <= MAX_PACKET && r.ok
    requires erased == InitFlash(f, true, true, saveOk).0 && erased.InArea()
    requires PacketSize(erased, data, urgent) > 0 && (next, k) == SendFlash(erased, data, urgent, r)
    ensures 0 < k <= |data| && InitFlash(next, false, true, saveOkAgain) == (next, true)
    ensures next.InArea() && LogCells(next) == AsCells(data[..k])
  {
    hide Inv;
    StartFromScratch(f, true, true, saveOk);
    FirstPacketSaved(erased, data, urgent, r, next, k);
    SavedIsReloaded(next, saveOkAgain);
    FirstPacketIsLog(erased, data, urgent, r, next, k);
  }

  lemma FirstPacketIsLog(f: Flash, data: seq<byte>, urgent: bool, r: Reply, next: Flash, k: nat)
    requires Inv(f, NO_HISTORY) && f.InArea() && |data| <= MAX_PACKET && r.ok && !f.nextErased
    requires f.wr == f.curr == FLASH_START && (next, k) == SendFlash(f, data, urgent, r)
    ensures k <= |data| && next.InArea() && LogCells(next) == AsCells(data[..k])
  {
    hide Inv;
    ShapingIsOptimal(f.wr, EndAddress(f.n), |data|, urgent);
    SendKeepsInv(f, NO_HISTORY, data, urgent, r);
    LogIsSuffix(next, SendHistory(f, NO_HISTORY, data, urgent, r));
    assert [] + data[..k] == data[..k];
  }

  // ------------------------------------------------------------ switching on

  /** Erasing the sector that the log starts inside of takes the oldest bytes of the log away. */
  lemma EraseAheadSpoils(f: Flash, sector: nat)
    requires f.InArea() && FLASH_START <= sector < f.rd < sector + SECTOR && f.rd != f.wr
    ensures var g := EraseSector(f, sector);
            g.InArea() && g.rd == f.rd && |LogCells(g)| > 0 && LogCells(g)[0] == Erased && Spoilt(g)
  {
    OldestCell(EraseSector(f, sector));
    BadCellSpoils(EraseSector(f, sector), 0);
  }

  /** A read pointer inside a sector is never moved again: the log it starts is not trimmed. */
  lemma MisalignedReadPointerStays(f: Flash, data: seq<byte>, urgent: bool, r: Reply)
    requires f.InArea() && |data| <= MAX_PACKET && !AtSectorStart(f.rd)
    ensures SendFlash(f, data, urgent, r).0.rd == f.rd
  {
    NextSectorStart(f);
  }

  /** Equal but for the start of the log. */
  predicate Twins(a: Flash, b: Flash) {
    a == b.(rd := a.rd, nvr := a.nvr)
  }

  /** The start of the log has no influence on what a send does to the rest. */
  lemma TwinsStayTwins(a: Flash, b: Flash, data: seq<byte>, urgent: bool, r: Reply)
    requires a.InArea() && b.InArea() && Twins(a, b) && |data| <= MAX_PACKET
    ensures Twins(SendFlash(a, data, urgent, r).0, SendFlash(b, data, urgent, r).0)
  {
  }

  /** When the stream has come round to the sector in which the log starts, that sector was erased. */
  lemma CameRound(a: Flash, b: Flash, h: History, start: nat)
    requires a.InArea() && Twins(a, b) && Inv(b, h) && start % 65536 != 0
    requires |h.stream| == 65536 * (start / 65536 + a.n)
    requires 65536 * h.lap - FlashBytes(a.n) <= start < 65536 * h.lap + FlashBytes(a.n)
    requires a.rd - FLASH_START == CellOf(start, h.lap, a.n)
    ensures Spoilt(a)
  {
    var again := start + FlashBytes(a.n);
    assert CellOf(again, h.lap, a.n) == a.rd - FLASH_START;
    assert CleanEnd(h.sector, b.nextErased) >= start / 65536 + a.n + 1;
    OldestCell(a);
    BadCellSpoils(a, 0);
  }

  /** One urgent byte: the stream grows by it, and the next lap begins when the area is full. */
  lemma OneByteSent(f: Flash, h: History, next: Flash, later: History)
    requires Inv(f, h) && f.InArea()
    requires next == SendFlash(f, [0], true, WORKING).0 && later == SendHistory(f, h, [0], true, WORKING)
    ensures Inv(next, later) && next.n == f.n && |later.stream| == |h.stream| + 1
    ensures later.lap == if |later.stream| == 65536 * (h.lap + f.n) then h.lap + f.n else h.lap
  {
    hide Inv;
    ShapingIsOptimal(f.wr, EndAddress(f.n), 1, true);
    SendKeepsInv(f, h, [0], true, WORKING);
    AcceptedSend(f, h, [0], true, WORKING);
  }

  /** A log that starts at stream position `start`, inside a sector: `k` bytes later it is spoilt. */
  lemma {:induction false} SpoiltWhenRound(a: Flash, b: Flash, h: History, start: nat, k: nat)
    requires a.InArea() && b.InArea() && Twins(a, b) && Inv(b, h) && start % 65536 != 0 && !AtSectorStart(a.rd)
    requires |h.stream| + k == 65536 * (start / 65536 + a.n)
    requires 65536 * h.lap - FlashBytes(a.n) <= start < 65536 * h.lap + FlashBytes(a.n)
    requires a.rd - FLASH_START == CellOf(start, h.lap, a.n)
    ensures Spoilt(Sent(a, OneByOne(k)))
    decreases k
  {
    if k == 0 {
      CameRound(a, b, h, start);
    } else {
      var next := SendFlash(a, [0], true, WORKING).0;
      var shadow, later := SendFlash(b, [0], true, WORKING).0, SendHistory(b, h, [0], true, WORKING);
      TwinsStayTwins(a, b, [0], true, WORKING);
      MisalignedReadPointerStays(a, [0], true, WORKING);
      OneByteSent(b, h, shadow, later);
      SendFlashKeepsArea(a, [0], true, WORKING);
      SendFlashKeepsArea(b, [0], true, WORKING);
      SpoiltWhenRound(next, shadow, later, start, k - 1);
      SentOneMore(a, k);
    }
  }

  lemma WriteCell(f: Flash, h: History)
    requires Inv(f, h)
    ensures f.wr - FLASH_START == CellOf(|h.stream|, h.lap, f.n)
    ensures AtSectorStart(f.wr) <==> |h.stream| % 65536 == 0
    ensures 65536 * (|h.stream| / 65536 + f.n) >= |h.stream|
  {
    hide Live, Clean, StartsRight, InReach;
    var at := f.wr - FLASH_START;
    assert |h.stream| == 65536 * (h.lap + at / 65536) + at % 65536;
  }

  lemma MisalignedSwitchHarms(f: Flash, h: History)
    requires Inv(f, h) && f.InArea() && !AtSectorStart(f.wr)
    ensures Harmful(SwitchOn(f))
  {
    var start := |h.stream|;
    var k := 65536 * (start / 65536 + f.n) - start;
    WriteCell(f, h);
    SpoiltWhenRound(SwitchOn(f), f, h, start, k);
    assert Sized(OneByOne(k)) && Spoilt(Sent(SwitchOn(f), OneByOne(k)));
  }

  /** Switching on is harmless exactly when the write pointer stands at the start of a sector.
      Anywhere else the sends that follow spoil the log one round later. */
  lemma SwitchOnHarmlessIff(f: Flash, h: History)
    requires Inv(f, h)
    ensures Harmless(SwitchOn(f), h.stream) <==> AtSectorStart(f.wr)
    ensures !AtSectorStart(f.wr) ==> Harmful(SwitchOn(f))
  {
    InvInArea(f, h);
    if AtSectorStart(f.wr) {
      SwitchOnKeeps(f, h);
      InvIsHarmless(SwitchOn(f), SwitchOnHistory(h));
    } else {
      MisalignedSwitchHarms(f, h);
      HarmfulIsNotHarmless(SwitchOn(f), h.stream);
    }
  }
}
