/** Which restarts, interrupted sends and answers of the device the flash log survives. */
module FlashDamage {
  import opened Config
  import opened FlashGeometry
  import opened FlashLog
  import opened FlashLaws
  import opened FlashRuns
  import opened FlashHarm

  // ------------------------------------------------------------ restarts

  /** What a restart from the saved pointers `was` leaves, whatever the cells held before. */
  ghost predicate RestartedFrom(was: Flash, g: Flash) {
    && was.InArea() && g.InArea() && AtSectorStart(g.rd)
    && g.n == was.n && g.wr == was.wr && g.curr == was.curr && !g.nextErased
    && (was.nextErased ==> SectorErased(g.cells, NextSector(g.n, g.curr) - FLASH_START))
  }

  ghost predicate SectorErased(cells: seq<Cell>, at: int) {
    forall i :: at <= i < at + SECTOR ==> 0 <= i < |cells| && cells[i] == Erased
  }

  lemma RestartIsFrom(f: Flash, was: Flash, saveOk: bool)
    requires was.InArea() && AtSectorStart(was.rd) && !IsBlank(f.nvr)
    requires was == Reload(f).(cells := was.cells) && |f.cells| == |was.cells|
    ensures RestartedFrom(was, InitFlash(f, false, true, saveOk).0)
  {
    NextSectorAligned(was.n, was.rd);
    NextSectorStart(was);
  }

  /** The write pointer is behind the start of the next sector, which the restart erases again. */
  lemma RestartErasesNewest(was: Flash, h: History, g: Flash)
    requires Inv(was, h) && was.nextErased && RestartedFrom(was, g) && |h.stream| > 65536 * (h.sector + 1)
    ensures Harmful(g)
  {
    WriteBehindNext(was, h);
    NewestCell(g);
    BadCellSpoils(g, |LogCells(g)| - 1);
    SpoiltIsHarmful(g);
  }

  lemma WriteBehindNext(f: Flash, h: History)
    requires Inv(f, h) && f.nextErased && |h.stream| > 65536 * (h.sector + 1)
    ensures f.InArea() && !AtSectorStart(f.wr) && 0 < f.wr - NextSector(f.n, f.curr) < SECTOR
  {
    NextSectorAddr(f.n, h.sector, h.lap);
    assert f.wr - FLASH_START == |h.stream| - 65536 * h.lap;
  }

  /** Pointers that show no room do harm, whatever the cells held before the restart. */
  lemma UnsafeRestart(was: Flash, h: History, g: Flash)
    requires Inv(was, h) && !CrashSafe(was) && RestartedFrom(was, g)
    ensures Harmful(g)
  {
    PointersShowRoom(was, h);
    if |h.stream| > 65536 * (h.sector + 1) {
      RestartErasesNewest(was, h, g);
    } else {
      UsageTestsExact(was, h);
      NextSectorAddr(was.n, h.sector, h.lap);
      UrgentPageDoesHarm(g);
    }
  }

  lemma SavedReadAtStart(f: Flash, h: History)
    requires Inv(f, h)
    ensures f.InArea() && AtSectorStart(f.rd)
  {
  }

  /** A restart is harmless exactly when the next sector was not erased ahead, or there is room for
      another packet in the current sector; otherwise a packet the log has accepted, or the next one,
      is erased behind its back. */
  lemma RestartHarmlessIff(f: Flash, h: History, saveOk: bool)
    requires Inv(Reload(f), h) && !IsBlank(f.nvr)
    ensures Harmless(InitFlash(f, false, true, saveOk).0, h.stream) <==> CrashSafe(Reload(f))
    ensures !CrashSafe(Reload(f)) ==> Harmful(InitFlash(f, false, true, saveOk).0)
  {
    var g := InitFlash(f, false, true, saveOk).0;
    RestartRecoversIff(f, h, saveOk);
    if CrashSafe(Reload(f)) {
      InvIsHarmless(g, h);
    } else {
      SavedReadAtStart(Reload(f), h);
      RestartIsFrom(f, Reload(f), saveOk);
      UnsafeRestart(Reload(f), h, g);
      HarmfulIsNotHarmless(g, h.stream);
    }
  }

  /** A crash with the write pointer exactly on a sector boundary: every cell survives the restart, but
      the end of the first packet accepted afterwards is erased by the preparation behind it. */
  lemma CrashAtSectorBoundaryLosesPacket(f: Flash, h: History, data: seq<byte>, r: Reply)
    requires Inv(Reload(f), h) && f.nvr.nextErased && |h.stream| == 65536 * (h.sector + 1)
    requires 0 < |data| <= MAX_PACKET && r.ok && r.eraseOk && !IsBlank(f.nvr)
    ensures var g := InitFlash(f, false, true, true).0;
            && g.cells == f.cells && g.InArea()
            && var (next, k) := SendFlash(g, data, true, r);
            && k == |data| && next.cells[g.wr + k - 1 - FLASH_START] == Erased && next.wr == g.wr + k
  {
    var was, g := Reload(f), InitFlash(f, false, true, true).0;
    PointersShowRoom(was, h);
    RestartEffect(f, h, true);
    RestartKeepsLogIff(f, h, true);
    SavedReadAtStart(was, h);
    RestartIsFrom(f, was, true);
    UsageTestsExact(was, h);
    NextSectorAddr(f.n, h.sector, h.lap);
    PacketErasedAfterWrite(g, data, r);
  }

  // ------------------------------------------------------------ interrupted sends

  /** The device when a send is cut off before the pointers are saved: `done` bytes of the packet are
      programmed, and if it was all of them the sectors may be prepared already. */
  function Interrupted(f: Flash, packet: seq<byte>, done: nat, prepared: bool, r: Reply): Flash
    requires f.InArea() && done <= |packet|
  {
    var programmed := f.(cells := Program(f.cells, f.wr - FLASH_START, packet[..done]));
    if prepared then PrepareSector(programmed, r) else programmed
  }

  /** What the restart finds in the cells of the next packet. */
  lemma RestartedCells(f: Flash, saveOk: bool)
    requires SectorCount(f.n) && ValidNvr(f.n, Reload(f)) && !IsBlank(f.nvr)
    ensures var g := InitFlash(f, false, true, saveOk).0;
            && g.wr == f.nvr.wr && |g.cells| == |f.cells|
            && g.cells == if f.nvr.nextErased
                          then EraseCells(f.cells, NextSector(f.n, f.nvr.curr) - FLASH_START, SECTOR) else f.cells
  {
  }

  /** The first byte of the packet is on the device, and preparing the next sector does not touch it. */
  lemma FirstByteIsThere(f: Flash, h: History, packet: seq<byte>, done: nat, prepared: bool, r: Reply)
    requires Inv(f, h) && f.InArea() && 0 < done <= |packet| <= MAX_PACKET && f.wr + |packet| <= EndAddress(f.n)
    ensures Interrupted(f, packet, done, prepared, r).cells[f.wr - FLASH_START] != Erased
  {
    NextSectorAddr(f.n, h.sector, h.lap);
    assert !f.nextErased ==> |h.stream| < 65536 * (h.sector + 1);
  }

  /** The place of the write pointer, told from the next sector. */
  lemma WritePointerInNextSector(f: Flash, h: History)
    requires Inv(f, h)
    ensures f.InArea()
    ensures var next := NextSector(f.n, f.curr);
            if |h.stream| >= 65536 * (h.sector + 1) then next <= f.wr < next + SECTOR - MAX_PACKET
            else !(next <= f.wr < next + SECTOR)
  {
    InvInArea(f, h);
    NextSectorAddr(f.n, h.sector, h.lap);
  }

  /** Erasing a sector clears the place of a packet that starts near its beginning, and leaves the first
      byte alone if that lies outside. */
  lemma FirstByteAfterErase(cells: seq<Cell>, at: nat, sector: nat, size: nat)
    requires at + size <= |cells| && 0 < size <= MAX_PACKET
    ensures var now := EraseCells(cells, sector, SECTOR);
            && (sector <= at < sector + SECTOR - MAX_PACKET ==> forall i :: at <= i < at + size ==> now[i] == Erased)
            && (!(sector <= at < sector + SECTOR) ==> now[at] == cells[at])
  {
  }

  /** A restart from saved pointers, over cells that may hold the beginning of a packet already. */
  lemma CutOffRestart(was: Flash, h: History, cut: Flash, g: Flash, started: bool, saveOk: bool, size: nat)
    requires Inv(was, h) && was == Reload(cut).(cells := was.cells) && |cut.cells| == |was.cells| && !IsBlank(cut.nvr)
    requires 0 < size <= MAX_PACKET && was.wr + size <= EndAddress(was.n)
    requires started ==> cut.cells[was.wr - FLASH_START] != Erased
    requires !started ==> cut.cells == was.cells && TargetsErased(was, size)
    requires g == InitFlash(cut, false, true, saveOk).0
    ensures g.wr == was.wr
    ensures TargetsErased(g, size) <==> !started || (was.nextErased && SectorUsageKB(was.wr, was.curr) >= SECTOR_KB)
  {
    var at, sector := was.wr - FLASH_START, NextSector(was.n, was.curr) - FLASH_START;
    UsageTestsExact(was, h);
    WritePointerInNextSector(was, h);
    RestartedCells(cut, saveOk);
    FirstByteAfterErase(cut.cells, at, sector, size);
    assert TargetsErased(g, size) ==> g.cells[at] == Erased by {
      assert at <= at < at + size;
    }
  }

  /** Power fails between the first byte of a packet and the saving of the pointers: the next packet
      finds its cells erased exactly when no byte was programmed, or the restart erases the next sector
      and the write pointer is in it. In the latter case the log has lost its newest bytes: what counts
      for the log is `InterruptedSendHarmlessIff`. */
  lemma InterruptedCellsErasedIff(f: Flash, h: History, packet: seq<byte>, done: nat, prepared: bool, r: Reply,
                                  saveOk: bool, size: nat)
    requires Inv(f, h) && Inv(Reload(f), h) && !IsBlank(f.nvr) && f.InArea()
    requires 0 < |packet| <= MAX_PACKET && done <= |packet| && (prepared ==> done == |packet|)
    requires 0 < size <= MAX_PACKET && f.wr + Max(|packet|, size) <= EndAddress(f.n)
    ensures var g := InitFlash(Interrupted(f, packet, done, prepared, r), false, true, saveOk).0;
            && g.wr == f.wr
            && (TargetsErased(g, size)
                <==> done == 0 || (f.nvr.nextErased && SectorUsageKB(f.nvr.wr, f.nvr.curr) >= SECTOR_KB))
  {
    var cut := Interrupted(f, packet, done, prepared, r);
    var was, g := Reload(f), InitFlash(cut, false, true, saveOk).0;
    if done == 0 {
      assert packet[..0] == [] && cut.cells == f.cells;
      PacketLands(was, h, seq(size, _ => 0));
      CutOffRestart(was, h, cut, g, false, saveOk, size);
    } else {
      FirstByteIsThere(f, h, packet, done, prepared, r);
      CutOffRestart(was, h, cut, g, true, saveOk, size);
    }
  }

  /** The stream is in its cells after a send that erased ahead, if the log did not begin there. */
  lemma CutOffLive(f: Flash, h: History, packet: seq<byte>, r: Reply, cells: seq<Cell>)
    requires Inv(f, h) && f.InArea() && !f.nextErased && SectorUsageKB(f.wr, f.curr) >= THRESHOLD_KB && r.eraseOk
    requires 0 < |packet| <= MAX_PACKET && f.wr + |packet| <= EndAddress(f.n) && f.rd != NextSector(f.n, f.curr)
    requires cells == Interrupted(f, packet, |packet|, true, r).cells
    ensures |cells| == FlashBytes(f.n) && Live(cells, f.n, h.stream + packet, h.lap, h.oldest)
  {
    UsageTestsExact(f, h);
    ReadPointerMoves(f, h);
    assert packet[..|packet|] == packet;
    PacketLands(f, h, packet);
    EraseKeeps(Program(f.cells, f.wr - FLASH_START, packet), f.n, h.stream + packet, h.lap, h.sector,
               h.oldest, h.oldest);
  }

  /** A log whose stream is in its cells is not spoilt. */
  lemma LiveIsNotSpoilt(f: Flash, h: History, stream: seq<byte>, g: Flash)
    requires Inv(f, h) && f.InArea() && g == f.(cells := g.cells) && |g.cells| == |f.cells| && g.InArea()
    requires |h.stream| <= |stream| && Live(g.cells, f.n, stream, h.lap, h.oldest)
    ensures !Spoilt(g)
  {
    LogBounds(f, h);
    forall i | 0 <= i < |LogCells(g)|
      ensures LogCells(g)[i].Programmed?
    {
      var p := 65536 * h.oldest + i;
      assert Fold(f.rd - FLASH_START + i, FlashBytes(f.n)) == CellOf(p, h.lap, f.n);
      assert g.cells[CellOf(p, h.lap, f.n)] == Programmed(stream[p]);
    }
  }

  /** With the saved flag down a restart takes the saved pointers as they are. */
  lemma PlainRestart(f: Flash, saveOk: bool)
    requires SectorCount(f.n) && ValidNvr(f.n, Reload(f)) && !IsBlank(f.nvr) && !f.nvr.nextErased
    ensures InitFlash(f, false, true, saveOk).0 == Reload(f)
  {
  }

  /** Some of the packet is on the device, and the pointers show room: the next byte garbles it. */
  lemma InterruptedSendGarbles(f: Flash, h: History, cut: Flash, g: Flash, saveOk: bool)
    requires Inv(f, h) && Inv(Reload(f), h) && !IsBlank(f.nvr) && CrashSafe(Reload(f)) && f.InArea()
    requires cut.n == f.n && cut.nvr == f.nvr && |cut.cells| == |f.cells| && cut.cells[f.wr - FLASH_START] != Erased
    requires g == InitFlash(cut, false, true, saveOk).0
    ensures Harmful(g)
  {
    var was, plain := Reload(f), InitFlash(f, false, true, saveOk).0;
    RestartRecoversIff(f, h, saveOk);
    PointersShowRoom(was, h);
    WritePointerInNextSector(was, h);
    RestartedCells(cut, saveOk);
    assert SamePointers(g, plain);
    WrittenTargetDoesHarm(plain, h, g);
  }

  /** Power fails between the first byte of a packet and the saving of the pointers: what the restart
      leaves is harmless exactly when no byte was programmed and the saved pointers show room. */
  lemma InterruptedSendHarmlessIff(f: Flash, h: History, packet: seq<byte>, done: nat, prepared: bool, r: Reply,
                                   saveOk: bool)
    requires Inv(f, h) && Inv(Reload(f), h) && !IsBlank(f.nvr) && f.InArea()
    requires 0 < |packet| <= MAX_PACKET && f.wr + |packet| <= EndAddress(f.n)
    requires done <= |packet| && (prepared ==> done == |packet|)
    ensures var g := InitFlash(Interrupted(f, packet, done, prepared, r), false, true, saveOk).0;
            && (Harmless(g, h.stream) <==> done == 0 && CrashSafe(Reload(f)))
            && (!(done == 0 && CrashSafe(Reload(f))) ==> Harmful(g))
  {
    var cut := Interrupted(f, packet, done, prepared, r);
    var was, g := Reload(f), InitFlash(cut, false, true, saveOk).0;
    if done == 0 {
      assert packet[..0] == [] && cut.cells == f.cells;
      assert cut == f;
      RestartHarmlessIff(f, h, saveOk);
    } else {
      FirstByteIsThere(f, h, packet, done, prepared, r);
      InterruptedSendHarms(f, h, cut, g, saveOk);
      HarmfulIsNotHarmless(g, h.stream);
    }
  }

  lemma InterruptedSendHarms(f: Flash, h: History, cut: Flash, g: Flash, saveOk: bool)
    requires Inv(f, h) && Inv(Reload(f), h) && !IsBlank(f.nvr) && f.InArea()
    requires cut.n == f.n && cut.nvr == f.nvr && |cut.cells| == |f.cells| && cut.cells[f.wr - FLASH_START] != Erased
    requires g == InitFlash(cut, false, true, saveOk).0
    ensures Harmful(g)
  {
    if CrashSafe(Reload(f)) {
      InterruptedSendGarbles(f, h, cut, g, saveOk);
    } else {
      SavedReadAtStart(Reload(f), h);
      RestartIsFrom(cut, Reload(f), saveOk);
      UnsafeRestart(Reload(f), h, g);
    }
  }

  /** Power fails after the next sector was erased and before the pointers are saved: the restarted log
      is spoilt at once exactly when it begins with the sector that was erased; if not, the next packet
      spoils it. */
  lemma InterruptedEraseSpoilsIff(f: Flash, h: History, packet: seq<byte>, r: Reply, saveOk: bool)
    requires Inv(f, h) && f.nvr == ToNvr(f) && f.InArea() && r.eraseOk
    requires !f.nextErased && SectorUsageKB(f.wr, f.curr) >= THRESHOLD_KB
    requires 0 < |packet| <= MAX_PACKET && f.wr + |packet| <= EndAddress(f.n)
    ensures var g := InitFlash(Interrupted(f, packet, |packet|, true, r), false, true, saveOk).0;
            g.InArea() && (Spoilt(g) <==> f.rd == NextSector(f.n, f.curr)) && Harmful(g)
  {
    hide Live, Clean;
    var cut := Interrupted(f, packet, |packet|, true, r);
    var g := InitFlash(cut, false, true, saveOk).0;
    InterruptedSendHarmlessIff(f, h, packet, |packet|, true, r, saveOk);
    PlainRestart(cut, saveOk);
    assert g == f.(cells := cut.cells) by {
      assert cut.n == f.n && cut.nvr == f.nvr;
    }
    ReadPointerMoves(f, h);
    if f.rd == NextSector(f.n, f.curr) {
      LogBounds(f, h);
      OldestCell(g);
      BadCellSpoils(g, 0);
    } else {
      CutOffLive(f, h, packet, r, g.cells);
      LiveIsNotSpoilt(f, h, h.stream + packet, g);
    }
  }

  // ------------------------------------------------------------ the answers of the device

  /** A write pointer less than a page before the end of its sector, or just behind it. */
  predicate AtSectorEnd(n: nat, wr: nat, curr: nat)
    requires FLASH_START <= curr && 1 <= n
  {
    wr == NextSector(n, curr) || (curr + SECTOR - MAX_PACKET < wr < curr + SECTOR && curr + SECTOR < EndAddress(n))
  }

  lemma UsageAtSectorEnd(n: nat, wr: nat, curr: nat)
    requires SectorCount(n) && InLog(n, wr) && InLog(n, curr) && AtSectorStart(curr) && AtSectorEnd(n, wr, curr)
    ensures SectorUsageKB(wr, curr) >= THRESHOLD_KB
    ensures NextSector(n, curr) < wr + MAX_PACKET < NextSector(n, curr) + SECTOR && wr + MAX_PACKET <= EndAddress(n)
  {
    if wr >= curr {
      PlainUsage(wr - curr, wr, curr);
    } else {
      WrappedUsage(n, SECTOR, wr, curr);
    }
  }

  /** With the flag down, a page sent from there is erased at its end. */
  lemma FlagDownAtSectorEnd(f: Flash)
    requires f.InArea() && !f.nextErased && AtSectorStart(f.rd) && AtSectorEnd(f.n, f.wr, f.curr)
    ensures Harmful(f)
  {
    UsageAtSectorEnd(f.n, f.wr, f.curr);
    UrgentPageDoesHarm(f);
  }

  /** A packet behind which the erase is refused, with no room left in the sector. */
  lemma RefusedEraseHarms(f: Flash, h: History, size: nat, next: Flash)
    requires Inv(f, h) && !f.nextErased && f.InArea() && 0 < size <= MAX_PACKET && f.wr + size <= EndAddress(f.n)
    requires next == f.(cells := next.cells, wr := WrapAddr(f.n, f.wr + size), nvr := next.nvr) && next.InArea()
    requires !RoomAt(f.n, f.wr + size, f.curr)
    ensures Harmful(next)
  {
    PointersShowRoom(f, h);
    SavedReadAtStart(f, h);
    assert f.wr - f.curr == |h.stream| - 65536 * h.sector;
    FlagDownAtSectorEnd(next);
  }

  /** The sector pointer moves on with the next page, too late for another one. */
  lemma LatePage(f: Flash, next: Flash)
    requires f.InArea() && f.nextErased && next == SendFlash(f, UrgentPage().data, true, WORKING).0
    requires var sector := NextSector(f.n, f.curr);
             && sector <= f.wr < sector + SECTOR && f.wr + 2 * MAX_PACKET > sector + SECTOR
             && if sector + SECTOR < EndAddress(f.n) then f.wr + MAX_PACKET <= sector + SECTOR
                else f.wr + MAX_PACKET >= EndAddress(f.n)
    ensures next.InArea() && !next.nextErased && next.rd == f.rd && next.curr == NextSector(f.n, f.curr)
    ensures AtSectorEnd(next.n, next.wr, next.curr)
  {
    NextSectorStart(f);
    UsageInNextSector(f.n, f.wr, f.curr);
    SendFlashKeepsArea(f, UrgentPage().data, true, WORKING);
  }

  lemma UsageInNextSector(n: nat, wr: nat, curr: nat)
    requires SectorCount(n) && InLog(n, curr) && AtSectorStart(curr)
    requires NextSector(n, curr) <= wr < NextSector(n, curr) + SECTOR
    ensures SectorUsageKB(wr, curr) >= SECTOR_KB
  {
    if NextSector(n, curr) > curr {
      PlainUsage(wr - curr, wr, curr);
    } else {
      WrappedUsage(n, SECTOR + (wr - NextSector(n, curr)), wr, curr);
    }
  }

  /** A packet behind which the erase is still running, with no room for two in the next sector. */
  lemma LateEraseHarms(f: Flash, h: History, size: nat, next: Flash)
    requires Inv(f, h) && f.nextErased && f.InArea() && 0 < size <= MAX_PACKET && f.wr + size <= EndAddress(f.n)
    requires SectorUsageKB(f.wr, f.curr) >= SECTOR_KB
    requires next == f.(cells := next.cells, wr := WrapAddr(f.n, f.wr + size), nvr := next.nvr) && next.InArea()
    requires !RoomForTwoAt(f.n, f.wr + size, NextSector(f.n, f.curr))
    ensures Harmful(next)
  {
    UsageTestsExact(f, h);
    SavedReadAtStart(f, h);
    RoomForTwoShows(f, h);
    var later := SendFlash(next, UrgentPage().data, true, WORKING).0;
    LatePage(next, later);
    FlagDownAtSectorEnd(later);
    HarmfulOneLater(next, UrgentPage(), later);
  }

  /** With the write pointer in the next sector, the pointers show the room there. */
  lemma RoomForTwoShows(f: Flash, h: History)
    requires Inv(f, h) && f.nextErased && |h.stream| >= 65536 * (h.sector + 1)
    ensures f.InArea()
    ensures NextSector(f.n, f.curr) <= f.wr && RoomForTwoAt(f.n, f.wr, NextSector(f.n, f.curr))
  {
    InvInArea(f, h);
    NextSectorAddr(f.n, h.sector, h.lap);
  }

  /** Some of a refused packet is on the device. */
  lemma RefusedPartHarms(f: Flash, h: History, packet: seq<byte>, next: Flash)
    requires Inv(f, h) && f.InArea() && 0 < |packet| && f.wr + |packet| <= EndAddress(f.n)
    requires next == f.(cells := Program(f.cells, f.wr - FLASH_START, packet))
    ensures Harmful(next)
  {
    WrittenTargetDoesHarm(f, h, next);
  }

  /** What an answer must respect is exact: the log survives the sends that follow if and only if the
      packet was refused as a whole, or held back, or the erase behind it was accepted or can still come
      in time. */
  lemma SendHarmlessIff(f: Flash, h: History, data: seq<byte>, urgent: bool, r: Reply)
    requires Inv(f, h) && |data| <= MAX_PACKET && f.InArea()
    ensures var next, later := SendFlash(f, data, urgent, r).0, SendHistory(f, h, data, urgent, r);
            && (Harmless(next, later.stream) <==> Grants(f, PacketSize(f, data, urgent), r))
            && (!Grants(f, PacketSize(f, data, urgent), r) ==> Harmful(next))
  {
    var next, later := SendFlash(f, data, urgent, r).0, SendHistory(f, h, data, urgent, r);
    if Grants(f, PacketSize(f, data, urgent), r) {
      SendKeepsInv(f, h, data, urgent, r);
      InvIsHarmless(next, later);
    } else {
      UngrantedSendHarms(f, h, data, urgent, r, next);
      HarmfulIsNotHarmless(next, later.stream);
    }
  }

  lemma UngrantedSendHarms(f: Flash, h: History, data: seq<byte>, urgent: bool, r: Reply, next: Flash)
    requires Inv(f, h) && |data| <= MAX_PACKET && f.InArea() && next == SendFlash(f, data, urgent, r).0
    requires !Grants(f, PacketSize(f, data, urgent), r)
    ensures Harmful(next)
  {
    ShapingIsOptimal(f.wr, EndAddress(f.n), |data|, urgent);
    SendFlashKeepsArea(f, data, urgent, r);
    var size := PacketSize(f, data, urgent);
    if !r.ok {
      RefusedPartHarms(f, h, data[..Min(r.written, size)], next);
    } else if !f.nextErased {
      RefusedEraseHarms(f, h, size, next);
    } else {
      LateEraseHarms(f, h, size, next);
    }
  }
}
