/** Erase before write, integrity and retention of the flash log. */
module FlashLaws {
  import opened Config
  import opened FlashGeometry
  import opened FlashLog

  // ------------------------------------------------------------ the layout of the stream

  /** Appending a packet to the stream programs erased cells only and keeps everything in the log. */
  lemma ProgramKeeps(cells: seq<Cell>, n: nat, stream: seq<byte>, lap: nat, oldest: nat, end: nat, data: seq<byte>)
    requires SectorCount(n) && |cells| == FlashBytes(n)
    requires 65536 * lap <= |stream| && |stream| + |data| <= 65536 * lap + FlashBytes(n)
    requires oldest <= end <= oldest + n && |stream| + |data| <= 65536 * end && 65536 * oldest <= |stream|
    requires Live(cells, n, stream, lap, oldest) && Clean(cells, n, |stream|, lap, end)
    ensures var at := |stream| - 65536 * lap;
            && (forall i :: at <= i < at + |data| ==> cells[i] == Erased)
            && Live(Program(cells, at, data), n, stream + data, lap, oldest)
            && Clean(Program(cells, at, data), n, |stream + data|, lap, end)
  {
    var at, total := |stream| - 65536 * lap, |stream|;
    var now := Program(cells, at, data);
    forall i | at <= i < at + |data|
      ensures cells[i] == Erased
    {
      assert CellOf(i + 65536 * lap, lap, n) == i;
    }
    forall p | 65536 * oldest <= p < |stream + data|
      ensures 0 <= CellOf(p, lap, n) < |now| && now[CellOf(p, lap, n)] == Programmed((stream + data)[p])
    {
      if p < total && |data| > 0 {
        assert cells[CellOf(p, lap, n)] == Programmed(stream[p]);
      }
    }
    forall p {:trigger CellOf(p, lap, n)} | |stream + data| <= p < 65536 * end
      ensures 0 <= CellOf(p, lap, n) < |now| && now[CellOf(p, lap, n)] == Erased
    {
    }
  }

  /** Erasing the sector behind the clean ones keeps the log from the next oldest sector on. */
  lemma EraseKeeps(cells: seq<Cell>, n: nat, stream: seq<byte>, lap: nat, sector: nat, oldest: nat, next: nat)
    requires SectorCount(n) && |cells| == FlashBytes(n) && oldest <= next
    requires sector + 2 <= next + n && lap <= sector + 1 <= lap + n
    requires 65536 * sector <= |stream| <= 65536 * (sector + 1) && 65536 * lap <= |stream|
    requires Live(cells, n, stream, lap, oldest) && Clean(cells, n, |stream|, lap, sector + 1)
    ensures var now := EraseCells(cells, 65536 * Fold(sector + 1 - lap, n), SECTOR);
            Live(now, n, stream, lap, next) && Clean(now, n, |stream|, lap, sector + 2)
  {
  }

  /** When a lap is full the next one starts; no position changes its cell. */
  lemma LapShift(cells: seq<Cell>, n: nat, stream: seq<byte>, lap: nat, oldest: nat, end: nat)
    requires SectorCount(n) && |cells| == FlashBytes(n) && |stream| == 65536 * (lap + n)
    requires lap <= oldest && end <= lap + 2 * n
    requires Live(cells, n, stream, lap, oldest) && Clean(cells, n, |stream|, lap, end)
    ensures Live(cells, n, stream, lap + n, oldest) && Clean(cells, n, |stream|, lap + n, end)
  {
    forall p | 65536 * oldest <= p < |stream|
      ensures 0 <= CellOf(p, lap + n, n) < |cells| && cells[CellOf(p, lap + n, n)] == Programmed(stream[p])
    {
      assert CellOf(p, lap + n, n) == CellOf(p, lap, n);
    }
    forall p {:trigger CellOf(p, lap + n, n)} | |stream| <= p < 65536 * end
      ensures 0 <= CellOf(p, lap + n, n) < |cells| && cells[CellOf(p, lap + n, n)] == Erased
    {
      assert CellOf(p, lap + n, n) == CellOf(p, lap, n);
    }
  }

  // ------------------------------------------------------------ pointers

  lemma InvInArea(f: Flash, h: History)
    requires Inv(f, h)
    ensures f.InArea()
  {
  }

  lemma PrepareKeepsArea(f: Flash, r: Reply)
    requires f.InArea()
    ensures PrepareSector(f, r).InArea() && PrepareSector(f, r).n == f.n && PrepareSector(f, r).wr == f.wr
  {
  }

  /** No send moves a pointer out of the area. */
  lemma SendFlashKeepsArea(f: Flash, data: seq<byte>, urgent: bool, r: Reply)
    requires f.InArea() && |data| < 0x1_0000
    ensures SendFlash(f, data, urgent, r).0.InArea() && SendFlash(f, data, urgent, r).0.n == f.n
  {
    ShapingIsOptimal(f.wr, EndAddress(f.n), |data|, urgent);
    var size := PacketSize(f, data, urgent);
    PrepareKeepsArea(f.(cells := Program(f.cells, f.wr - FLASH_START, data[..size])), r);
  }

  lemma NextSectorAddr(n: nat, sector: int, lap: nat)
    requires SectorCount(n) && lap <= sector + n && sector < lap + n
    ensures NextSector(n, SectorAddr(sector, lap, n)) == SectorAddr(sector + 1, lap, n)
  {
  }

  /** The 32-bit difference across the wrap, cut to 16 bits, stays above a full sector. */
  lemma WrappedUsage(n: nat, used: nat, writeAddr: nat, sectorAddr: nat)
    requires SectorCount(n) && 65536 <= used < 2 * 65536
    requires writeAddr - sectorAddr == used - 65536 * n
    ensures SectorUsageKB(writeAddr, sectorAddr) == 65536 - 64 * n + used / 1024 >= SECTOR_KB
  {
    var kb, rest := used / 1024, used % 1024;
    var wrapped := (writeAddr - sectorAddr) % 0x1_0000_0000;
    assert wrapped == 1024 * (4194304 - 64 * n + kb) + rest;
    assert wrapped / 1024 == 65536 * 63 + (65536 - 64 * n + kb);
  }

  lemma PlainUsage(used: nat, writeAddr: nat, sectorAddr: nat)
    requires used < 2 * 65536 && writeAddr - sectorAddr == used
    ensures SectorUsageKB(writeAddr, sectorAddr) == used / 1024
  {
  }

  /** The 16-bit usage tests are exact in every reachable state, also behind the wrap of the write
      pointer, where the 32-bit subtraction underflows. */
  lemma UsageTestsExact(f: Flash, h: History)
    requires Inv(f, h)
    ensures SectorUsageKB(f.wr, f.curr) >= SECTOR_KB <==> |h.stream| >= 65536 * (h.sector + 1)
    ensures SectorUsageKB(f.wr, f.curr) >= THRESHOLD_KB <==> |h.stream| >= 65536 * h.sector + THRESHOLD_KB * 1024
  {
    var used := |h.stream| - 65536 * h.sector;
    if h.sector < h.lap {
      WrappedUsage(f.n, used, f.wr, f.curr);
    } else {
      PlainUsage(used, f.wr, f.curr);
    }
  }

  // ------------------------------------------------------------ one send

  /** The write address leaves room in the current sector: for a whole packet, or in the last sector
      for anything at all. */
  predicate RoomAt(n: nat, wr: int, curr: nat) {
    || wr + MAX_PACKET <= curr + SECTOR
    || (curr + SECTOR == EndAddress(n) && wr < EndAddress(n))
  }

  /** The same, with room for a packet before that. */
  predicate RoomForTwoAt(n: nat, wr: int, curr: nat) {
    || wr + 2 * MAX_PACKET <= curr + SECTOR
    || (curr + SECTOR == EndAddress(n) && wr + MAX_PACKET < EndAddress(n))
  }

  /** What the platform must grant a packet, in terms of what the code can see. A packet is refused as a
      whole. Behind an accepted one, an erase may be refused while there is room in the current sector,
      and may still be running while there is room for two packets in the next one. */
  predicate Grants(f: Flash, size: int, r: Reply)
    requires f.InArea()
  {
    size > 0 ==>
      if !r.ok then r.written == 0
      else if !f.nextErased then r.eraseOk || RoomAt(f.n, f.wr + size, f.curr)
      else r.eraseBusy && SectorUsageKB(f.wr, f.curr) >= SECTOR_KB ==>
             RoomForTwoAt(f.n, f.wr + size, NextSector(f.n, f.curr))
  }

  /** The history after a send. */
  function SendHistory(f: Flash, h: History, data: seq<byte>, urgent: bool, r: Reply): History
    requires f.InArea() && |data| < 0x1_0000
  {
    var (next, k) := SendFlash(f, data, urgent, r);
    if !r.ok then h
    else History(h.stream + data[..k],
                 if next.wr < f.wr then h.lap + f.n else h.lap,
                 if next.curr != f.curr then h.sector + 1 else h.sector,
                 if next.rd != f.rd then h.oldest + 1 else h.oldest,
                 h.origin)
  }

  /** The invariant before the write pointer is moved and wrapped. */
  ghost predicate Reached(f: Flash, h: History) {
    var total, lap, sector := |h.stream|, h.lap, h.sector;
    && SectorCount(f.n) && |f.cells| == FlashBytes(f.n)
    && 65536 * lap <= total <= 65536 * lap + FlashBytes(f.n)
    && f.curr == SectorAddr(sector, lap, f.n)
    && f.rd == SectorAddr(h.oldest, lap, f.n)
    && 65536 * h.origin <= total && 65536 * sector <= total && sector < lap + f.n && h.oldest < lap + f.n
    && StartsRight(f.n, f.nextErased, h)
    && InReach(f.n, total, lap, sector, f.nextErased)
    && Live(f.cells, f.n, h.stream, lap, h.oldest)
    && Clean(f.cells, f.n, total, lap, CleanEnd(sector, f.nextErased))
  }

  lemma WrapKeeps(f: Flash, h: History, next: Flash, nextHistory: History)
    requires Reached(f, h)
    requires next == SaveNvr(f.(wr := WrapAddr(f.n, FLASH_START + (|h.stream| - 65536 * h.lap))))
    requires nextHistory == h.(lap := if |h.stream| == 65536 * (h.lap + f.n) then h.lap + f.n else h.lap)
    ensures Inv(next, nextHistory)
  {
    if |h.stream| == 65536 * (h.lap + f.n) {
      LapShift(f.cells, f.n, h.stream, h.lap, h.oldest, CleanEnd(h.sector, f.nextErased));
    }
  }

  /** The read pointer gives up a sector exactly when that sector is erased. */
  lemma ReadPointerMoves(f: Flash, h: History)
    requires Inv(f, h) && !f.nextErased
    ensures NextSector(f.n, f.curr) == SectorAddr(h.sector + 1, h.lap, f.n)
    ensures f.rd == NextSector(f.n, f.curr) <==> h.oldest == h.sector + 1 - f.n
    ensures f.rd == NextSector(f.n, f.curr) ==> NextSector(f.n, f.rd) == SectorAddr(h.oldest + 1, h.lap, f.n) != f.rd
  {
    NextSectorAddr(f.n, h.sector, h.lap);
    NextSectorAddr(f.n, h.oldest, h.lap);
  }

  /** The flag is down and the next sector is erased: the oldest sector leaves the log. */
  lemma EraseAheadKeeps(f: Flash, h: History, programmed: Flash, stream: seq<byte>, next: Flash, nextHistory: History)
    requires Inv(f, h) && !f.nextErased
    requires |h.stream| >= 65536 * h.sector + THRESHOLD_KB * 1024
    requires |h.stream| < |stream| <= |h.stream| + MAX_PACKET && |stream| <= 65536 * h.lap + FlashBytes(f.n)
    requires programmed == f.(cells := programmed.cells) && |programmed.cells| == |f.cells|
    requires Live(programmed.cells, f.n, stream, h.lap, h.oldest)
    requires Clean(programmed.cells, f.n, |stream|, h.lap, h.sector + 1)
    requires programmed.InArea()
    requires next == EraseSector(programmed, NextSector(f.n, f.curr)).(nextErased := true)
    requires nextHistory == h.(stream := stream, oldest := if next.rd != f.rd then h.oldest + 1 else h.oldest)
    ensures Reached(next, nextHistory)
  {
    hide Live, Clean;
    InvInArea(f, h);
    ReadPointerMoves(f, h);
    EraseKeeps(programmed.cells, f.n, stream, h.lap, h.sector, h.oldest,
               if h.oldest == h.sector + 1 - f.n then h.oldest + 1 else h.oldest);
  }

  /** An accepted packet, before the write pointer is moved. */
  function Prepared(f: Flash, packet: seq<byte>, r: Reply): Flash
    requires f.InArea()
  {
    PrepareSector(f.(cells := Program(f.cells, f.wr - FLASH_START, packet)), r)
  }

  function PreparedHistory(f: Flash, h: History, packet: seq<byte>, r: Reply): History
    requires f.InArea()
  {
    var p := Prepared(f, packet, r);
    h.(stream := h.stream + packet,
       sector := if p.curr != f.curr then h.sector + 1 else h.sector,
       oldest := if p.rd != f.rd then h.oldest + 1 else h.oldest)
  }

  /** The packet is in place and the sectors are as before. */
  ghost predicate Landed(f: Flash, h: History, packet: seq<byte>)
    requires Inv(f, h)
  {
    && 0 < |packet| <= MAX_PACKET && f.wr + |packet| <= EndAddress(f.n) && f.InArea()
    && var cells := Program(f.cells, f.wr - FLASH_START, packet);
    && Live(cells, f.n, h.stream + packet, h.lap, h.oldest)
    && Clean(cells, f.n, |h.stream + packet|, h.lap, CleanEnd(h.sector, f.nextErased))
  }

  /** With the flag down, and the next sector erased now. */
  lemma PrepareErasing(f: Flash, h: History, packet: seq<byte>, r: Reply)
    requires Inv(f, h) && Landed(f, h, packet) && !f.nextErased
    requires SectorUsageKB(f.wr, f.curr) >= THRESHOLD_KB && r.eraseOk
    ensures Reached(Prepared(f, packet, r), PreparedHistory(f, h, packet, r))
  {
    var programmed := f.(cells := Program(f.cells, f.wr - FLASH_START, packet));
    UsageTestsExact(f, h);
    EraseAheadKeeps(f, h, programmed, h.stream + packet, Prepared(f, packet, r), PreparedHistory(f, h, packet, r));
  }

  /** With the flag down, and too early for an erase or the erase refused. */
  lemma PrepareIdle(f: Flash, h: History, packet: seq<byte>, r: Reply)
    requires Inv(f, h) && Landed(f, h, packet) && r.ok && Grants(f, |packet|, r) && !f.nextErased
    requires !(SectorUsageKB(f.wr, f.curr) >= THRESHOLD_KB && r.eraseOk)
    ensures Reached(Prepared(f, packet, r), PreparedHistory(f, h, packet, r))
  {
    UsageTestsExact(f, h);
  }

  /** With the flag up. */
  lemma PrepareFlagUp(f: Flash, h: History, packet: seq<byte>, r: Reply)
    requires Inv(f, h) && Landed(f, h, packet) && r.ok && Grants(f, |packet|, r) && f.nextErased
    ensures Reached(Prepared(f, packet, r), PreparedHistory(f, h, packet, r))
  {
    hide Live, Clean;
    UsageTestsExact(f, h);
    NextSectorAddr(f.n, h.sector, h.lap);
  }

  /** The bytes a send is about to program lie on erased cells. */
  predicate TargetsErased(f: Flash, size: int) {
    forall i :: f.wr - FLASH_START <= i < f.wr - FLASH_START + size ==> 0 <= i < |f.cells| && f.cells[i] == Erased
  }

  /** A packet that is refused, or held back by page shaping, changes nothing. */
  lemma RefusedSend(f: Flash, h: History, data: seq<byte>, urgent: bool, r: Reply)
    requires f.InArea() && |data| <= MAX_PACKET
    requires PacketSize(f, data, urgent) == 0 || (!r.ok && r.written == 0)
    ensures SendFlash(f, data, urgent, r) == (f, 0)
    ensures SendHistory(f, h, data, urgent, r) == h
  {
    ShapingIsOptimal(f.wr, EndAddress(f.n), |data|, urgent);
    assert Program(f.cells, f.wr - FLASH_START, data[..0]) == f.cells;
    assert h.stream + data[..0] == h.stream;
  }

  /** The new lap and the new sector show in the pointers. */
  lemma AcceptedSend(f: Flash, h: History, data: seq<byte>, urgent: bool, r: Reply)
    requires Inv(f, h) && |data| <= MAX_PACKET && r.ok && f.InArea()
    requires 0 < PacketSize(f, data, urgent) <= |data|
    ensures var packet := data[..PacketSize(f, data, urgent)];
            var p, reached := Prepared(f, packet, r), PreparedHistory(f, h, packet, r);
            && SendFlash(f, data, urgent, r)
            == (SaveNvr(p.(wr := WrapAddr(p.n, FLASH_START + (|reached.stream| - 65536 * h.lap)))), |packet|)
            && SendHistory(f, h, data, urgent, r)
            == reached.(lap := if |reached.stream| == 65536 * (h.lap + p.n) then h.lap + p.n else h.lap)
  {
    ShapingIsOptimal(f.wr, EndAddress(f.n), |data|, urgent);
  }

  /** Programming a packet at the write pointer, before any sector is touched. */
  lemma PacketLands(f: Flash, h: History, packet: seq<byte>)
    requires Inv(f, h) && |packet| <= MAX_PACKET && f.wr + |packet| <= EndAddress(f.n)
    ensures TargetsErased(f, |packet|)
    ensures var cells := Program(f.cells, f.wr - FLASH_START, packet);
            && Live(cells, f.n, h.stream + packet, h.lap, h.oldest)
            && Clean(cells, f.n, |h.stream + packet|, h.lap, CleanEnd(h.sector, f.nextErased))
  {
    ProgramKeeps(f.cells, f.n, h.stream, h.lap, h.oldest,
                 CleanEnd(h.sector, f.nextErased), packet);
  }

  lemma PacketReaches(f: Flash, h: History, packet: seq<byte>, r: Reply)
    requires Inv(f, h) && 0 < |packet| <= MAX_PACKET && f.wr + |packet| <= EndAddress(f.n)
    requires f.InArea() && r.ok && Grants(f, |packet|, r)
    ensures Reached(Prepared(f, packet, r), PreparedHistory(f, h, packet, r))
  {
    PacketLands(f, h, packet);
    if f.nextErased {
      PrepareFlagUp(f, h, packet, r);
    } else if SectorUsageKB(f.wr, f.curr) >= THRESHOLD_KB && r.eraseOk {
      PrepareErasing(f, h, packet, r);
    } else {
      PrepareIdle(f, h, packet, r);
    }
  }

  lemma AcceptedSendKeeps(f: Flash, h: History, data: seq<byte>, urgent: bool, r: Reply)
    requires Inv(f, h) && |data| <= MAX_PACKET && r.ok && f.InArea()
    requires 0 < PacketSize(f, data, urgent) <= |data| && f.wr + PacketSize(f, data, urgent) <= EndAddress(f.n)
    requires Grants(f, PacketSize(f, data, urgent), r)
    ensures Inv(SendFlash(f, data, urgent, r).0, SendHistory(f, h, data, urgent, r))
  {
    var packet := data[..PacketSize(f, data, urgent)];
    PacketReaches(f, h, packet, r);
    AcceptedSend(f, h, data, urgent, r);
    WrapKeeps(Prepared(f, packet, r), PreparedHistory(f, h, packet, r),
              SendFlash(f, data, urgent, r).0, SendHistory(f, h, data, urgent, r));
  }

  /** One send: every byte lands on an erased cell, the stream grows by exactly the bytes taken from
      the RAM ring, and the invariant is kept. */
  lemma SendKeepsInv(f: Flash, h: History, data: seq<byte>, urgent: bool, r: Reply)
    requires Inv(f, h) && |data| <= MAX_PACKET
    requires f.InArea() && Grants(f, PacketSize(f, data, urgent), r)
    ensures TargetsErased(f, PacketSize(f, data, urgent))
    ensures var (next, k) := SendFlash(f, data, urgent, r);
            && Inv(next, SendHistory(f, h, data, urgent, r))
            && SendHistory(f, h, data, urgent, r).stream == h.stream + data[..k]
            && next.nvr == if k > 0 then ToNvr(next) else f.nvr
  {
    ShapingIsOptimal(f.wr, EndAddress(f.n), |data|, urgent);
    var size := PacketSize(f, data, urgent);
    PacketLands(f, h, data[..size]);
    if size == 0 || !r.ok {
      RefusedSend(f, h, data, urgent, r);
      assert h.stream + data[..0] == h.stream;
    } else {
      AcceptedSendKeeps(f, h, data, urgent, r);
      AcceptedSend(f, h, data, urgent, r);
    }
  }
}
