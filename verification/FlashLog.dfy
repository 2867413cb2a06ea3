/** The flash sector ring: values, one send, and the invariant every run keeps. */
module FlashLog {
  import opened Config
  import opened FlashGeometry

  /** A flash cell. Programming is possible once after an erase; programming again leaves garbage. */
  datatype Cell = Erased | Programmed(b: byte) | Garbled

  /** What survives a reset: the first 16 bytes of the flash manager. */
  datatype Nvr = Nvr(curr: nat, wr: nat, rd: nat, nextErased: bool)

  const BLANK_STATE: Nvr := Nvr(BLANK_NVR, BLANK_NVR, BLANK_NVR, true)

  /** The flash manager with the device and the NVR; `n` sectors, absolute addresses. */
  datatype Flash = Flash(n: nat, cells: seq<Cell>, curr: nat, wr: nat, rd: nat, nextErased: bool, nvr: Nvr) {
    /** What the code needs to compute addresses inside the log area. */
    predicate InArea() {
      && SectorCount(n) && |cells| == FlashBytes(n)
      && InLog(n, wr) && InLog(n, rd) && InLog(n, curr) && AtSectorStart(curr)
    }
  }

  /** The platform's answers to one send: did the write callback succeed and how much did it
      write, did the erase command succeed, is an erase still running. */
  datatype Reply = Reply(ok: bool, written: nat, eraseOk: bool, eraseBusy: bool)

  // ------------------------------------------------------------ the device

  function ProgramCell(c: Cell, b: byte): Cell {
    if c.Erased? then Programmed(b) else Garbled
  }

  function Program(cells: seq<Cell>, at: nat, data: seq<byte>): (s: seq<Cell>)
    ensures |s| == |cells|
  {
    seq(|cells|, i requires 0 <= i < |cells| =>
      if at <= i < at + |data| then ProgramCell(cells[i], data[i - at]) else cells[i])
  }

  function EraseCells(cells: seq<Cell>, at: nat, len: nat): (s: seq<Cell>)
    ensures |s| == |cells|
  {
    seq(|cells|, i requires 0 <= i < |cells| => if at <= i < at + len then Erased else cells[i])
  }

  // ------------------------------------------------------------ one send

  /** Erasing the sector at `sector`; a log that starts there loses its oldest sector. */
  function EraseSector(f: Flash, sector: nat): Flash
    requires f.InArea() && FLASH_START <= sector
  {
    f.(cells := EraseCells(f.cells, sector - FLASH_START, SECTOR),
       rd := if f.rd == sector then NextSector(f.n, f.rd) else f.rd)
  }

  /** Preparing the next sector, or moving on to it; decided with the write pointer before the packet. */
  function PrepareSector(f: Flash, r: Reply): Flash
    requires f.InArea()
  {
    var usage := SectorUsageKB(f.wr, f.curr);
    if !f.nextErased then
      if usage >= THRESHOLD_KB && r.eraseOk then EraseSector(f, NextSector(f.n, f.curr)).(nextErased := true)
      else f
    else if !r.eraseBusy && usage >= SECTOR_KB then
      f.(nextErased := false, curr := NextSector(f.n, f.curr))
    else f
  }

  function ToNvr(f: Flash): Nvr {
    Nvr(f.curr, f.wr, f.rd, f.nextErased)
  }

  function SaveNvr(f: Flash): Flash {
    f.(nvr := ToNvr(f))
  }

  function WrapAddr(n: nat, addr: nat): nat {
    if addr == EndAddress(n) then FLASH_START else addr
  }

  function PacketSize(f: Flash, data: seq<byte>, urgent: bool): int
    requires |data| < 0x1_0000
  {
    SizeToWrite(f.wr, EndAddress(f.n), |data|, urgent)
  }

  /** One packet for the flash: the new state and the number of bytes taken from the RAM ring. */
  function SendFlash(f: Flash, data: seq<byte>, urgent: bool, r: Reply): (res: (Flash, nat))
    requires f.InArea() && |data| < 0x1_0000
    ensures res.1 <= |data|
  {
    ShapingIsOptimal(f.wr, EndAddress(f.n), |data|, urgent);
    var size := PacketSize(f, data, urgent);
    if size == 0 then (f, 0)
    else if !r.ok then
      var part := Min(r.written, size);
      (f.(cells := Program(f.cells, f.wr - FLASH_START, data[..part])), part)
    else
      var prepared := PrepareSector(f.(cells := Program(f.cells, f.wr - FLASH_START, data[..size])), r);
      (SaveNvr(prepared.(wr := WrapAddr(f.n, f.wr + size))), size)
  }

  // ------------------------------------------------------------ start-up and switching on

  function Reload(f: Flash): Flash {
    f.(curr := f.nvr.curr, wr := f.nvr.wr, rd := f.nvr.rd, nextErased := f.nvr.nextErased)
  }

  predicate IsBlank(v: Nvr) {
    v.curr == BLANK_NVR || v.wr == BLANK_NVR || v.rd == BLANK_NVR
  }

  predicate ValidNvr(n: nat, f: Flash) {
    && FLASH_START <= f.curr <= EndAddress(n)
    && FLASH_START <= f.wr <= EndAddress(n)
    && FLASH_START <= f.rd <= EndAddress(n)
  }

  /** Synchronous erase at start-up; it also takes the flag down. */
  function EraseFlashSectors(f: Flash, start: nat, count: nat, eraseOk: bool): (Flash, bool)
    requires FLASH_START <= start
  {
    if eraseOk then
      (f.(cells := EraseCells(f.cells, start - FLASH_START, 65536 * count), nextErased := false), true)
    else (f, false)
  }

  function InitDefault(f: Flash, eraseOk: bool): (Flash, bool) {
    EraseFlashSectors(f.(nextErased := false, curr := FLASH_START, wr := FLASH_START, rd := FLASH_START),
                      FLASH_START, f.n, eraseOk)
  }

  function InitFromDB(f: Flash, eraseOk: bool, saveOk: bool): (Flash, bool)
    requires SectorCount(f.n)
  {
    if !ValidNvr(f.n, f) then InitDefault(f, eraseOk)
    else if !f.nextErased then (f, true)
    else
      var next := NextSector(f.n, f.curr);
      var (g, erased) := EraseFlashSectors(f, next, 1, eraseOk);
      if !erased then (g, false)
      else if g.rd != next then (g, true)
      else
        var moved := g.(rd := NextSector(f.n, g.rd));
        (if saveOk then SaveNvr(moved) else moved, saveOk)
  }

  /** Start-up of the flash log; the pointers held in RAM are lost. */
  function InitFlash(f: Flash, eraseLog: bool, eraseOk: bool, saveOk: bool): (Flash, bool)
    requires SectorCount(f.n)
  {
    if eraseLog || IsBlank(f.nvr) then InitDefault(Reload(f), eraseOk)
    else InitFromDB(Reload(f), eraseOk, saveOk)
  }

  /** Switching the logger on in flash mode drops the old log. */
  function SwitchOn(f: Flash): Flash {
    SaveNvr(f.(rd := f.wr))
  }

  /** The cells of the log, oldest first: the cyclic interval from the read to the write pointer. */
  function LogCells(f: Flash): (s: seq<Cell>)
    requires f.InArea()
    ensures |s| == FlashUsageBytes(f.rd, f.wr, f.n)
  {
    seq(FlashUsageBytes(f.rd, f.wr, f.n), i requires 0 <= i < FlashUsageBytes(f.rd, f.wr, f.n) =>
      f.cells[Fold(f.rd - FLASH_START + i, FlashBytes(f.n))])
  }

  function AsCells(bytes: seq<byte>): (s: seq<Cell>)
    ensures |s| == |bytes|
  {
    seq(|bytes|, i requires 0 <= i < |bytes| => Programmed(bytes[i]))
  }

  // ------------------------------------------------------------ history

  /** What the pointers stand for. `stream` is everything ever written since the log was erased; it
      is laid out over the sectors in laps. Sectors are counted along the stream: `lap` is the one
      at the start of the area in the current lap, `sector` the current one, `oldest` the first one
      in the log, `origin` where the log was last cleared. */
  datatype History = History(stream: seq<byte>, lap: nat, sector: nat, oldest: nat, origin: nat)

  /** Brings a distance back into one lap of length `len`. */
  function Fold(x: int, len: nat): int {
    if x < 0 then x + len else if x >= len then x - len else x
  }

  /** The cell of stream position `p` when the current lap starts at sector `lap`. */
  function CellOf(p: int, lap: nat, n: nat): int {
    Fold(p - 65536 * lap, FlashBytes(n))
  }

  function SectorAddr(sector: int, lap: nat, n: nat): int {
    FLASH_START + 65536 * Fold(sector - lap, n)
  }

  function Max(a: int, b: int): int {
    if a < b then b else a
  }

  /** The sectors erased ahead end here. */
  function CleanEnd(sector: nat, nextErased: bool): nat {
    if nextErased then sector + 2 else sector + 1
  }

  /** The oldest sector that can be in the log: older ones were erased ahead, or cleared. */
  function FirstKept(n: nat, sector: nat, nextErased: bool, origin: nat): nat {
    Max(origin, CleanEnd(sector, nextErased) - n)
  }

  /** The log starts at the first kept sector. After a restart the flag is down although a sector
      was given up for erasing ahead; the current sector is then filled beyond the threshold. */
  predicate StartsRight(n: nat, nextErased: bool, h: History) {
    || h.oldest == FirstKept(n, h.sector, nextErased, h.origin)
    || (h.oldest == FirstKept(n, h.sector, true, h.origin)
        && |h.stream| > 65536 * h.sector + THRESHOLD_KB * 1024)
  }

  /** Stream positions from sector `oldest` on are found in their cells. */
  ghost predicate Live(cells: seq<Cell>, n: nat, stream: seq<byte>, lap: nat, oldest: nat)
    requires |cells| == FlashBytes(n)
  {
    forall p :: 65536 * oldest <= p < |stream| ==>
      0 <= CellOf(p, lap, n) < |cells| && cells[CellOf(p, lap, n)] == Programmed(stream[p])
  }

  /** The cells behind the stream, up to sector `end`, are erased. */
  ghost predicate Clean(cells: seq<Cell>, n: nat, written: nat, lap: nat, end: nat)
    requires |cells| == FlashBytes(n)
  {
    forall p {:trigger CellOf(p, lap, n)} :: written <= p < 65536 * end ==>
      0 <= CellOf(p, lap, n) < |cells| && cells[CellOf(p, lap, n)] == Erased
  }

  /** Room for the packet that will erase the next sector: a whole one, or in the last sector of the
      area, where every packet is cut at the end, a single byte. */
  predicate HasRoom(n: nat, total: nat, lap: nat, sector: nat) {
    || total + MAX_PACKET <= 65536 * (sector + 1)
    || (sector + 1 == lap + n && total < 65536 * (sector + 1))
  }

  /** Room for any packet, and behind it for the one that will erase the next sector. */
  predicate HasRoomForTwo(n: nat, total: nat, lap: nat, sector: nat) {
    || total + 2 * MAX_PACKET <= 65536 * (sector + 1)
    || (sector + 1 == lap + n && total + MAX_PACKET < 65536 * (sector + 1))
  }

  /** How far the stream may have come. With the flag down there is room for one more packet in the
      current sector; with the flag up the threshold is passed, and the next sector, which is erased,
      has room for the packet that moves on to it and for one more. */
  predicate InReach(n: nat, total: nat, lap: nat, sector: nat, nextErased: bool) {
    if nextErased then 65536 * sector + THRESHOLD_KB * 1024 < total && HasRoomForTwo(n, total, lap, sector + 1)
    else HasRoom(n, total, lap, sector)
  }

  /** The invariant. */
  ghost predicate Inv(f: Flash, h: History) {
    var total, lap, sector := |h.stream|, h.lap, h.sector;
    && SectorCount(f.n) && |f.cells| == FlashBytes(f.n)
    && 65536 * lap <= total < 65536 * lap + FlashBytes(f.n)
    && f.wr == FLASH_START + (total - 65536 * lap)
    && f.curr == SectorAddr(sector, lap, f.n)
    && f.rd == SectorAddr(h.oldest, lap, f.n)
    && 65536 * h.origin <= total && 65536 * sector <= total
    && StartsRight(f.n, f.nextErased, h)
    && InReach(f.n, total, lap, sector, f.nextErased)
    && Live(f.cells, f.n, h.stream, lap, h.oldest)
    && Clean(f.cells, f.n, total, lap, CleanEnd(sector, f.nextErased))
  }
}
