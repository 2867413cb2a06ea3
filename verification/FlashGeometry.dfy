/** Address arithmetic of the flash log: the macros and the side-effect-free calculations. */
module FlashGeometry {
  import opened Config

  /** Sizes the logger runs with: the count of sectors is passed to the eraser as a byte. */
  predicate SectorCount(n: nat) {
    2 <= n <= 255
  }

  function FlashKB(n: nat): nat {
    64 * n
  }

  function FlashBytes(n: nat): nat {
    65536 * n
  }

  function EndAddress(n: nat): nat {
    FLASH_START + FlashKB(n) * 1024
  }

  predicate InLog(n: nat, addr: int) {
    FLASH_START <= addr < EndAddress(n)
  }

  predicate AtSectorStart(addr: int) {
    (addr - FLASH_START) % SECTOR == 0
  }

  function NextSector(n: nat, addr: nat): nat
    requires FLASH_START <= addr && 1 <= n
  {
    if (addr - FLASH_START) / 1024 >= FlashKB(n) - SECTOR_KB then FLASH_START else addr + SECTOR_KB * 1024
  }

  /** Kilobytes used in the current sector: a 32-bit subtraction, cut to 16 bits after the shift. */
  function SectorUsageKB(writeAddr: nat, sectorAddr: nat): uint16 {
    (writeAddr - sectorAddr) % 0x1_0000_0000 / 1024 % 0x1_0000
  }

  predicate PageAligned(addr: int) {
    addr % 256 == 0
  }

  // ------------------------------------------------------------ page shaping

  /** How much of `needed` bytes to write now: whole pages, unless the packet is urgent. */
  function SizeToWrite(writeAddr: nat, endAddr: nat, needed: uint16, urgent: bool): int {
    if writeAddr + needed > endAddr then
      endAddr - writeAddr
    else if urgent then
      needed
    else
      var pageOffset := writeAddr % 256;
      if pageOffset == 0 then
        needed / 256 * 256
      else if pageOffset + needed >= 256 then
        var leftOver := 256 - pageOffset;
        var numOfPages := (needed - leftOver) / 256 % 256;
        numOfPages * 256 + leftOver
      else
        0
  }

  /** Shaping never writes more than asked for and never past the end. A packet that reaches the end is
      cut there, an urgent one is not cut otherwise, and any other packet is cut at the last page
      boundary inside it: no longer prefix of it ends on a boundary. */
  lemma ShapingIsOptimal(writeAddr: nat, endAddr: nat, needed: uint16, urgent: bool)
    requires writeAddr < endAddr
    ensures var k := SizeToWrite(writeAddr, endAddr, needed, urgent);
            && 0 <= k <= needed && writeAddr + k <= endAddr
            && (urgent || writeAddr + needed > endAddr ==> k == Min(needed, endAddr - writeAddr))
            && (!urgent && writeAddr + needed <= endAddr ==>
                 (k == 0 || PageAligned(writeAddr + k))
                 && forall a :: writeAddr + k < a <= writeAddr + needed ==> !PageAligned(a))
  {
    var k := SizeToWrite(writeAddr, endAddr, needed, urgent);
    if !urgent && writeAddr + needed <= endAddr {
      var off, page := writeAddr % 256, writeAddr / 256;
      forall a | writeAddr + k < a <= writeAddr + needed
        ensures !PageAligned(a)
      {
        var j := a - writeAddr;
        if off == 0 {
          assert needed / 256 * 256 == k && writeAddr + j == 256 * (page + needed / 256) + (j - k);
        } else if off + needed >= 256 {
          var pages := (needed - (256 - off)) / 256;
          assert writeAddr + j == 256 * (page + 1 + pages) + (j - k);
        } else {
          assert writeAddr + j == 256 * page + (off + j);
        }
      }
      if k > 0 && off > 0 {
        assert writeAddr + k == 256 * (page + 1 + (needed - (256 - off)) / 256);
      }
    }
  }

  /** Where the flash driver's callback splits a packet. */
  predicate CrossesPage(addr: nat, len: nat) {
    addr % 256 != 0 && addr % 256 + len > 256
  }

  /** A shaped packet crosses a page only if it is urgent and stops short of the end. */
  lemma OnlyUrgentPacketsCrossPages(n: nat, writeAddr: nat, needed: uint16, urgent: bool)
    requires SectorCount(n) && InLog(n, writeAddr) && needed <= MAX_PACKET
    ensures CrossesPage(writeAddr, SizeToWrite(writeAddr, EndAddress(n), needed, urgent))
        ==> urgent && writeAddr + needed <= EndAddress(n)
  {
  }

  // ------------------------------------------------------------ how much to send

  function FlashUsageKB(rd: nat, wr: nat, n: nat): int {
    if wr >= rd then (wr - rd) / 1024 else FlashKB(n) - (rd - wr) / 1024
  }

  function FlashUsageBytes(rd: nat, wr: nat, n: nat): int {
    if wr >= rd then wr - rd else FlashKB(n) * 1024 - (rd - wr)
  }

  /** The number of bytes a dump or an upload of `sizeKB` kilobytes sends. */
  function ReadSizeBytes(sizeKB: uint16, rd: nat, wr: nat, n: nat): int {
    if sizeKB == WHOLE_LOG_KB || sizeKB >= FlashUsageKB(rd, wr, n) % 0x1_0000 then FlashUsageBytes(rd, wr, n)
    else sizeKB * 1024
  }

  /** Although the KB macro rounds down in an unwrapped log and up in a wrapped one, a request never
      asks for more than the log holds, misses the ideal size by less than 1 KB, and asking for
      everything gives exactly the log. */
  lemma RequestedSize(sizeKB: uint16, rd: nat, wr: nat, n: nat)
    requires SectorCount(n) && InLog(n, rd) && InLog(n, wr)
    ensures var live, size := FlashUsageBytes(rd, wr, n), ReadSizeBytes(sizeKB, rd, wr, n);
            && 0 <= size <= live < FlashBytes(n)
            && Min(live, sizeKB * 1024) <= size < Min(live, sizeKB * 1024) + 1024
            && (sizeKB == WHOLE_LOG_KB ==> size == live)
  {
  }

  /** Exactly: the whole log when it is asked for, when an unwrapped log is less than a kilobyte longer than
      the request, or when a wrapped one is not longer; else the kilobytes asked for. */
  lemma RequestedSizeExact(sizeKB: uint16, rd: nat, wr: nat, n: nat)
    requires SectorCount(n) && InLog(n, rd) && InLog(n, wr)
    ensures var live := if wr >= rd then wr - rd else 65536 * n + wr - rd;
            var whole := sizeKB == 0xFFFF || (if wr >= rd then live < 1024 * (sizeKB + 1) else live <= 1024 * sizeKB);
            ReadSizeBytes(sizeKB, rd, wr, n) == if whole then live else 1024 * sizeKB
  {
  }

  // ------------------------------------------------------------ where to start

  function ReadStart(startAddr: nat, endAddr: nat, writeAddr: nat, readAddr: nat, sizeBytes: nat): int {
    if writeAddr > readAddr then
      if writeAddr - readAddr > sizeBytes then writeAddr - sizeBytes else readAddr
    else
      var section1, section2 := writeAddr - startAddr, endAddr - readAddr;
      if sizeBytes <= section1 then writeAddr - sizeBytes
      else if sizeBytes - section1 >= section2 then endAddr - section2
      else readAddr
  }

  // ------------------------------------------------------------ accepted sizes

  /** The flash size the configuration check leaves in place, in KB. */
  function ValidatedFlashSize(flashSizeKB: uint16): nat {
    if flashSizeKB < 128 then
      if flashSizeKB == 0 then 256 else 128
    else if flashSizeKB == 0xFFFF then 256
    else if flashSizeKB > 256 then 256
    else if flashSizeKB % 64 != 0 then 256
    else flashSizeKB
  }

  /** Every configuration ends with two, three or four whole sectors: a size that is one is kept, a smaller
      one is raised to the smallest, and anything else, also none at all, gets the largest. */
  lemma ValidatedFlashSizeIsSectors(flashSizeKB: uint16)
    ensures ValidatedFlashSize(flashSizeKB) in {FlashKB(2), FlashKB(3), FlashKB(4)}
    ensures flashSizeKB in {FlashKB(2), FlashKB(3), FlashKB(4)} <==> ValidatedFlashSize(flashSizeKB) == flashSizeKB
    ensures 0 < flashSizeKB < 128 ==> ValidatedFlashSize(flashSizeKB) == 128
    ensures flashSizeKB == 0 || (flashSizeKB > 128 && flashSizeKB != 192) ==> ValidatedFlashSize(flashSizeKB) == 256
  {
  }
}
