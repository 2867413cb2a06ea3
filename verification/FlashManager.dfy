/** The flash manager of the logger: the methods that update pointers, device and NVR in place. */
module FlashManager {
  import opened Config
  import opened FlashGeometry
  import opened FlashLog

  class Manager {
    const n: nat                  // sectors of the log area
    const cells: array<Cell>      // the device, from FLASH_START on
    var currSectorAddr: nat
    var writeAddr: nat
    var readAddr: nat
    var isNextSectorErased: bool
    var nvr: Nvr

    /** A device as it comes: arbitrary cells, a blank NVR. */
    constructor (n: nat, init: nat -> Cell)
      ensures fresh(cells) && this.n == n && cells.Length == FlashBytes(n) && nvr == BLANK_STATE
    {
      this.n := n;
      cells := new Cell[FlashBytes(n)](init);
      currSectorAddr, writeAddr, readAddr := 0, 0, 0;
      isNextSectorErased := false;
      nvr := BLANK_STATE;
    }

    ghost function State(): Flash
      reads this, cells
    {
      Flash(n, cells[..], currSectorAddr, writeAddr, readAddr, isNextSectorErased, nvr)
    }

    // ---------------------------------------------------------- the device

    method ProgramRange(at: nat, data: seq<byte>)
      requires at + |data| <= cells.Length
      modifies cells
      ensures cells[..] == Program(old(cells[..]), at, data)
    {
      forall i | 0 <= i < |data| {
        cells[at + i] := ProgramCell(cells[at + i], data[i]);
      }
      assert forall j :: at <= j < at + |data| ==> cells[j] == ProgramCell(old(cells[j]), data[j - at]) by {
        forall j | at <= j < at + |data|
          ensures cells[j] == ProgramCell(old(cells[j]), data[j - at])
        {
          assert cells[at + (j - at)] == ProgramCell(old(cells[at + (j - at)]), data[j - at]);
        }
      }
    }

    method EraseRange(at: nat, len: nat)
      modifies cells
      ensures cells[..] == EraseCells(old(cells[..]), at, len)
    {
      forall i | at <= i < at + len && i < cells.Length {
        cells[i] := Erased;
      }
    }

    method SaveNVRParams()
      modifies this`nvr
      ensures State() == SaveNvr(old(State()))
    {
      nvr := Nvr(currSectorAddr, writeAddr, readAddr, isNextSectorErased);
    }

    // ---------------------------------------------------------- sending

    /** Erases the next sector; the read pointer leaves it. */
    method EraseNextSector(nextSectorAddress: nat, eraseOk: bool) returns (ok: bool)
      requires State().InArea() && FLASH_START <= nextSectorAddress
      modifies this`readAddr, cells
      ensures ok == eraseOk
      ensures State() == if ok then EraseSector(old(State()), nextSectorAddress) else old(State())
    {
      if !eraseOk {
        return false;
      }
      EraseRange(nextSectorAddress - FLASH_START, SECTOR);
      if readAddr == nextSectorAddress {
        readAddr := NextSector(n, readAddr);
      }
      ok := true;
    }

    /** Erases ahead, or moves on to the next sector. */
    method Prepare(r: Reply)
      requires State().InArea()
      modifies this`currSectorAddr, this`readAddr, this`isNextSectorErased, cells
      ensures State() == PrepareSector(old(State()), r)
    {
      var currentSectorUsageKB := SectorUsageKB(writeAddr, currSectorAddr);
      if !isNextSectorErased {
        if currentSectorUsageKB >= THRESHOLD_KB {
          var ok := EraseNextSector(NextSector(n, currSectorAddr), r.eraseOk);
          if ok {
            isNextSectorErased := true;
          }
        }
      } else if !r.eraseBusy && currentSectorUsageKB >= SECTOR_KB {
        isNextSectorErased := false;
        currSectorAddr := NextSector(n, currSectorAddr);
      }
    }

    /** Hands a packet to the flash; the result is what may leave the RAM ring. */
    method SendPacketFlash(data: seq<byte>, urgent: bool, r: Reply) returns (taken: nat)
      requires State().InArea() && |data| < 0x1_0000
      modifies this, cells
      ensures (State(), taken) == SendFlash(old(State()), data, urgent, r)
    {
      ShapingIsOptimal(writeAddr, EndAddress(n), |data|, urgent);
      var sizeToWrite := SizeToWrite(writeAddr, EndAddress(n), |data|, urgent);
      if sizeToWrite == 0 {
        return 0;
      }
      if !r.ok {
        sizeToWrite := Min(r.written, sizeToWrite);
      }
      ProgramRange(writeAddr - FLASH_START, data[..sizeToWrite]);
      if r.ok {
        Prepare(r);
        writeAddr := writeAddr + sizeToWrite;
        if writeAddr == EndAddress(n) {
          writeAddr := FLASH_START;
        }
        SaveNVRParams();
      }
      taken := sizeToWrite;
    }

    // ---------------------------------------------------------- start-up

    method EraseSectors(startAddress: nat, numOfSectors: nat, eraseOk: bool) returns (ok: bool)
      requires FLASH_START <= startAddress
      modifies this`isNextSectorErased, cells
      ensures (State(), ok) == EraseFlashSectors(old(State()), startAddress, numOfSectors, eraseOk)
    {
      if eraseOk {
        EraseRange(startAddress - FLASH_START, 65536 * numOfSectors);
        isNextSectorErased := false;
      }
      ok := eraseOk;
    }

    method FlashMngInitDefault(eraseOk: bool) returns (ok: bool)
      modifies this, cells
      ensures (State(), ok) == InitDefault(old(State()), eraseOk)
    {
      isNextSectorErased := false;
      currSectorAddr, writeAddr, readAddr := FLASH_START, FLASH_START, FLASH_START;
      ok := EraseSectors(FLASH_START, n, eraseOk);
    }

    method FlashMngInitFromDB(eraseOk: bool, saveOk: bool) returns (ok: bool)
      requires SectorCount(n)
      modifies this, cells
      ensures (State(), ok) == InitFromDB(old(State()), eraseOk, saveOk)
    {
      var end := EndAddress(n);
      if currSectorAddr < FLASH_START || currSectorAddr > end || writeAddr < FLASH_START || writeAddr > end
         || readAddr < FLASH_START || readAddr > end {
        ok := FlashMngInitDefault(eraseOk);
        return;
      }
      if isNextSectorErased {
        var nextSectorAddress := NextSector(n, currSectorAddr);
        ok := EraseSectors(nextSectorAddress, 1, eraseOk);
        if !ok {
          return;
        }
        if readAddr == nextSectorAddress {
          readAddr := NextSector(n, readAddr);
          if saveOk {
            SaveNVRParams();
          }
          return saveOk;
        }
      }
      ok := true;
    }

    /** Start-up: the pointers come from the NVR, or from scratch. */
    method Init(isFlashReset: bool, eraseOk: bool, saveOk: bool) returns (ok: bool)
      requires SectorCount(n)
      modifies this, cells
      ensures (State(), ok) == InitFlash(old(State()), isFlashReset, eraseOk, saveOk)
    {
      currSectorAddr, writeAddr, readAddr := nvr.curr, nvr.wr, nvr.rd;
      isNextSectorErased := nvr.nextErased;
      if isFlashReset || currSectorAddr == BLANK_NVR || writeAddr == BLANK_NVR || readAddr == BLANK_NVR {
        ok := FlashMngInitDefault(eraseOk);
      } else {
        ok := FlashMngInitFromDB(eraseOk, saveOk);
      }
    }

    method SwitchFlashOn()
      modifies this`readAddr, this`nvr
      ensures State() == SwitchOn(old(State()))
    {
      readAddr := writeAddr;
      SaveNVRParams();
    }
  }
}
