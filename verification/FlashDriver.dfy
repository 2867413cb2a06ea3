/** The flash write callback shipped with the logger, and when it does what the logger relies on. */
module FlashDriver {
  import opened Config
  import opened FlashGeometry
  import opened FlashLog

  /** The callback's answer: the device, success, and the length handed back. */
  datatype WriteOutcome = WriteOutcome(cells: seq<Cell>, ok: bool, written: nat)

  /** The callback at address `addr`; `first` and `second` are the amounts the device is willing to
      take in its two writes. */
  function SendFlashData(cells: seq<Cell>, addr: nat, data: seq<byte>, first: nat, second: nat): WriteOutcome
    requires FLASH_START <= addr
  {
    var at := addr - FLASH_START;
    if CrossesPage(addr, |data|) then
      var chunk := 256 - addr % 256;
      var w := Min(first, chunk);
      var programmed := Program(cells, at, data[..w]);
      if w != chunk then WriteOutcome(programmed, false, w)
      else
        var v := Min(second, |data| - w);
        // the second write starts at the address of the first one again
        WriteOutcome(Program(programmed, at, data[w..w + v]), w + v == |data|, w + v)
    else
      var v := Min(second, |data|);
      WriteOutcome(Program(cells, at, data[..v]), v == |data|, v)
  }

  method WriteFromInt(cells: array<Cell>, at: nat, data: seq<byte>, willing: nat) returns (written: nat)
    requires at + |data| <= cells.Length
    modifies cells
    ensures written == Min(willing, |data|) && cells[..] == Program(old(cells[..]), at, data[..written])
  {
    written := Min(willing, |data|);
    forall i | at <= i < at + written {
      cells[i] := ProgramCell(cells[i], data[i - at]);
    }
  }

  method SendFlashDataCb(cells: array<Cell>, addr: nat, data: seq<byte>, first: nat, second: nat)
    returns (ok: bool, written: nat)
    requires FLASH_START <= addr && addr - FLASH_START + |data| <= cells.Length
    modifies cells
    ensures WriteOutcome(cells[..], ok, written) == SendFlashData(old(cells[..]), addr, data, first, second)
  {
    var at := addr - FLASH_START;
    var dataToWrite := |data|;
    var pageOffset := addr % 256;
    written := 0;
    if pageOffset != 0 && pageOffset + dataToWrite > 256 {
      dataToWrite := 256 - pageOffset;
      written := WriteFromInt(cells, at, data[..dataToWrite], first);
      assert data[..dataToWrite][..written] == data[..written];
      if written != dataToWrite {
        return false, written;
      }
      dataToWrite := |data| - written;
    }
    ghost var was, w := cells[..], written;
    var more := WriteFromInt(cells, at, data[written..], second);
    assert data[w..][..more] == data[w..w + more];
    written := written + more;
    ok := written == |data|;
  }

  /** Away from page boundaries the callback keeps the logger's contract: it programs a prefix of the
      packet at the write pointer and reports its length, and succeeds only with the whole packet. */
  lemma CallbackKeepsContract(cells: seq<Cell>, addr: nat, data: seq<byte>, first: nat, second: nat)
    requires FLASH_START <= addr && !CrossesPage(addr, |data|)
    ensures var o := SendFlashData(cells, addr, data, first, second);
            && o.written <= |data| && (o.ok <==> o.written == |data|)
            && o.cells == Program(cells, addr - FLASH_START, data[..o.written])
  {
  }

  /** A packet across a page on erased cells, cell by cell. The first write brings `w` bytes up to the page
      boundary; only if it is complete a second one brings `v` of the rest, to the same place again. */
  lemma AcrossPageCells(cells: seq<Cell>, addr: nat, data: seq<byte>, first: nat, second: nat, o: WriteOutcome)
    requires FLASH_START <= addr && addr - FLASH_START + |data| <= |cells|
    requires addr % 256 != 0 && addr % 256 + |data| > 256
    requires forall i :: addr - FLASH_START <= i < addr - FLASH_START + |data| ==> cells[i] == Erased
    requires o == SendFlashData(cells, addr, data, first, second)
    ensures var at, c := addr - FLASH_START, 256 - addr % 256;
            var w := Min(first, c);
            var v := if w < c then 0 else Min(second, |data| - c);
            && |o.cells| == |cells| && o.written == w + v && (o.ok <==> w + v == |data|)
            && (forall i :: 0 <= i < |data| ==>
                 o.cells[at + i] == if i < w && i < v then Garbled else if i < w then Programmed(data[i])
                                    else if i < v then Programmed(data[c + i]) else Erased)
            && (forall i :: 0 <= i < |cells| && !(at <= i < at + |data|) ==> o.cells[i] == cells[i])
  {
  }

  /** On a device that takes everything: the two parts overlap at the beginning, and the end stays erased. */
  lemma AcrossPageAccepted(cells: seq<Cell>, addr: nat, data: seq<byte>, first: nat, second: nat, i: nat)
    requires FLASH_START <= addr && addr - FLASH_START + |data| <= |cells|
    requires addr % 256 != 0 && addr % 256 + |data| > 256 && first >= |data| && second >= |data| && i < |data|
    requires forall j :: addr - FLASH_START <= j < addr - FLASH_START + |data| ==> cells[j] == Erased
    ensures var c, o := 256 - addr % 256, SendFlashData(cells, addr, data, first, second);
            && o.ok && o.written == |data|
            && o.cells[addr - FLASH_START + i] == (if i < Min(c, |data| - c) then Garbled
                                                   else if c <= i < |data| - c then Programmed(data[c + i])
                                                   else if |data| - c <= i < c then Programmed(data[i])
                                                   else Erased)
  {
    AcrossPageCells(cells, addr, data, first, second, SendFlashData(cells, addr, data, first, second));
  }

  /** A packet the device takes completely is stored as the logger expects exactly when it does not
      cross a page: the second half of a split packet lands on top of the first. */
  lemma CallbackStoresPacketIff(cells: seq<Cell>, addr: nat, data: seq<byte>, first: nat, second: nat)
    requires FLASH_START <= addr && addr - FLASH_START + |data| <= |cells|
    requires |data| > 0 && first >= |data| && second >= |data|
    requires forall i :: addr - FLASH_START <= i < addr - FLASH_START + |data| ==> cells[i] == Erased
    ensures SendFlashData(cells, addr, data, first, second).cells == Program(cells, addr - FLASH_START, data)
       <==> !CrossesPage(addr, |data|)
    ensures SendFlashData(cells, addr, data, first, second).ok
  {
    var at := addr - FLASH_START;
    if CrossesPage(addr, |data|) {
      var chunk := 256 - addr % 256;
      assert SendFlashData(cells, addr, data, first, second).cells[at] == Garbled;
      assert Program(cells, at, data)[at] == Programmed(data[0]);
    } else {
      assert data[..|data|] == data;
    }
  }

  /** So every packet the logger shapes for a quiet tick is stored as expected. */
  lemma QuietPacketsKeepContract(f: Flash, data: seq<byte>, first: nat, second: nat)
    requires f.InArea() && |data| <= MAX_PACKET && 0 < PacketSize(f, data, false) <= |data|
    ensures var packet := data[..PacketSize(f, data, false)];
            var o := SendFlashData(f.cells, f.wr, packet, first, second);
            && SendFlash(f, data, false, Reply(o.ok, o.written, false, true)).1 == o.written
            && SendFlash(f, data, false, Reply(o.ok, o.written, false, true)).0.cells == o.cells
  {
    var packet := data[..PacketSize(f, data, false)];
    OnlyUrgentPacketsCrossPages(f.n, f.wr, |data|, false);
    var o := SendFlashData(f.cells, f.wr, packet, first, second);
    CallbackKeepsContract(f.cells, f.wr, packet, first, second);
    assert packet[..o.written] == data[..o.written];
  }
}
