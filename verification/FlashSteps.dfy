/** What one start-up and one accepted packet do, in addresses and bytes. The log area begins at 0xA_0000 and
    consists of `n` sectors of 0x1_0000 bytes. */
module FlashSteps {
  import opened Config
  import opened FlashGeometry
  import opened FlashLog
  import opened FlashLaws
  import opened FlashRuns

  // ------------------------------------------------------------ start-up

  /** A saved word no address of the area, nor its end. A word that was never written is one of them. */
  predicate Outside(n: nat, word: nat) {
    word < 0xA_0000 || word > 0xA_0000 + 0x1_0000 * n
  }

  predicate AnyOutside(n: nat, v: Nvr) {
    Outside(n, v.curr) || Outside(n, v.wr) || Outside(n, v.rd)
  }

  /** An empty log over a device that was erased as a whole. */
  ghost predicate StartsOver(f: Flash, g: Flash) {
    && g.curr == g.wr == g.rd == 0xA_0000 && !g.nextErased && g.nvr == f.nvr && g.n == f.n && |g.cells| == |f.cells|
    && (forall i :: 0 <= i < |g.cells| ==> g.cells[i] == Erased)
    && Inv(g, NO_HISTORY)
  }

  /** When an erase is requested, or one of the three saved words lies outside the area, start-up begins an
      empty log. If the erase fails it says so, and leaves the device and the saved words as they were. */
  lemma StartsOverWhen(f: Flash, eraseLog: bool, eraseOk: bool, saveOk: bool)
    requires SectorCount(f.n) && |f.cells| == FlashBytes(f.n) && (eraseLog || AnyOutside(f.n, f.nvr))
    ensures var (g, ok) := InitFlash(f, eraseLog, eraseOk, saveOk);
            && ok == eraseOk
            && (eraseOk ==> StartsOver(f, g))
            && (!eraseOk ==> g.cells == f.cells && g.nvr == f.nvr && g.curr == g.wr == g.rd == 0xA_0000)
  {
    if eraseOk {
      StartFromScratch(f, eraseLog, eraseOk, saveOk);
    }
  }

  /** Without a requested erase and with the saved flag down, the saved words are taken over, with nothing
      else changed, exactly when all three lie inside. */
  lemma SavedWordsTakenOverIff(f: Flash, eraseOk: bool, saveOk: bool)
    requires SectorCount(f.n) && |f.cells| == FlashBytes(f.n) && !f.nvr.nextErased
    ensures var (g, ok) := InitFlash(f, false, eraseOk, saveOk);
            && (g.curr == f.nvr.curr && g.wr == f.nvr.wr && g.rd == f.nvr.rd <==> !AnyOutside(f.n, f.nvr))
            && (!AnyOutside(f.n, f.nvr) ==>
                 ok && !g.nextErased && g.cells == f.cells && g.nvr == f.nvr && g.n == f.n)
  {
  }

  /** The sector behind `addr`, around the area. */
  function Behind(n: nat, addr: nat): nat {
    if addr >= 0xA_0000 + 0x1_0000 * (n - 1) then 0xA_0000 else addr + 0x1_0000
  }

  /** With the saved flag up and the words inside, start-up erases the sector behind the current one again:
      no other cell changes, and a read pointer at its start moves on and is saved. If the erase fails,
      start-up says so and changes nothing; it also fails when that save does. */
  lemma FlagUpStartUp(f: Flash, eraseOk: bool, saveOk: bool)
    requires SectorCount(f.n) && |f.cells| == FlashBytes(f.n) && f.nvr.nextErased && !AnyOutside(f.n, f.nvr)
    ensures var (g, ok) := InitFlash(f, false, eraseOk, saveOk);
            var next, moves := Behind(f.n, f.nvr.curr), f.nvr.rd == Behind(f.n, f.nvr.curr);
            && g.n == f.n && g.curr == f.nvr.curr && g.wr == f.nvr.wr && |g.cells| == |f.cells|
            && (!eraseOk ==> !ok && g.cells == f.cells && g.rd == f.nvr.rd && g.nextErased && g.nvr == f.nvr)
            && (eraseOk ==>
                 && ok == (!moves || saveOk) && !g.nextErased
                 && g.rd == (if moves then Behind(f.n, next) else f.nvr.rd)
                 && g.nvr == (if moves && saveOk then Nvr(g.curr, g.wr, g.rd, false) else f.nvr)
                 && forall i :: 0 <= i < |f.cells| ==>
                      g.cells[i] == if next - 0xA_0000 <= i < next - 0xA_0000 + 0x1_0000 then Erased else f.cells[i])
  {
    assert NextSector(f.n, f.nvr.curr) == Behind(f.n, f.nvr.curr);
    assert NextSector(f.n, Behind(f.n, f.nvr.curr)) == Behind(f.n, Behind(f.n, f.nvr.curr));
  }

  // ------------------------------------------------------------ an accepted packet

  /** The sectors behind an accepted packet. `used` is how far the stream had come in the current sector
      before it. With the flag down, the next sector is erased from 50 KB on; with the flag up, the sector
      pointer moves on once the sector is full and the erase is over. Nothing else touches the flag, the
      sector pointer or the read pointer. */
  lemma SectorsBehindPacket(f: Flash, h: History, data: seq<byte>, urgent: bool, r: Reply, next: Flash, used: int)
    requires Inv(f, h) && f.InArea() && |data| <= MAX_PACKET && r.ok && PacketSize(f, data, urgent) > 0
    requires next == SendFlash(f, data, urgent, r).0 && used == |h.stream| - 0x1_0000 * h.sector
    ensures var erases := !f.nextErased && used >= 51200 && r.eraseOk;
            var advances := f.nextErased && used >= 0x1_0000 && !r.eraseBusy;
            && next.nextErased == (if f.nextErased then !advances else erases)
            && next.curr == (if advances then Behind(f.n, f.curr) else f.curr)
            && next.rd == (if erases && f.rd == Behind(f.n, f.curr) then Behind(f.n, f.rd) else f.rd)
            && next.nvr == Nvr(next.curr, next.wr, next.rd, next.nextErased)
  {
    ShapingIsOptimal(f.wr, EndAddress(f.n), |data|, urgent);
    UsageTestsExact(f, h);
    assert NextSector(f.n, f.curr) == Behind(f.n, f.curr) && NextSector(f.n, f.rd) == Behind(f.n, f.rd);
  }

  lemma CellOfSend(f: Flash, data: seq<byte>, urgent: bool, r: Reply, next: Flash, k: nat, i: nat)
    requires f.InArea() && |data| <= MAX_PACKET && r.ok && 0 < PacketSize(f, data, urgent) <= |data|
    requires (next, k) == SendFlash(f, data, urgent, r) && i < |f.cells|
    ensures var at, sector := f.wr - 0xA_0000, Behind(f.n, f.curr) - 0xA_0000;
            var erases := !f.nextErased && SectorUsageKB(f.wr, f.curr) >= 50 && r.eraseOk;
            && k == PacketSize(f, data, urgent) && |next.cells| == |f.cells| && next.wr == WrapAddr(f.n, f.wr + k)
            && next.cells[i] == if erases && sector <= i < sector + 0x1_0000 then Erased
                                else if at <= i < at + k then ProgramCell(f.cells[i], data[i - at])
                                else f.cells[i]
  {
    assert NextSector(f.n, f.curr) == Behind(f.n, f.curr);
  }

  /** The device behind an accepted packet: the packet stands at the write pointer, the sector erased ahead
      is erased, and no other cell has changed. */
  lemma CellsBehindPacket(f: Flash, h: History, data: seq<byte>, urgent: bool, r: Reply, next: Flash, k: nat, i: nat)
    requires Inv(f, h) && f.InArea() && |data| <= MAX_PACKET && r.ok && PacketSize(f, data, urgent) > 0
    requires (next, k) == SendFlash(f, data, urgent, r) && i < |f.cells|
    ensures var at, sector := f.wr - 0xA_0000, Behind(f.n, f.curr) - 0xA_0000;
            var erases := !f.nextErased && |h.stream| - 0x1_0000 * h.sector >= 51200 && r.eraseOk;
            && k == PacketSize(f, data, urgent) <= |data| && |next.cells| == |f.cells|
            && next.wr == (if at + k == 0x1_0000 * f.n then 0xA_0000 else f.wr + k)
            && next.cells[i] == if erases && sector <= i < sector + 0x1_0000 then Erased
                                else if at <= i < at + k then Programmed(data[i - at])
                                else f.cells[i]
  {
    hide Inv, Live, Clean, SendFlash, SectorUsageKB;
    ShapingIsOptimal(f.wr, EndAddress(f.n), |data|, urgent);
    UsageTestsExact(f, h);
    PacketLands(f, h, data[..PacketSize(f, data, urgent)]);
    CellOfSend(f, data, urgent, r, next, k, i);
  }
}
