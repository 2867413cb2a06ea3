/** Crash recovery, and what holds in every run of sends, crashes and restarts. */
module FlashRuns {
  import opened Config
  import opened Sequences
  import opened FlashGeometry
  import opened FlashLog
  import opened FlashLaws

  const NO_HISTORY: History := History([], 0, 0, 0, 0)

  // ------------------------------------------------------------ start-up

  /** Default initialisation establishes the invariant of an empty log. */
  lemma DefaultInitEstablishesInv(f: Flash)
    requires SectorCount(f.n) && |f.cells| == FlashBytes(f.n)
    ensures InitDefault(f, true).1 && Inv(InitDefault(f, true).0, NO_HISTORY)
  {
  }

  /** When an erase is requested, nothing was ever saved, or the saved pointers lie outside the area,
      start-up begins an empty log if the erase succeeds, and reports whether it did. */
  lemma StartFromScratch(f: Flash, eraseLog: bool, eraseOk: bool, saveOk: bool)
    requires SectorCount(f.n) && |f.cells| == FlashBytes(f.n)
    requires eraseLog || IsBlank(f.nvr) || !ValidNvr(f.n, Reload(f))
    ensures InitFlash(f, eraseLog, eraseOk, saveOk).1 == eraseOk
    ensures eraseOk ==> Inv(InitFlash(f, eraseLog, eraseOk, saveOk).0, NO_HISTORY)
  {
  }

  /** The write pointer has not gone beyond the start of the next sector. */
  predicate BeforeNextSector(f: Flash)
    requires f.InArea()
  {
    f.wr == NextSector(f.n, f.curr) || f.curr <= f.wr < f.curr + SECTOR
  }

  /** What the saved pointers must show: with the flag up, room for another packet. */
  predicate CrashSafe(f: Flash) {
    f.nextErased ==> f.curr <= f.wr && RoomAt(f.n, f.wr, f.curr)
  }

  lemma PointersShowRoom(f: Flash, h: History)
    requires Inv(f, h)
    ensures f.InArea()
    ensures BeforeNextSector(f) <==> |h.stream| <= 65536 * (h.sector + 1)
    ensures f.curr <= f.wr && RoomAt(f.n, f.wr, f.curr) <==> HasRoom(f.n, |h.stream|, h.lap, h.sector)
  {
    InvInArea(f, h);
    NextSectorAddr(f.n, h.sector, h.lap);
  }

  /** What a restart does to the device and the pointers; under the crash-safety condition the log
      does not start in the sector that is erased again. */
  lemma RestartEffect(f: Flash, h: History, saveOk: bool)
    requires Inv(Reload(f), h) && !IsBlank(f.nvr)
    ensures Reload(f).InArea()
    ensures var g := InitFlash(f, false, true, saveOk).0;
            && g.n == f.n && g.curr == f.nvr.curr && g.wr == f.nvr.wr && !g.nextErased
            && g.cells == if f.nvr.nextErased
                          then EraseCells(f.cells, NextSector(f.n, f.nvr.curr) - FLASH_START, SECTOR) else f.cells
    ensures CrashSafe(Reload(f)) ==>
              && InitFlash(f, false, true, saveOk).1
              && InitFlash(f, false, true, saveOk).0.rd == f.nvr.rd && InitFlash(f, false, true, saveOk).0.nvr == f.nvr
  {
    PointersShowRoom(Reload(f), h);
    NextSectorAddr(f.n, h.sector, h.lap);
  }

  /** Re-erasing the next sector changes nothing exactly when nothing has been written to it. */
  lemma SecondEraseHarmlessIff(f: Flash, h: History)
    requires Inv(f, h) && f.nextErased
    ensures f.InArea()
    ensures EraseCells(f.cells, NextSector(f.n, f.curr) - FLASH_START, SECTOR) == f.cells <==> BeforeNextSector(f)
  {
    PointersShowRoom(f, h);
    NextSectorAddr(f.n, h.sector, h.lap);
    var at := NextSector(f.n, f.curr) - FLASH_START;
    if |h.stream| <= 65536 * (h.sector + 1) {
      forall i | at <= i < at + SECTOR
        ensures 0 <= i < |f.cells| && f.cells[i] == Erased
      {
        assert CellOf(65536 * (h.sector + 1) + (i - at), h.lap, f.n) == i;
      }
    } else {
      var p := 65536 * (h.sector + 1);
      assert CellOf(p, h.lap, f.n) == at && f.cells[at] == Programmed(h.stream[p]);
      assert EraseCells(f.cells, at, SECTOR)[at] == Erased;
    }
  }

  /** A restart keeps every cell of the log exactly when the flag was down or the write pointer had
      not gone beyond the start of the next sector. */
  lemma RestartKeepsLogIff(f: Flash, h: History, saveOk: bool)
    requires Inv(Reload(f), h) && !IsBlank(f.nvr)
    ensures Reload(f).InArea()
    ensures InitFlash(f, false, true, saveOk).0.cells == f.cells
       <==> !f.nvr.nextErased || BeforeNextSector(Reload(f))
  {
    InvInArea(Reload(f), h);
    RestartEffect(f, h, saveOk);
    if f.nvr.nextErased {
      SecondEraseHarmlessIff(Reload(f), h);
    }
  }

  /** A restart re-establishes the invariant for the same history exactly when the flag was down or there
      was room for another packet in the current sector; pointers and log are then unchanged. */
  lemma RestartRecoversIff(f: Flash, h: History, saveOk: bool)
    requires Inv(Reload(f), h) && !IsBlank(f.nvr)
    ensures Inv(InitFlash(f, false, true, saveOk).0, h) <==> CrashSafe(Reload(f))
    ensures CrashSafe(Reload(f)) ==> InitFlash(f, false, true, saveOk) == (Reload(f).(nextErased := false), true)
  {
    var was := Reload(f);
    PointersShowRoom(was, h);
    RestartEffect(f, h, saveOk);
    if was.nextErased && CrashSafe(was) {
      SecondEraseHarmlessIff(was, h);
      DropFlag(was, h);
    }
  }

  /** Forgetting that the next sector is erased is sound as long as a packet fits. */
  lemma DropFlag(f: Flash, h: History)
    requires Inv(f, h) && f.nextErased && HasRoom(f.n, |h.stream|, h.lap, h.sector)
    ensures Inv(f.(nextErased := false), h)
  {
  }

  // ------------------------------------------------------------ what the log holds

  /** The bytes of the stream behind the place where the log was last cleared. */
  function SinceClear(h: History): int {
    |h.stream| - 65536 * h.origin
  }

  /** How much the log holds. */
  lemma LogBounds(f: Flash, h: History)
    requires Inv(f, h)
    ensures var live, sinceClear := FlashUsageBytes(f.rd, f.wr, f.n), SinceClear(h);
            && live == |h.stream| - 65536 * h.oldest
            && Min(sinceClear, 65536 * (f.n - 2) + THRESHOLD_KB * 1024) <= live <= sinceClear
            && live < FlashBytes(f.n)
            && (f.wr == f.rd <==> sinceClear == 0)
  {
  }

  lemma LogContents(f: Flash, h: History, i: int)
    requires Inv(f, h) && f.InArea()
    requires 0 <= i < |LogCells(f)| == |h.stream| - 65536 * h.oldest
    ensures LogCells(f)[i] == Programmed(h.stream[65536 * h.oldest + i])
  {
    var p := 65536 * h.oldest + i;
    assert Fold(f.rd - FLASH_START + i, FlashBytes(f.n)) == CellOf(p, h.lap, f.n);
    assert f.cells[CellOf(p, h.lap, f.n)] == Programmed(h.stream[p]);
  }

  /** The log is the newest part of everything written, byte for byte. It holds all of it, or at
      least what the sectors neither current nor erased ahead and the threshold guarantee; it never
      fills the area, so equal pointers mean an empty log and nothing else. */
  lemma LogIsSuffix(f: Flash, h: History)
    requires Inv(f, h)
    ensures f.InArea()
    ensures var live, sinceClear := |LogCells(f)|, SinceClear(h);
            && live <= |h.stream| && LogCells(f) == AsCells(Last(h.stream, live))
            && Min(sinceClear, 65536 * (f.n - 2) + THRESHOLD_KB * 1024) <= live <= sinceClear
            && live < FlashBytes(f.n)
            && (f.wr == f.rd <==> sinceClear == 0)
  {
    InvInArea(f, h);
    LogBounds(f, h);
    var live := |LogCells(f)|;
    forall i | 0 <= i < live
      ensures LogCells(f)[i] == AsCells(Last(h.stream, live))[i]
    {
      LogContents(f, h, i);
    }
  }

  /** The sector pointer follows the write pointer around the whole ring: it is never a whole sector
      late, and late only with the flag up. */
  lemma SectorPointerFollows(f: Flash, h: History)
    requires Inv(f, h)
    ensures 0 <= |h.stream| - 65536 * h.sector < 2 * SECTOR - MAX_PACKET
    ensures h.sector == |h.stream| / SECTOR || (h.sector == |h.stream| / SECTOR - 1 && f.nextErased)
    ensures (if f.wr >= f.curr then f.wr - f.curr else f.wr - f.curr + FlashBytes(f.n)) == |h.stream| - 65536 * h.sector
  {
  }

  /** The write pointer is at most a packet behind the end of the current sector. */
  predicate Prompt(h: History) {
    |h.stream| - 65536 * h.sector < SECTOR + MAX_PACKET
  }

  /** When no erase is still running once the write pointer has left the sector, the sector pointer is
      at most one packet late. */
  lemma PromptEraseKeepsPrompt(f: Flash, h: History, data: seq<byte>, urgent: bool, r: Reply)
    requires Inv(f, h) && Prompt(h) && |data| <= MAX_PACKET && f.InArea()
    requires SectorUsageKB(f.wr, f.curr) >= SECTOR_KB ==> !r.eraseBusy
    ensures Prompt(SendHistory(f, h, data, urgent, r))
  {
    UsageTestsExact(f, h);
    ShapingIsOptimal(f.wr, EndAddress(f.n), |data|, urgent);
    NextSectorAddr(f.n, h.sector, h.lap);
    if r.ok && PacketSize(f, data, urgent) > 0 {
      AcceptedSend(f, h, data, urgent, r);
    }
  }

  // ------------------------------------------------------------ switching on

  function SwitchOnHistory(h: History): History {
    h.(oldest := |h.stream| / 65536, origin := |h.stream| / 65536)
  }

  /** With the write pointer at the start of a sector, switching on leaves an empty log. */
  lemma SwitchOnKeeps(f: Flash, h: History)
    requires Inv(f, h) && AtSectorStart(f.wr)
    ensures Inv(SwitchOn(f), SwitchOnHistory(h))
    ensures |h.stream| == 65536 * SwitchOnHistory(h).origin
  {
    assert |h.stream| == 65536 * (|h.stream| / 65536);
  }

  // ------------------------------------------------------------ runs

  datatype Step =
    | Send(data: seq<byte>, urgent: bool, reply: Reply)
    | Restart                 // a crash and a start-up without a requested erase
    | Switch                  // the logger is switched on

  function Next(f: Flash, s: Step): Flash
    requires f.InArea() && (s.Send? ==> |s.data| <= MAX_PACKET)
  {
    match s
    case Send(data, urgent, reply) => SendFlash(f, data, urgent, reply).0
    case Restart => InitFlash(f, false, true, true).0
    case Switch => SwitchOn(f)
  }

  /** What the environment must respect at each step, in terms of the pointers. */
  predicate Admissible(f: Flash, s: Step)
    requires f.InArea()
  {
    match s
    case Send(data, urgent, reply) => |data| <= MAX_PACKET && Grants(f, PacketSize(f, data, urgent), reply)
    case Restart => IsBlank(f.nvr) || CrashSafe(Reload(f))
    case Switch => AtSectorStart(f.wr)
  }

  function NextHistory(f: Flash, h: History, s: Step): History
    requires f.InArea() && (s.Send? ==> |s.data| <= MAX_PACKET)
  {
    match s
    case Send(data, urgent, reply) => SendHistory(f, h, data, urgent, reply)
    case Restart => h
    case Switch => SwitchOnHistory(h)
  }

  /** The bytes a step has taken into the log. */
  function Accepted(f: Flash, s: Step): seq<byte>
    requires f.InArea() && (s.Send? ==> |s.data| <= MAX_PACKET)
  {
    if s.Send? then s.data[..SendFlash(f, s.data, s.urgent, s.reply).1] else []
  }

  /** The invariant of runs: the pointers in RAM and the saved ones both account for the log.
      Nothing has been saved as long as nothing was accepted. */
  ghost predicate Good(f: Flash, h: History) {
    && Inv(f, h)
    && if IsBlank(f.nvr) then h == NO_HISTORY else Inv(Reload(f), h)
  }

  lemma SavedIsNotBlank(f: Flash, h: History)
    requires Inv(f, h) && f.nvr == ToNvr(f)
    ensures Good(f, h)
  {
  }

  /** Every admissible step keeps the invariant, programs erased cells only, and appends to the
      stream exactly what it accepted. */
  lemma StepKeepsGood(f: Flash, h: History, s: Step)
    requires Good(f, h) && f.InArea() && Admissible(f, s)
    ensures Good(Next(f, s), NextHistory(f, h, s))
    ensures NextHistory(f, h, s).stream == h.stream + Accepted(f, s)
    ensures s.Send? ==> TargetsErased(f, PacketSize(f, s.data, s.urgent))
  {
    hide Inv;
    var next, g := Next(f, s), NextHistory(f, h, s);
    match s
    case Send(data, urgent, reply) =>
      SendKeepsInv(f, h, data, urgent, reply);
      if SendFlash(f, data, urgent, reply).1 > 0 {
        SavedIsNotBlank(next, g);
      } else {
        NothingTaken(f, h, data, urgent, reply);
      }
    case Restart =>
      if IsBlank(f.nvr) {
        DefaultInitEstablishesInv(Reload(f));
      } else {
        RestartRecoversIff(f, h, true);
        assert Reload(next) == Reload(f);
      }
    case Switch =>
      SwitchOnKeeps(f, h);
      SavedIsNotBlank(next, g);
  }

  /** A send that takes nothing leaves everything as it was. */
  lemma NothingTaken(f: Flash, h: History, data: seq<byte>, urgent: bool, r: Reply)
    requires f.InArea() && |data| <= MAX_PACKET && Grants(f, PacketSize(f, data, urgent), r)
    requires SendFlash(f, data, urgent, r).1 == 0
    ensures SendFlash(f, data, urgent, r).0 == f && SendHistory(f, h, data, urgent, r) == h
  {
  }

  /** A run is a list of steps, each admissible in the state it meets. */
  ghost predicate RunOk(f: Flash, steps: seq<Step>)
    decreases |steps|
  {
    steps == [] || (f.InArea() && Admissible(f, steps[0]) && RunOk(Next(f, steps[0]), steps[1..]))
  }

  ghost function Run(f: Flash, steps: seq<Step>): Flash
    requires RunOk(f, steps)
    decreases |steps|
  {
    if steps == [] then f else Run(Next(f, steps[0]), steps[1..])
  }

  ghost function RunHistory(f: Flash, h: History, steps: seq<Step>): History
    requires RunOk(f, steps)
    decreases |steps|
  {
    if steps == [] then h else RunHistory(Next(f, steps[0]), NextHistory(f, h, steps[0]), steps[1..])
  }

  ghost function RunAccepted(f: Flash, steps: seq<Step>): seq<byte>
    requires RunOk(f, steps)
    decreases |steps|
  {
    if steps == [] then [] else Accepted(f, steps[0]) + RunAccepted(Next(f, steps[0]), steps[1..])
  }

  /** The bytes accepted since the logger was last switched on; `before` of them before the run. */
  ghost function SinceSwitch(f: Flash, steps: seq<Step>, before: int): int
    requires RunOk(f, steps)
    decreases |steps|
  {
    if steps == [] then before
    else SinceSwitch(Next(f, steps[0]), steps[1..], if steps[0].Switch? then 0 else before + |Accepted(f, steps[0])|)
  }

  /** Every send of the run finds its cells erased. */
  ghost predicate ErasedBeforeWritten(f: Flash, steps: seq<Step>)
    requires RunOk(f, steps)
    decreases |steps|
  {
    steps == [] ||
    ((steps[0].Send? ==> TargetsErased(f, PacketSize(f, steps[0].data, steps[0].urgent)))
     && ErasedBeforeWritten(Next(f, steps[0]), steps[1..]))
  }

  lemma {:induction false} RunKeepsGood(f: Flash, h: History, steps: seq<Step>) returns (end: Flash, g: History)
    requires Good(f, h) && RunOk(f, steps)
    ensures end == Run(f, steps) && g == RunHistory(f, h, steps) && Good(end, g)
    ensures g.stream == h.stream + RunAccepted(f, steps)
    ensures ErasedBeforeWritten(f, steps)
    decreases |steps|
  {
    if steps == [] {
      end, g := f, h;
      assert h.stream + [] == h.stream;
    } else {
      var next, nextHistory := Next(f, steps[0]), NextHistory(f, h, steps[0]);
      StepKeepsGood(f, h, steps[0]);
      end, g := RunKeepsGood(next, nextHistory, steps[1..]);
      Regroup(h.stream, Accepted(f, steps[0]), RunAccepted(next, steps[1..]));
    }
  }

  /** A step clears the log if it is the switch, and adds to it what it accepted if not. */
  lemma StepSinceClear(f: Flash, h: History, s: Step)
    requires Inv(f, h) && f.InArea() && Admissible(f, s)
    ensures SinceClear(NextHistory(f, h, s)) == if s.Switch? then 0 else SinceClear(h) + |Accepted(f, s)|
  {
    match s
    case Send(data, urgent, reply) => SendKeepsInv(f, h, data, urgent, reply);
    case Restart =>
    case Switch => SwitchOnKeeps(f, h);
  }

  lemma {:induction false} RunSinceSwitch(f: Flash, h: History, steps: seq<Step>)
    requires Good(f, h) && RunOk(f, steps)
    ensures SinceClear(RunHistory(f, h, steps)) == SinceSwitch(f, steps, SinceClear(h))
    decreases |steps|
  {
    hide Inv;
    if steps != [] {
      var next, later := Next(f, steps[0]), NextHistory(f, h, steps[0]);
      StepSinceClear(f, h, steps[0]);
      assert SinceSwitch(f, steps, SinceClear(h)) == SinceSwitch(next, steps[1..], SinceClear(later));
      assert RunHistory(f, h, steps) == RunHistory(next, later, steps[1..]);
      StepKeepsGood(f, h, steps[0]);
      RunSinceSwitch(next, later, steps[1..]);
    }
  }

  /** The first start of a device: nothing was ever saved, and the erase succeeds. */
  predicate FirstStart(device: Flash, start: Flash) {
    && SectorCount(device.n) && |device.cells| == FlashBytes(device.n) && device.nvr == BLANK_STATE
    && start == InitFlash(device, false, true, true).0
  }

  lemma FirstStartIsGood(device: Flash, start: Flash)
    requires FirstStart(device, start)
    ensures Good(start, NO_HISTORY)
  {
  }

  /** What is kept after a run from an empty log. */
  lemma LogAfterRun(start: Flash, steps: seq<Step>, end: Flash, all: seq<byte>, since: int)
    requires Good(start, NO_HISTORY) && RunOk(start, steps)
    requires end == Run(start, steps) && all == RunAccepted(start, steps) && since == SinceSwitch(start, steps, 0)
    ensures ErasedBeforeWritten(start, steps)
    ensures end.InArea() && |LogCells(end)| <= |all| && |LogCells(end)| < FlashBytes(end.n)
    ensures LogCells(end) == AsCells(Last(all, |LogCells(end)|))
    ensures Min(since, 65536 * (end.n - 2) + THRESHOLD_KB * 1024) <= |LogCells(end)| <= since
    ensures end.wr == end.rd <==> since == 0
  {
    hide Inv;
    var last, g := RunKeepsGood(start, NO_HISTORY, steps);
    RunSinceSwitch(start, NO_HISTORY, steps);
    assert g.stream == all && SinceClear(NO_HISTORY) == 0;
    LogIsSuffix(last, g);
  }

  /** The flash log over every run from a first start, with crashes and switching on: nothing is
      programmed that was not erased; the log read back from the cells is the newest part of everything
      accepted; and it holds all that was accepted since the logger was last switched on, or as much of
      it as the sectors guarantee. */
  lemma EveryRunKeepsTheLog(device: Flash, start: Flash, steps: seq<Step>)
    requires FirstStart(device, start) && RunOk(start, steps)
    ensures var end, all, since := Run(start, steps), RunAccepted(start, steps), SinceSwitch(start, steps, 0);
            && ErasedBeforeWritten(start, steps)
            && end.InArea() && |LogCells(end)| <= |all| && |LogCells(end)| < FlashBytes(end.n)
            && LogCells(end) == AsCells(Last(all, |LogCells(end)|))
            && Min(since, 65536 * (end.n - 2) + THRESHOLD_KB * 1024) <= |LogCells(end)| <= since
            && (end.wr == end.rd <==> since == 0)
  {
    hide Good, FirstStart;
    FirstStartIsGood(device, start);
    LogAfterRun(start, steps, Run(start, steps), RunAccepted(start, steps), SinceSwitch(start, steps, 0));
  }
}
