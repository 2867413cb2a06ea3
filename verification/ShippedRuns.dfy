/** The flash log written through the callback that ships with the logger. */
module ShippedRuns {
  import opened Config
  import opened FlashGeometry
  import opened FlashLog
  import opened FlashLaws
  import opened FlashRuns
  import opened FlashHarm
  import opened FlashDriver

  /** The device's answers to one packet: what it is willing to take in the callback's two writes, and
      how it answers the erase commands. */
  datatype Device = Device(first: nat, second: nat, eraseOk: bool, eraseBusy: bool)

  /** What the callback answers the logger. */
  function Answer(f: Flash, packet: seq<byte>, d: Device): Reply
    requires f.InArea()
  {
    var o := SendFlashData(f.cells, f.wr, packet, d.first, d.second);
    Reply(o.ok, o.written, d.eraseOk, d.eraseBusy)
  }

  /** One packet through the callback. */
  function SendShipped(f: Flash, data: seq<byte>, urgent: bool, d: Device): (Flash, nat)
    requires f.InArea() && |data| < 0x1_0000
  {
    ShapingIsOptimal(f.wr, EndAddress(f.n), |data|, urgent);
    var size := PacketSize(f, data, urgent);
    if size == 0 then (f, 0)
    else
      var o := SendFlashData(f.cells, f.wr, data[..size], d.first, d.second);
      var now := f.(cells := o.cells);
      if !o.ok then (now, o.written)
      else (SaveNvr(PrepareSector(now, Answer(f, data[..size], d)).(wr := WrapAddr(f.n, f.wr + size))), size)
  }

  /** What the device must respect: it takes a write as a whole or not at all, and erases as the flash
      laws need it. */
  predicate DeviceGrants(f: Flash, size: int, d: Device)
    requires f.InArea()
  {
    && (d.first == 0 || d.first >= size) && (d.second == 0 || d.second >= size)
    && Grants(f, size, Reply(d.second > 0, 0, d.eraseOk, d.eraseBusy))
  }

  /** Inside a page the callback is what the flash laws assume of a callback. */
  lemma ShippedSendInPage(f: Flash, data: seq<byte>, urgent: bool, d: Device)
    requires f.InArea() && |data| <= MAX_PACKET && DeviceGrants(f, PacketSize(f, data, urgent), d)
    requires 0 <= PacketSize(f, data, urgent) <= |data| && !CrossesPage(f.wr, PacketSize(f, data, urgent))
    ensures var r := Answer(f, data[..PacketSize(f, data, urgent)], d);
            && SendShipped(f, data, urgent, d) == SendFlash(f, data, urgent, r)
            && Grants(f, PacketSize(f, data, urgent), r)
  {
    var packet := data[..PacketSize(f, data, urgent)];
    CallbackKeepsContract(f.cells, f.wr, packet, d.first, d.second);
    var o := SendFlashData(f.cells, f.wr, packet, d.first, d.second);
    assert packet[..o.written] == data[..o.written];
  }

  /** The pointers do not depend on what the callback makes of a packet it has accepted. */
  lemma AcceptedPointers(f: Flash, data: seq<byte>, urgent: bool, d: Device)
    requires f.InArea() && |data| <= MAX_PACKET && d.first >= MAX_PACKET && d.second >= MAX_PACKET
    requires 0 < PacketSize(f, data, urgent) <= |data|
    ensures var (next, k) := SendShipped(f, data, urgent, d);
            var shadow := SendFlash(f, data, urgent, Reply(true, 0, d.eraseOk, d.eraseBusy));
            && k == PacketSize(f, data, urgent) == shadow.1
            && next == shadow.0.(cells := next.cells) && |next.cells| == |f.cells|
  {
  }

  /** Across a page boundary an accepted packet lands on itself, and its first cell is spoilt. */
  lemma AcrossPage(f: Flash, h: History, data: seq<byte>, urgent: bool, d: Device)
    requires Inv(f, h) && f.InArea() && |data| <= MAX_PACKET && d.first >= MAX_PACKET && d.second >= MAX_PACKET
    requires 0 < PacketSize(f, data, urgent) <= |data| && f.wr + PacketSize(f, data, urgent) <= EndAddress(f.n)
    requires CrossesPage(f.wr, PacketSize(f, data, urgent))
    ensures SendShipped(f, data, urgent, d).0.cells[f.wr - FLASH_START] == Garbled
  {
    hide Live, Clean;
    PacketLands(f, h, data[..PacketSize(f, data, urgent)]);
    assert f.cells[f.wr - FLASH_START] == Erased;
    NextSectorAddr(f.n, h.sector, h.lap);
  }

  /** An accepted packet across a page spoils the log. */
  lemma AcrossPageSpoils(f: Flash, h: History, data: seq<byte>, urgent: bool, d: Device, next: Flash, stream: seq<byte>)
    requires Inv(f, h) && f.InArea() && |data| <= MAX_PACKET && d.first >= MAX_PACKET && d.second >= MAX_PACKET
    requires 0 < PacketSize(f, data, urgent) <= |data| && f.wr + PacketSize(f, data, urgent) <= EndAddress(f.n)
    requires CrossesPage(f.wr, PacketSize(f, data, urgent)) && DeviceGrants(f, PacketSize(f, data, urgent), d)
    requires next == SendShipped(f, data, urgent, d).0
    ensures next.InArea() && !Intact(next, stream)
  {
    var r := Reply(true, 0, d.eraseOk, d.eraseBusy);
    var shadow, g := SendFlash(f, data, urgent, r).0, SendHistory(f, h, data, urgent, r);
    AcceptedPointers(f, data, urgent, d);
    AcrossPage(f, h, data, urgent, d);
    SendKeepsInv(f, h, data, urgent, r);
    SendFlashKeepsArea(f, data, urgent, r);
    PlaceOfPacket(f, h, data, urgent, r, g);
    BadPositionSpoils(shadow, g, next, |h.stream|);
    SpoiltIsNotIntact(next, stream);
  }

  /** Inside a page the send is that of the flash laws. */
  lemma InPageIntact(f: Flash, h: History, data: seq<byte>, urgent: bool, d: Device)
    requires Inv(f, h) && f.InArea() && |data| <= MAX_PACKET && d.first >= MAX_PACKET && d.second >= MAX_PACKET
    requires 0 < PacketSize(f, data, urgent) <= |data|
    requires !CrossesPage(f.wr, PacketSize(f, data, urgent)) && DeviceGrants(f, PacketSize(f, data, urgent), d)
    ensures var (next, k) := SendShipped(f, data, urgent, d);
            k == PacketSize(f, data, urgent) && next.InArea() && Intact(next, h.stream + data[..k])
  {
    var r := Answer(f, data[..PacketSize(f, data, urgent)], d);
    AcceptedPointers(f, data, urgent, d);
    ShippedSendInPage(f, data, urgent, d);
    SendKeepsInv(f, h, data, urgent, r);
    LogIsSuffix(SendFlash(f, data, urgent, r).0, SendHistory(f, h, data, urgent, r));
  }

  /** A packet the device takes as a whole leaves an intact log exactly when it does not cross a page. */
  lemma ShippedSendIntactIff(f: Flash, h: History, data: seq<byte>, urgent: bool, d: Device)
    requires Inv(f, h) && f.InArea() && |data| <= MAX_PACKET && d.first >= MAX_PACKET && d.second >= MAX_PACKET
    requires PacketSize(f, data, urgent) > 0 && DeviceGrants(f, PacketSize(f, data, urgent), d)
    ensures var (next, k) := SendShipped(f, data, urgent, d);
            && k == PacketSize(f, data, urgent) <= |data| && next.InArea()
            && (Intact(next, h.stream + data[..k]) <==> !CrossesPage(f.wr, k))
  {
    ShapingIsOptimal(f.wr, EndAddress(f.n), |data|, urgent);
    AcceptedPointers(f, data, urgent, d);
    var (next, k) := SendShipped(f, data, urgent, d);
    if CrossesPage(f.wr, k) {
      AcrossPageSpoils(f, h, data, urgent, d, next, h.stream + data[..k]);
    } else {
      InPageIntact(f, h, data, urgent, d);
    }
  }

  // ------------------------------------------------------------ runs

  datatype ShippedStep =
    | Write(data: seq<byte>, urgent: bool, device: Device)
    | Reboot                  // a crash and a start-up without a requested erase
    | TurnOn

  function ShippedNext(f: Flash, s: ShippedStep): Flash
    requires f.InArea() && (s.Write? ==> |s.data| <= MAX_PACKET)
  {
    match s
    case Write(data, urgent, device) => SendShipped(f, data, urgent, device).0
    case Reboot => InitFlash(f, false, true, true).0
    case TurnOn => SwitchOn(f)
  }

  /** No packet crosses a page, the device takes writes as a whole or not at all; crashes and switching
      on as before. */
  predicate ShippedAdmissible(f: Flash, s: ShippedStep)
    requires f.InArea()
  {
    match s
    case Write(data, urgent, device) =>
      && |data| <= MAX_PACKET && !CrossesPage(f.wr, PacketSize(f, data, urgent))
      && DeviceGrants(f, PacketSize(f, data, urgent), device)
    case Reboot => Admissible(f, Restart)
    case TurnOn => Admissible(f, Switch)
  }

  function ShippedTaken(f: Flash, s: ShippedStep): seq<byte>
    requires f.InArea() && (s.Write? ==> |s.data| <= MAX_PACKET)
  {
    if s.Write? then
      var k := SendShipped(f, s.data, s.urgent, s.device).1;
      if k <= |s.data| then s.data[..k] else []
    else []
  }

  ghost predicate ShippedOk(f: Flash, steps: seq<ShippedStep>)
    decreases |steps|
  {
    steps == [] || (f.InArea() && ShippedAdmissible(f, steps[0]) && ShippedOk(ShippedNext(f, steps[0]), steps[1..]))
  }

  ghost function ShippedRun(f: Flash, steps: seq<ShippedStep>): Flash
    requires ShippedOk(f, steps)
    decreases |steps|
  {
    if steps == [] then f else ShippedRun(ShippedNext(f, steps[0]), steps[1..])
  }

  ghost function ShippedAccepted(f: Flash, steps: seq<ShippedStep>): seq<byte>
    requires ShippedOk(f, steps)
    decreases |steps|
  {
    if steps == [] then []
    else ShippedTaken(f, steps[0]) + ShippedAccepted(ShippedNext(f, steps[0]), steps[1..])
  }

  /** The step with the callback's answer filled in. */
  function AsStep(f: Flash, s: ShippedStep): Step
    requires f.InArea() && (s.Write? ==> |s.data| <= MAX_PACKET)
  {
    match s
    case Write(data, urgent, device) =>
      ShapingIsOptimal(f.wr, EndAddress(f.n), |data|, urgent);
      Send(data, urgent, Answer(f, data[..PacketSize(f, data, urgent)], device))
    case Reboot => Restart
    case TurnOn => Switch
  }

  ghost function AsSteps(f: Flash, steps: seq<ShippedStep>): seq<Step>
    requires ShippedOk(f, steps)
    decreases |steps|
  {
    if steps == [] then [] else [AsStep(f, steps[0])] + AsSteps(ShippedNext(f, steps[0]), steps[1..])
  }

  /** A shipped step is a step of the flash laws. */
  lemma ShippedStepIsStep(f: Flash, s: ShippedStep)
    requires f.InArea() && ShippedAdmissible(f, s)
    ensures Admissible(f, AsStep(f, s)) && ShippedNext(f, s) == Next(f, AsStep(f, s))
    ensures ShippedTaken(f, s) == Accepted(f, AsStep(f, s))
  {
    if s.Write? {
      ShapingIsOptimal(f.wr, EndAddress(f.n), |s.data|, s.urgent);
      ShippedSendInPage(f, s.data, s.urgent, s.device);
    }
  }

  lemma {:induction false} ShippedRunIsRun(f: Flash, h: History, steps: seq<ShippedStep>)
    requires Good(f, h) && ShippedOk(f, steps)
    ensures RunOk(f, AsSteps(f, steps))
    ensures Run(f, AsSteps(f, steps)) == ShippedRun(f, steps)
    ensures RunAccepted(f, AsSteps(f, steps)) == ShippedAccepted(f, steps)
    decreases |steps|
  {
    if steps != [] {
      var s := AsStep(f, steps[0]);
      ShippedStepIsStep(f, steps[0]);
      StepKeepsGood(f, h, s);
      ShippedRunIsRun(Next(f, s), NextHistory(f, h, s), steps[1..]);
      assert AsSteps(f, steps)[0] == s && AsSteps(f, steps)[1..] == AsSteps(Next(f, s), steps[1..]);
    }
  }

  /** After a run from an empty log. */
  lemma LogAfterShippedRun(start: Flash, steps: seq<ShippedStep>, end: Flash, all: seq<byte>)
    requires Good(start, NO_HISTORY) && ShippedOk(start, steps)
    requires end == ShippedRun(start, steps) && all == ShippedAccepted(start, steps)
    ensures RunOk(start, AsSteps(start, steps)) && ErasedBeforeWritten(start, AsSteps(start, steps))
    ensures end.InArea() && Intact(end, all)
    ensures var since := SinceSwitch(start, AsSteps(start, steps), 0);
            Min(since, 65536 * (end.n - 2) + THRESHOLD_KB * 1024) <= |LogCells(end)| <= since
  {
    ShippedRunIsRun(start, NO_HISTORY, steps);
    var asSteps := AsSteps(start, steps);
    LogAfterRun(start, asSteps, end, all, SinceSwitch(start, asSteps, 0));
  }

  /** The flash log over every run with the shipped callback, from a first start: with a device that
      takes writes as a whole or not at all, and no packet across a page, the log is what the flash laws
      say. */
  lemma EveryShippedRunKeepsTheLog(device: Flash, start: Flash, steps: seq<ShippedStep>)
    requires FirstStart(device, start) && ShippedOk(start, steps)
    ensures var end, all := ShippedRun(start, steps), ShippedAccepted(start, steps);
            && RunOk(start, AsSteps(start, steps)) && ErasedBeforeWritten(start, AsSteps(start, steps))
            && end.InArea() && Intact(end, all)
            && var since := SinceSwitch(start, AsSteps(start, steps), 0);
            && Min(since, 65536 * (end.n - 2) + THRESHOLD_KB * 1024) <= |LogCells(end)| <= since
  {
    hide Good, FirstStart;
    FirstStartIsGood(device, start);
    LogAfterShippedRun(start, steps, ShippedRun(start, steps), ShippedAccepted(start, steps));
  }
}
