/** How ticks work off what is pending. */
module Backlog {
  import opened Config
  import opened Cyclic
  import opened Format
  import opened RamRing
  import opened RingLaws
  import opened FlashGeometry
  import opened FlashLog
  import opened FlashRuns
  import opened Logger
  import opened LoggerLaws
  import opened LoggerRuns
  import opened Dump

  // ------------------------------------------------------------ flash: pages

  /** The read pointer of the ring and the write pointer of the flash are congruent modulo the page. */
  predicate InStep(s: State) {
    s.ring.rd % 256 == s.flash.wr % 256
  }

  lemma PagesMoveTogether(rd: nat, wr: nat, k: nat)
    requires rd % 256 == wr % 256 && rd + k <= RING_SIZE
    ensures OntoRing(rd + k) % 256 == (wr + k) % 256
  {
  }

  lemma FlashPointerMoves(f: Flash, data: seq<byte>, urgent: bool, r: Reply)
    requires f.InArea() && |data| <= MAX_PACKET && (PacketSize(f, data, urgent) > 0 ==> r.ok || r.written == 0)
    ensures SendFlash(f, data, urgent, r).0.wr == WrapAddr(f.n, f.wr + SendFlash(f, data, urgent, r).1)
  {
  }

  lemma PagesEndPages(k: nat)
    ensures 256 * k % 256 == 0
  {
  }

  lemma WrapKeepsPage(n: nat, addr: nat)
    ensures WrapAddr(n, addr) % 256 == addr % 256
  {
    if addr == EndAddress(n) {
      assert EndAddress(n) == 256 * (2560 + 256 * n);
      PagesEndPages(2560 + 256 * n);
      PagesEndPages(2560);
    }
  }

  /** All-or-nothing writes move both pointers by the same amount, also through their wraps. */
  lemma FlashTickKeepsInStep(s: State, first: Replies, second: Replies)
    requires s.Valid() && s.dest == ToFlash && s.task == Ready && !s.printout && InStep(s)
    requires ReadableLen(s.ring.rd, s.ring.wr) > 0
    requires first.flash.ok || FlashGrants(s, first)
    ensures InStep(Tick(s, first, second))
  {
    var packet, k := Packet(s, ReadableLen(s.ring.rd, s.ring.wr)), Taken(s, first);
    FlashTickIsOnePacket(s, first, second);
    var t := Tick(s, first, second);
    assert t.flash.wr == WrapAddr(s.flash.n, s.flash.wr + k) by {
      FlashPointerMoves(s.flash, packet, Urgent(s), first.flash);
    }
    assert t.ring.rd == OntoRing(s.ring.rd + k);
    WrapKeepsPage(s.flash.n, s.flash.wr + k);
    PagesMoveTogether(s.ring.rd, s.flash.wr, k);
  }

  /** A message that does not reach the reader. */
  predicate Fits(s: State, e: Event)
    requires s.Valid()
  {
    e.Message? ==> Off(s.ring.rd, s.ring.wr) + |Emitted(s, e)| < RING_SIZE
  }

  ghost predicate AllFit(s: State, es: seq<Event>)
    requires Acceptables(s, es)
    decreases |es|
  {
    es == [] || (Fits(s, es[0]) && AllFit(After(s, es[0]), es[1..]))
  }

  /** Over every run without overruns the pointers stay congruent, whatever the tail of the ring does to
      the messages. */
  lemma {:induction false} EveryRunKeepsInStep(s: State, h: History, es: seq<Event>)
    requires Working(s, h) && s.dest == ToFlash && InStep(s) && Acceptables(s, es) && AllFit(s, es)
    ensures InStep(RunOf(s, es))
    decreases |es|
  {
    if es != [] {
      EventStep(s, h, es[0]);
      EventKeepsMode(s, es[0]);
      EventKeepsInStep(s, h, es[0]);
      EveryRunKeepsInStep(After(s, es[0]), HistoryAfter(s, h, es[0]), es[1..]);
    }
  }

  lemma EventKeepsInStep(s: State, h: History, e: Event)
    requires Working(s, h) && s.dest == ToFlash && InStep(s) && Acceptable(s, e)
    requires Fits(s, e)
    ensures InStep(After(s, e))
  {
    match e
    case Message(ps, critical) =>
      EmitLength(Room(s.ring.wr), 0, ps);
      OverrunTestExactIff(s.ring, Emit(Room(s.ring.wr), 0, ps));
    case Timer(first, second) =>
      if ReadableLen(s.ring.rd, s.ring.wr) > 0 {
        FlashTickKeepsInStep(s, first, second);
      }
  }

  /** A message keeps the step exactly when it does not reach the reader. */
  lemma MessageKeepsInStepIff(s: State, ps: seq<Piece>, critical: bool)
    requires s.Valid() && InStep(s) && |Render(ps)| < MAX_MESSAGE && Log(s, ps, critical).ring.Valid()
    requires |Emitted(s, Message(ps, critical))| < MAX_MESSAGE
    ensures InStep(Log(s, ps, critical)) <==> Fits(s, Message(ps, critical))
  {
    var e := Emit(Room(s.ring.wr), 0, ps);
    OverrunTestExactIff(s.ring, e);
    if !Fits(s, Message(ps, critical)) {
      OverrunMovesReader(s.ring, e);
    }
  }

  /** An overrun moves the reader on by less than a page. */
  lemma OverrunMovesReader(r: Ring, e: Emission)
    requires r.Valid() && |e.bytes| < MAX_MESSAGE && AfterMessage(r, e).Valid() && OverrunTest(r, e)
    requires Off(r.rd, r.wr) + |e.bytes| >= RING_SIZE
    ensures AfterMessage(r, e).rd % 256 != r.rd % 256
  {
    var moved := Off(r.rd, r.wr) + |e.bytes| - (RING_SIZE - 1);
    assert AfterMessage(r, e).rd == At(r.rd, moved) && 0 < moved < 256;
  }

  /** After a restart the reader is at the head of the ring: the pointers are in step exactly when the
      saved write pointer is at the start of a page. */
  lemma RestartInStepIff(s: State, h: History)
    requires s.flash.InArea() && Inv(Reload(s.flash), h) && !IsBlank(s.flash.nvr)
    ensures InStep(Restarted(s)) <==> PageAligned(s.flash.nvr.wr)
  {
    RestartEffect(s.flash, h, true);
  }

  /** A tick that throws its packet away keeps the step exactly when the packet was a whole page. */
  lemma DiscardKeepsInStepIff(s: State, first: Replies, second: Replies)
    requires s.Valid() && InStep(s) && s.dest == ToFlash && s.task != Ready && !s.printout
    requires ReadableLen(s.ring.rd, s.ring.wr) > 0
    ensures InStep(Tick(s, first, second)) <==> ReadableLen(s.ring.rd, s.ring.wr) >= MAX_PACKET
  {
    hide SendFlash;
    var k := Min(ReadableLen(s.ring.rd, s.ring.wr), MAX_PACKET);
    var t := Tick(s, first, second);
    assert t.ring.rd == OntoRing(s.ring.rd + k) && t.flash == s.flash;
    assert OntoRing(s.ring.rd + k) % 256 == (s.ring.rd + k) % 256;
  }

  // ------------------------------------------------------------ flash: stalls

  /** Ticks with no message in between. */
  function Ticks(s: State, rs: seq<(Replies, Replies)>): State
    requires s.Valid()
    decreases |rs|
  {
    if rs == [] then s
    else
      TickKeepsValid(s, rs[0].0, rs[0].1);
      Ticks(Tick(s, rs[0].0, rs[0].1), rs[1..])
  }

  /** A flash logger with one destination that takes what it is offered, and no urgency. */
  predicate QuietFlash(s: State) {
    !Urgent(s) && s.dest == ToFlash && s.task == Ready && !s.printout
  }

  /** A quiet tick takes nothing exactly when its packet ends inside the page of the write pointer. */
  lemma QuietTickTakesNothingIff(s: State, first: Replies)
    requires s.Valid() && QuietFlash(s) && ReadableLen(s.ring.rd, s.ring.wr) > 0 && first.flash.ok
    ensures Taken(s, first) == 0
       <==> s.flash.wr % 256 + Min(ReadableLen(s.ring.rd, s.ring.wr), MAX_PACKET) < 256
  {
    var packet := Packet(s, ReadableLen(s.ring.rd, s.ring.wr));
    NothingShapedIff(s.flash.n, s.flash.wr, |packet|);
  }

  lemma NothingShapedIff(n: nat, addr: nat, needed: nat)
    requires InLog(n, addr) && 0 < needed <= 256
    ensures SizeToWrite(addr, EndAddress(n), needed, false) == 0 <==> addr % 256 + needed < 256
  {
    var page, off := addr / 256, addr % 256;
    assert EndAddress(n) == 256 * (2560 + 256 * n) && addr == 256 * page + off && page < 2560 + 256 * n;
  }

  /** The ring holds a page or more, but what lies before its tail does not reach the next page of the
      flash. */
  predicate Stalled(s: State) {
    s.ring.wr < s.ring.rd && RING_SIZE - s.ring.rd + s.flash.wr % 256 < 256
  }

  /** With a page or more pending, a quiet tick takes nothing exactly in a stall. */
  lemma StallIff(s: State, first: Replies)
    requires s.Valid() && QuietFlash(s) && |s.ring.Pending()| >= 256 && first.flash.ok
    ensures ReadableLen(s.ring.rd, s.ring.wr) > 0
    ensures Taken(s, first) == 0 <==> Stalled(s)
  {
    QuietTickTakesNothingIff(s, first);
  }

  lemma TickKeepsStall(s: State, first: Replies, second: Replies)
    requires s.Valid() && QuietFlash(s) && Stalled(s)
    ensures Tick(s, first, second) == s
  {
    NothingShapedIff(s.flash.n, s.flash.wr, |Packet(s, ReadableLen(s.ring.rd, s.ring.wr))|);
  }

  /** Ticks do not end a stall; only a message that makes the next tick urgent does. */
  lemma {:induction false} StallStays(s: State, rs: seq<(Replies, Replies)>)
    requires s.Valid() && QuietFlash(s) && Stalled(s)
    ensures Ticks(s, rs) == s
    decreases |rs|
  {
    if rs != [] {
      TickKeepsStall(s, rs[0].0, rs[0].1);
      StallStays(s, rs[1..]);
    }
  }

  // ------------------------------------------------------------ flash: quiet ticks

  /** No message of the run makes the next tick urgent. */
  ghost predicate NeverUrgent(s: State, es: seq<Event>)
    requires Acceptables(s, es)
    decreases |es|
  {
    es == [] || (!Urgent(After(s, es[0])) && NeverUrgent(After(s, es[0]), es[1..]))
  }

  /** A message that leaves the ring at ease is appended in front of the reader. */
  lemma MessageKeepsStall(s: State, ps: seq<Piece>, critical: bool)
    requires s.Valid() && QuietFlash(s) && Stalled(s) && Acceptable(s, Message(ps, critical))
    requires !Urgent(Log(s, ps, critical))
    ensures var t := Log(s, ps, critical);
            && t.Valid() && QuietFlash(t) && Stalled(t) && t.flash == s.flash && t.ring.rd == s.ring.rd
            && s.ring.Pending() <= t.ring.Pending()
  {
    var e := Emit(Room(s.ring.wr), 0, ps);
    EmitLength(Room(s.ring.wr), 0, ps);
    MessageSlides(s.ring, e);
    assert Log(s, ps, critical).ring.Pending() == AfterMessage(s.ring, e).Pending();
  }

  /** A stall lasts over every run of messages and ticks until a message makes a tick urgent: the reader
      and the flash stay where they are, and what is pending only grows. */
  lemma {:induction false} StallLasts(s: State, es: seq<Event>)
    requires s.Valid() && QuietFlash(s) && Stalled(s) && Acceptables(s, es) && NeverUrgent(s, es)
    ensures var end := RunOf(s, es);
            && end.Valid() && QuietFlash(end) && Stalled(end) && end.flash == s.flash && end.ring.rd == s.ring.rd
            && s.ring.Pending() <= end.ring.Pending()
    decreases |es|
  {
    if es != [] {
      match es[0] {
        case Message(ps, critical) => MessageKeepsStall(s, ps, critical);
        case Timer(first, second) => TickKeepsStall(s, first, second);
      }
      StallLasts(After(s, es[0]), es[1..]);
    }
  }

  predicate Quiet(s: State) {
    QuietFlash(s) && InStep(s)
  }

  /** A quiet tick takes everything up to the next page boundary, and never stalls at the tail. */
  lemma QuietTickTakes(s: State, first: Replies)
    requires s.Valid() && Quiet(s) && first.flash.ok
    requires |s.ring.Pending()| >= 256 || s.ring.wr < s.ring.rd
    ensures ReadableLen(s.ring.rd, s.ring.wr) > 0 && Taken(s, first) == 256 - s.ring.rd % 256
  {
    var len := ReadableLen(s.ring.rd, s.ring.wr);
    var packet := Packet(s, len);
    assert |packet| >= 256 - s.flash.wr % 256;
    SizeToBoundary(s.flash.n, s.flash.wr, |packet|);
  }

  lemma SizeToBoundary(n: nat, addr: nat, needed: nat)
    requires InLog(n, addr) && 256 - addr % 256 <= needed <= 256
    ensures SizeToWrite(addr, EndAddress(n), needed, false) == 256 - addr % 256
  {
    var page, off := addr / 256, addr % 256;
    assert EndAddress(n) == 256 * (2560 + 256 * n) && addr == 256 * page + off;
    if addr + needed > EndAddress(n) {
      assert page == 2560 + 256 * n - 1;
    } else {
      assert (needed - (256 - off)) / 256 == 0 || off == 0;
    }
  }

  lemma QuietTick(s: State, r: (Replies, Replies))
    requires s.Valid() && Quiet(s) && r.0.flash.ok
    ensures var t := Tick(s, r.0, r.1);
            && t.Valid() && Quiet(t) && |t.ring.Pending()| <= |s.ring.Pending()|
            && (|s.ring.Pending()| >= 256 ==>
                 |t.ring.Pending()| == |s.ring.Pending()| - (256 - s.ring.rd % 256) && t.ring.rd % 256 == 0)
  {
    TickKeepsValid(s, r.0, r.1);
    if ReadableLen(s.ring.rd, s.ring.wr) > 0 {
      FlashTickIsOnePacket(s, r.0, r.1);
      FlashTickKeepsInStep(s, r.0, r.1);
      AdvanceDropsFront(s.ring, Taken(s, r.0));
      if |s.ring.Pending()| >= 256 {
        QuietTickTakes(s, r.0);
      }
    }
  }

  lemma {:induction false} AlignedTicks(s: State, rs: seq<(Replies, Replies)>)
    requires s.Valid() && Quiet(s) && forall r :: r in rs ==> r.0.flash.ok
    requires |s.ring.Pending()| >= 256 ==> s.ring.rd % 256 == 0
    ensures Ticks(s, rs).Valid()
    ensures |Ticks(s, rs).ring.Pending()| < 256 || |Ticks(s, rs).ring.Pending()| <= |s.ring.Pending()| - 256 * |rs|
    decreases |rs|
  {
    if rs != [] {
      assert rs[0] in rs;
      QuietTick(s, rs[0]);
      AlignedTicks(Tick(s, rs[0].0, rs[0].1), rs[1..]);
    }
  }

  /** Whatever is pending, four accepted quiet ticks leave less than a page. */
  lemma {:induction false} FourQuietTicksDrain(s: State, rs: seq<(Replies, Replies)>)
    requires s.Valid() && Quiet(s) && |rs| >= 4 && forall r :: r in rs ==> r.0.flash.ok
    ensures Ticks(s, rs).Valid() && |Ticks(s, rs).ring.Pending()| < 256
  {
    assert rs[0] in rs;
    QuietTick(s, rs[0]);
    AlignedTicks(Tick(s, rs[0].0, rs[0].1), rs[1..]);
  }

  /** An urgent tick holds nothing back: it takes the whole packet, up to the end of the flash. */
  lemma UrgentTickTakes(s: State, first: Replies)
    requires s.Valid() && Urgent(s) && s.dest == ToFlash && s.task == Ready && !s.printout && first.flash.ok
    requires s.ring.rd != s.ring.wr
    ensures ReadableLen(s.ring.rd, s.ring.wr) > 0
    ensures Taken(s, first) > 0
    ensures Taken(s, first)
         == Min(Min(ReadableLen(s.ring.rd, s.ring.wr), MAX_PACKET), EndAddress(s.flash.n) - s.flash.wr)
  {
  }

  // ------------------------------------------------------------ socket and UART

  /** The destination takes what it is offered. */
  predicate Accepting(s: State, r: Replies) {
    (s.printout ==> r.uart == Ok) && (s.dest == ToSocket ==> r.socket == Ok)
  }

  /** The packets it takes to empty the ring: those up to the tail and those behind the wrap. */
  function PacketsLeft(r: Ring): (k: nat)
    requires r.rd < RING_SIZE && r.wr < RING_SIZE
    ensures k <= 5 && (k == 0 <==> r.rd == r.wr)
  {
    if r.wr >= r.rd then Pages(r.wr - r.rd) else Pages(RING_SIZE - r.rd) + Pages(r.wr)
  }

  /** A packet that passes is one packet less; one that does not stays. */
  lemma PassedPacketCounts(s: State, r: Replies)
    requires s.Valid() && ReadableLen(s.ring.rd, s.ring.wr) > 0 && s.dest != ToFlash
    ensures var t := SendPacket(s, ReadableLen(s.ring.rd, s.ring.wr), r).0;
            t.Valid() && PacketsLeft(t.ring) == PacketsLeft(s.ring) - (if Passes(s, r) then 1 else 0)
  {
    PacketTakesFront(s, r);
    RingMovesIff(s, r);
  }

  /** A tick offers two packets, the second one also when the first was refused. */
  lemma TickCounts(s: State, r: (Replies, Replies))
    requires s.Valid() && s.dest != ToFlash
    ensures var t := Tick(s, r.0, r.1);
            var passed := (if Passes(s, r.0) then 1 else 0) + (if Passes(s, r.1) then 1 else 0);
            t.Valid() && PacketsLeft(t.ring) == Max(0, PacketsLeft(s.ring) - passed)
  {
    hide SendPacket;
    var len := ReadableLen(s.ring.rd, s.ring.wr);
    if len > 0 {
      PassedPacketCounts(s, r.0);
      SendPacketKeepsMode(s, r.0);
      var s1 := SendPacket(s, len, r.0).0;
      if SecondPacketDue(s1) {
        PassedPacketCounts(s1, r.1);
      }
    }
  }

  /** A tick sends two packets, or what is left. */
  lemma AcceptingTick(s: State, r: (Replies, Replies))
    requires s.Valid() && s.dest != ToFlash && Accepting(s, r.0) && Accepting(s, r.1)
    ensures var t := Tick(s, r.0, r.1);
            t.Valid() && PacketsLeft(t.ring) == Max(0, PacketsLeft(s.ring) - 2)
  {
    TickCounts(s, r);
  }

  lemma {:induction false} AcceptingTicks(s: State, rs: seq<(Replies, Replies)>)
    requires s.Valid() && s.dest != ToFlash && forall r :: r in rs ==> Accepting(s, r.0) && Accepting(s, r.1)
    ensures Ticks(s, rs).Valid()
    ensures PacketsLeft(Ticks(s, rs).ring) == Max(0, PacketsLeft(s.ring) - 2 * |rs|)
    decreases |rs|
  {
    if rs != [] {
      assert rs[0] in rs;
      TickKeepsValid(s, rs[0].0, rs[0].1);
      AcceptingTick(s, rs[0]);
      AcceptingTicks(Tick(s, rs[0].0, rs[0].1), rs[1..]);
    }
  }

  /** Three ticks, with at most five packets, empty the ring for a destination that accepts. */
  lemma ThreeTicksEmptyTheRing(s: State, rs: seq<(Replies, Replies)>)
    requires s.Valid() && s.dest != ToFlash && |rs| >= 3
    requires forall r :: r in rs ==> Accepting(s, r.0) && Accepting(s, r.1)
    ensures PacketsLeft(s.ring) <= 5
    ensures Ticks(s, rs).Valid() && Ticks(s, rs).ring.Pending() == []
  {
    AcceptingTicks(s, rs);
  }
}
