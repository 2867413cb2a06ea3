/** What one message, one packet and one tick do: the steps of the whole logger. */
module LoggerLaws {
  import opened Config
  import opened Format
  import opened RamRing
  import opened RingLaws
  import opened FlashGeometry
  import opened FlashLog
  import opened FlashLaws
  import opened Logger
  import opened Dump

  // ------------------------------------------------------------ one packet

  /** How many bytes a packet takes from the ring. */
  function Taken(s: State, r: Replies): (k: nat)
    requires s.Valid() && ReadableLen(s.ring.rd, s.ring.wr) > 0
    ensures k <= Min(ReadableLen(s.ring.rd, s.ring.wr), MAX_PACKET)
  {
    var packet := Packet(s, ReadableLen(s.ring.rd, s.ring.wr));
    if SendPacket(s, ReadableLen(s.ring.rd, s.ring.wr), r).1 != Ok then 0
    else if s.dest == ToFlash && s.task == Ready then SendFlash(s.flash, packet, Urgent(s), r.flash).1
    else |packet|
  }

  /** A packet is the oldest pending bytes; what it takes leaves the ring from the front. */
  lemma PacketTakesFront(s: State, r: Replies)
    requires s.Valid() && ReadableLen(s.ring.rd, s.ring.wr) > 0
    ensures var len, k := ReadableLen(s.ring.rd, s.ring.wr), Taken(s, r);
            var t := SendPacket(s, len, r).0;
            && t.ring == (if k == 0 then s.ring else Advance(s.ring, k)) && t.Valid()
            && t.ring.Pending() == s.ring.Pending()[k..]
            && Packet(s, len) == s.ring.Pending()[..Min(len, MAX_PACKET)]
  {
    var len := ReadableLen(s.ring.rd, s.ring.wr);
    SendPacketKeepsValid(s, r);
    AdvanceDropsFront(s.ring, Min(len, MAX_PACKET));
    AdvanceDropsFront(s.ring, Taken(s, r));
    assert s.ring.Pending()[0..] == s.ring.Pending();
  }

  /** Exactly one destination: the flash, the socket, or nothing but the UART. */
  predicate OneSink(s: State) {
    s.printout <==> s.dest == NoDest
  }

  function SinkOut(s: State): seq<byte> {
    if s.printout then s.uartOut else s.socketOut
  }

  lemma TakeMoves(out: seq<byte>, pending: seq<byte>, k: nat)
    requires k <= |pending|
    ensures (out + pending[..k]) + pending[k..] == out + pending
  {
  }

  /** The UART alone is served in every task state; the other destinations only by a ready logger. */
  predicate Serves(s: State) {
    s.task == Ready || s.dest == NoDest
  }

  /** Socket and UART: what a packet takes, its destination has accepted, byte for byte. */
  lemma SinkConserves(s: State, r: Replies)
    requires s.Valid() && ReadableLen(s.ring.rd, s.ring.wr) > 0
    requires OneSink(s) && Serves(s) && s.dest != ToFlash
    ensures var t := SendPacket(s, ReadableLen(s.ring.rd, s.ring.wr), r).0;
            && t.ring.Valid() && t.flash == s.flash
            && SinkOut(t) == SinkOut(s) + s.ring.Pending()[..Taken(s, r)]
            && t.ring.Pending() == s.ring.Pending()[Taken(s, r)..]
  {
    PacketTakesFront(s, r);
    var len := ReadableLen(s.ring.rd, s.ring.wr);
    var packet := Packet(s, len);
    assert packet[..|packet|] == packet;
    assert SinkOut(s) + s.ring.Pending()[..0] == SinkOut(s);
  }

  /** The flash must grant a packet what the send needs. */
  predicate FlashGrants(s: State, r: Replies)
    requires s.Valid()
  {
    var len := ReadableLen(s.ring.rd, s.ring.wr);
    len > 0 && s.dest == ToFlash ==>
      Grants(s.flash, PacketSize(s.flash, Packet(s, len), Urgent(s)), r.flash)
  }

  /** The history of the flash after a tick of a ready logger. */
  function TickHistory(s: State, h: History, r: Replies): History
    requires s.Valid()
  {
    var len := ReadableLen(s.ring.rd, s.ring.wr);
    if len > 0 && s.dest == ToFlash then SendHistory(s.flash, h, Packet(s, len), Urgent(s), r.flash) else h
  }

  /** Flash: what a packet takes is appended to the stream, and the flash invariant is kept. */
  lemma FlashConserves(s: State, h: History, r: Replies)
    requires s.Valid() && ReadableLen(s.ring.rd, s.ring.wr) > 0
    requires OneSink(s) && s.task == Ready && s.dest == ToFlash && Inv(s.flash, h) && FlashGrants(s, r)
    ensures var t := SendPacket(s, ReadableLen(s.ring.rd, s.ring.wr), r).0;
            && t.ring.Valid()
            && t.flash == SendFlash(s.flash, Packet(s, ReadableLen(s.ring.rd, s.ring.wr)), Urgent(s), r.flash).0
            && Inv(t.flash, TickHistory(s, h, r))
            && TargetsErased(s.flash, PacketSize(s.flash, Packet(s, ReadableLen(s.ring.rd, s.ring.wr)), Urgent(s)))
            && TickHistory(s, h, r).stream == h.stream + s.ring.Pending()[..Taken(s, r)]
            && t.ring.Pending() == s.ring.Pending()[Taken(s, r)..]
  {
    hide Inv;
    PacketTakesFront(s, r);
    var packet := Packet(s, ReadableLen(s.ring.rd, s.ring.wr));
    SendKeepsInv(s.flash, h, packet, Urgent(s), r.flash);
    assert packet[..Taken(s, r)] == s.ring.Pending()[..Taken(s, r)];
  }

  // ------------------------------------------------------------ what conservation needs

  /** Every sink goes by its own answer: the socket of a ready logger and the UART each get the oldest
      packet when they accept it, and nothing otherwise. The flash beside the UART decides how much. */
  lemma EachSinkByItsOwnAnswer(s: State, r: Replies)
    requires s.Valid() && ReadableLen(s.ring.rd, s.ring.wr) > 0
    ensures var len, t := ReadableLen(s.ring.rd, s.ring.wr), SendPacket(s, ReadableLen(s.ring.rd, s.ring.wr), r).0;
            var packet := s.ring.Pending()[..Min(len, MAX_PACKET)];
            && t.socketOut
            == s.socketOut + (if s.dest == ToSocket && s.task == Ready && r.socket == Ok then packet else [])
            && (s.dest != ToFlash || s.task != Ready ==>
                 t.uartOut == s.uartOut + if s.printout && r.uart == Ok then packet else [])
            && (s.dest != ToFlash || s.task != Ready ==> t.flash == s.flash)
  {
    PacketTakesFront(s, r);
    var packet := Packet(s, ReadableLen(s.ring.rd, s.ring.wr));
    assert packet[..|packet|] == packet;
  }

  /** What leaves the ring: the whole packet when the UART accepts it, or without the UART the socket of a
      ready logger, or when there is nobody to ask; nothing otherwise. */
  lemma RingMovesIff(s: State, r: Replies)
    requires s.Valid() && ReadableLen(s.ring.rd, s.ring.wr) > 0 && (s.dest != ToFlash || s.task != Ready)
    ensures Taken(s, r) == if Passes(s, r) then Min(ReadableLen(s.ring.rd, s.ring.wr), MAX_PACKET) else 0
  {
  }

  /** The answer that counts. */
  predicate Passes(s: State, r: Replies) {
    if s.printout then r.uart == Ok else s.dest == ToSocket && s.task == Ready ==> r.socket == Ok
  }

  /** A UART that is switched on misses nothing and is told nothing twice, whatever the destination, the
      task state and the answers. */
  lemma UartConserves(s: State, r: Replies)
    requires s.Valid() && ReadableLen(s.ring.rd, s.ring.wr) > 0 && s.printout
    ensures var t := SendPacket(s, ReadableLen(s.ring.rd, s.ring.wr), r).0;
            && t.Valid() && t.printout && t.uartOut + t.ring.Pending() == s.uartOut + s.ring.Pending()
            && s.uartOut <= t.uartOut
  {
    PacketTakesFront(s, r);
    var k := Taken(s, r);
    var t := SendPacket(s, ReadableLen(s.ring.rd, s.ring.wr), r).0;
    assert s.uartOut + s.ring.Pending()[..0] == s.uartOut;
    assert t.uartOut == s.uartOut + s.ring.Pending()[..k];
    TakeMoves(s.uartOut, s.ring.Pending(), k);
  }

  lemma UartConservesTick(s: State, first: Replies, second: Replies)
    requires s.Valid() && s.printout
    ensures var t := Tick(s, first, second);
            t.Valid() && t.uartOut + t.ring.Pending() == s.uartOut + s.ring.Pending() && s.uartOut <= t.uartOut
  {
    var len := ReadableLen(s.ring.rd, s.ring.wr);
    if len > 0 {
      UartConserves(s, first);
      var s1 := SendPacket(s, len, first).0;
      if SecondPacketDue(s1) {
        UartConserves(s1, second);
      }
    }
  }

  /** With the UART switched on beside the socket, the socket's stream followed by what is pending
      stays the same exactly when both give the same answer: a packet only one of them took is
      repeated or lost. */
  lemma TwoSinksConserveIff(s: State, r: Replies)
    requires s.Valid() && ReadableLen(s.ring.rd, s.ring.wr) > 0
    requires s.dest == ToSocket && s.printout && s.task == Ready
    ensures var t := SendPacket(s, ReadableLen(s.ring.rd, s.ring.wr), r).0;
            t.Valid() && (t.socketOut + t.ring.Pending() == s.socketOut + s.ring.Pending()
                          <==> (r.socket == Ok <==> r.uart == Ok))
  {
    PacketTakesFront(s, r);
    TakeMoves(s.socketOut, s.ring.Pending(), Taken(s, r));
    var t := SendPacket(s, ReadableLen(s.ring.rd, s.ring.wr), r).0;
    assert |t.socketOut + t.ring.Pending()| == |t.socketOut| + |t.ring.Pending()|;
    assert |s.socketOut + s.ring.Pending()| == |s.socketOut| + |s.ring.Pending()|;
  }

  /** With the UART beside the flash, the packet's share of the flash goes to the UART as well. */
  lemma FlashBesideUart(s: State, h: History, r: Replies, len: int, t: State, g: History, n: nat)
    requires s.Valid() && len == ReadableLen(s.ring.rd, s.ring.wr) > 0
    requires s.dest == ToFlash && s.printout && s.task == Ready && Inv(s.flash, h) && FlashGrants(s, r)
    requires t == SendPacket(s, len, r).0 && g == TickHistory(s, h, r)
    requires n == SendFlash(s.flash, Packet(s, len), Urgent(s), r.flash).1
    ensures n <= |s.ring.Pending()| && Inv(t.flash, g) && g.stream == h.stream + s.ring.Pending()[..n]
    ensures r.uart == Ok ==> t.uartOut == s.uartOut + s.ring.Pending()[..n]
    ensures r.uart != Ok ==> t.uartOut == s.uartOut && t.ring == s.ring
    ensures t.ring.Valid() && t.ring.Pending() == s.ring.Pending()[if r.uart == Ok then n else 0..]
  {
    hide Inv;
    var packet := Packet(s, len);
    PacketTakesFront(s, r);
    SendKeepsInv(s.flash, h, packet, Urgent(s), r.flash);
    assert packet[..n] == s.ring.Pending()[..n];
  }

  /** With the UART switched on beside the flash, the UART is never told twice and misses nothing; the
      flash stores bytes again exactly when it took some and the UART was busy. */
  lemma FlashBesideUartConservesIff(s: State, h: History, r: Replies, len: int, t: State, g: History, n: nat)
    requires s.Valid() && len == ReadableLen(s.ring.rd, s.ring.wr) > 0
    requires s.dest == ToFlash && s.printout && s.task == Ready && Inv(s.flash, h) && FlashGrants(s, r)
    requires t == SendPacket(s, len, r).0 && g == TickHistory(s, h, r)
    requires n == SendFlash(s.flash, Packet(s, len), Urgent(s), r.flash).1
    ensures t.ring.Valid() && Inv(t.flash, g)
    ensures t.uartOut + t.ring.Pending() == s.uartOut + s.ring.Pending()
    ensures g.stream + t.ring.Pending() == h.stream + s.ring.Pending() <==> n == 0 || r.uart == Ok
    ensures r.uart != Ok ==> t.ring == s.ring && g.stream == h.stream + s.ring.Pending()[..n]
  {
    FlashBesideUart(s, h, r, len, t, g, n);
    TakeMoves(s.uartOut, s.ring.Pending(), n);
    TakeMoves(h.stream, s.ring.Pending(), n);
    if r.uart != Ok {
      assert |g.stream + t.ring.Pending()| == |h.stream + s.ring.Pending()| + n;
      assert h.stream + s.ring.Pending()[..0] == h.stream;
    }
  }

  /** A logger that is not ready throws a packet away: it leaves the ring and reaches nobody. */
  lemma NotReadyDiscards(s: State, r: Replies)
    requires s.Valid() && ReadableLen(s.ring.rd, s.ring.wr) > 0
    requires OneSink(s) && s.dest != NoDest && s.task != Ready
    ensures var len := ReadableLen(s.ring.rd, s.ring.wr);
            var t := SendPacket(s, len, r).0;
            && t == s.(ring := t.ring) && t.Valid()
            && t.ring.Pending() == s.ring.Pending()[Min(len, MAX_PACKET)..]
  {
    PacketTakesFront(s, r);
  }

  /** A refused flash write leaves ring and pointers alone exactly when nothing of it was written;
      otherwise the written bytes leave the ring although the write pointer stays before them. */
  lemma RefusedWriteKeepsRingIff(s: State, r: Replies)
    requires s.Valid() && ReadableLen(s.ring.rd, s.ring.wr) > 0
    requires OneSink(s) && s.dest == ToFlash && s.task == Ready && !r.flash.ok
    requires PacketSize(s.flash, Packet(s, ReadableLen(s.ring.rd, s.ring.wr)), Urgent(s)) > 0
    ensures var t := SendPacket(s, ReadableLen(s.ring.rd, s.ring.wr), r).0;
            && t.flash.wr == s.flash.wr
            && (t.ring == s.ring <==> r.flash.written == 0)
  {
  }

  /** And the next packet goes to the same address: it finds its cells erased exactly when nothing of
      the refused one was written. */
  lemma NextPacketErasedIff(s: State, h: History, r: Replies, size: nat)
    requires s.Valid() && ReadableLen(s.ring.rd, s.ring.wr) > 0 && Inv(s.flash, h)
    requires OneSink(s) && s.dest == ToFlash && s.task == Ready && !r.flash.ok
    requires PacketSize(s.flash, Packet(s, ReadableLen(s.ring.rd, s.ring.wr)), Urgent(s)) > 0
    requires 0 < size <= MAX_PACKET && s.flash.wr + size <= EndAddress(s.flash.n)
    ensures TargetsErased(SendPacket(s, ReadableLen(s.ring.rd, s.ring.wr), r).0.flash, size) <==> r.flash.written == 0
  {
    var packet := Packet(s, ReadableLen(s.ring.rd, s.ring.wr));
    var f, at := s.flash, s.flash.wr - FLASH_START;
    ShapingIsOptimal(f.wr, EndAddress(f.n), |packet|, Urgent(s));
    PacketLands(f, h, seq(size, _ => 0));
    var next := SendFlash(f, packet, Urgent(s), r.flash).0;
    assert next.wr == f.wr;
    if r.flash.written == 0 {
      assert next.cells == f.cells;
    } else {
      assert next.cells[at] != Erased && at <= at < at + size;
    }
  }

  // ------------------------------------------------------------ the abstract logger

  /** The logger as its users see it: a stream of bytes delivered, and a window of bytes pending. */
  datatype Abstract = Abstract(delivered: seq<byte>, window: seq<byte>)

  datatype Event =
    | Message(ps: seq<Piece>, critical: bool)
    | Timer(first: Replies, second: Replies)

  /** A message slides into the window with the text it puts out; a tick moves some bytes from the front
      of the window to the end of the delivered stream. */
  predicate AbstractStep(a: Abstract, e: Event, text: seq<byte>, b: Abstract)
    requires |a.window| < RING_SIZE
  {
    match e
    case Message(_, _) => b == Abstract(a.delivered, Slide(a.window, text))
    case Timer(_, _) => a.delivered <= b.delivered && b.delivered + b.window == a.delivered + a.window
  }

  /** The concrete logger seen abstractly; for the flash the delivered stream is the history. */
  ghost function View(s: State, h: History): (a: Abstract)
    requires s.Valid()
    ensures |a.window| < RING_SIZE
  {
    Abstract(if s.dest == ToFlash then h.stream else SinkOut(s), s.ring.Pending())
  }

  function After(s: State, e: Event): State
    requires s.Running() && (e.Message? ==> |Render(e.ps)| < MAX_MESSAGE)
  {
    match e
    case Message(ps, critical) => Log(s, ps, critical)
    case Timer(first, second) => Tick(s, first, second)
  }

  lemma TickOnTail(s: State, first: Replies, second: Replies)
    requires s.Running() && s.ring.wr == RING_SIZE
    ensures var t := Tick(s, first, second);
            t.Running() && t.ring.wr == RING_SIZE && t.ring.cells == s.ring.cells && !Urgent(t)
  {
    hide SendFlash;
    SendPacketKeepsRunning(s, first);
    var s1 := SendPacket(s, ReadableLen(s.ring.rd, s.ring.wr), first).0;
    if SecondPacketDue(s1) {
      SendPacketKeepsRunning(s1, second);
    }
  }

  /** A writer on the tail stays there: every message is dropped, and after every tick there is more to
      send from the same cells. */
  lemma WriterOnTailStays(s: State, e: Event)
    requires s.Running() && s.ring.wr == RING_SIZE && (e.Message? ==> |Render(e.ps)| < MAX_MESSAGE)
    ensures var t := After(s, e);
            && t.Running() && t.ring.wr == RING_SIZE && t.ring.cells == s.ring.cells
            && ReadableLen(t.ring.rd, t.ring.wr) > 0
            && (e.Message? ==> t == s.(ring := t.ring) && t.ring.rd == s.ring.rd && t.ring.urgent == s.ring.urgent
                               && (t.ring.lowMemory <==> s.ring.rd < 256))
            && (e.Timer? ==> !Urgent(t))
  {
    hide Tick;
    if e.Timer? {
      TickOnTail(s, e.first, e.second);
    }
  }

  function HistoryAfter(s: State, h: History, e: Event): History
    requires s.Valid()
  {
    if e.Timer? then TickHistory(s, h, e.first) else h
  }

  /** What an event puts into the ring. */
  function Emitted(s: State, e: Event): seq<byte>
    requires s.Valid()
  {
    if e.Message? then Emit(Room(s.ring.wr), 0, e.ps).bytes else []
  }

  /** Messages keep to the documented limit, leave the ring usable, and do not hit the one case the
      overrun test misses; the flash grants what a tick needs. */
  predicate Acceptable(s: State, e: Event)
    requires s.Valid()
  {
    match e
    case Message(ps, critical) =>
      && |Render(ps)| < MAX_MESSAGE
      && Usable(Log(s, ps, critical).ring)
      && !(|Emitted(s, e)| == MAX_MESSAGE && Remain(s.ring.rd, s.ring.wr) == MAX_MESSAGE)
    case Timer(first, second) => FlashGrants(s, first)
  }

  /** A message that the tail of the ring does not disturb and that fits into the free space. */
  ghost predicate Smooth(s: State, e: Event)
    requires s.Valid()
  {
    e.Message? ==>
      Undisturbed(Room(s.ring.wr), 0, e.ps) && |s.ring.Pending()| + |Render(e.ps)| < RING_SIZE
  }

  predicate Usable(r: Ring) {
    r.rd < RING_SIZE && r.wr < RING_SIZE
  }

  /** What every run keeps. */
  ghost predicate Working(s: State, h: History) {
    s.Valid() && OneSink(s) && s.task == Ready && Inv(s.flash, h)
  }

  lemma MessageStep(s: State, h: History, ps: seq<Piece>, critical: bool)
    requires Working(s, h) && Acceptable(s, Message(ps, critical))
    ensures Working(Log(s, ps, critical), h)
    ensures AbstractStep(View(s, h), Message(ps, critical), Emitted(s, Message(ps, critical)), View(Log(s, ps, critical), h))
  {
    var e := Emit(Room(s.ring.wr), 0, ps);
    EmitLength(Room(s.ring.wr), 0, ps);
    var ring := AfterMessage(s.ring, e);
    assert ring.Valid();
    MessageSlides(s.ring, e);
    assert ring.(urgent := true).Pending() == ring.Pending();
  }

  /** A smooth message puts out its rendering and leaves the reader where it was. */
  lemma SmoothMessage(s: State, ps: seq<Piece>, critical: bool)
    requires s.Valid() && |Render(ps)| < MAX_MESSAGE && Smooth(s, Message(ps, critical))
    ensures Emitted(s, Message(ps, critical)) == Render(ps)
    ensures Log(s, ps, critical).ring.rd == s.ring.rd
  {
    EmitRefinesRender(Room(s.ring.wr), 0, ps);
    OverrunTestExactIff(s.ring, Emit(Room(s.ring.wr), 0, ps));
  }

  /** One packet for socket or UART. */
  lemma SinkPacketStep(s: State, r: Replies)
    requires s.Valid() && OneSink(s) && Serves(s) && s.dest != ToFlash && ReadableLen(s.ring.rd, s.ring.wr) > 0
    ensures var t := SendPacket(s, ReadableLen(s.ring.rd, s.ring.wr), r).0;
            && t.Valid() && OneSink(t) && t.task == s.task && t.flash == s.flash && t.dest == s.dest
            && SinkOut(s) <= SinkOut(t) && SinkOut(t) + t.ring.Pending() == SinkOut(s) + s.ring.Pending()
  {
    SinkConserves(s, r);
    TakeMoves(SinkOut(s), s.ring.Pending(), Taken(s, r));
    SendPacketKeepsValid(s, r);
  }

  /** A tick for socket or UART: one or two packets. */
  lemma SinkTickMoves(s: State, first: Replies, second: Replies)
    requires s.Valid() && OneSink(s) && Serves(s) && s.dest != ToFlash
    ensures var t := Tick(s, first, second);
            && t.Valid() && OneSink(t) && t.task == s.task && t.flash == s.flash && t.dest == s.dest
            && SinkOut(s) <= SinkOut(t) && SinkOut(t) + t.ring.Pending() == SinkOut(s) + s.ring.Pending()
  {
    var len := ReadableLen(s.ring.rd, s.ring.wr);
    if len > 0 {
      SinkPacketStep(s, first);
      var s1 := SendPacket(s, len, first).0;
      if SecondPacketDue(s1) {
        SinkPacketStep(s1, second);
      }
    }
  }

  lemma SinkTick(s: State, h: History, first: Replies, second: Replies)
    requires Working(s, h) && s.dest != ToFlash
    ensures Working(Tick(s, first, second), h)
    ensures AbstractStep(View(s, h), Timer(first, second), [], View(Tick(s, first, second), h))
  {
    SinkTickMoves(s, first, second);
  }

  /** A tick in flash mode is one packet and the flags. */
  lemma FlashTickIsOnePacket(s: State, first: Replies, second: Replies)
    requires s.Valid() && s.dest == ToFlash && s.task == Ready && !s.printout && ReadableLen(s.ring.rd, s.ring.wr) > 0
    ensures var packet := Packet(s, ReadableLen(s.ring.rd, s.ring.wr));
            var (flash, k) := SendFlash(s.flash, packet, Urgent(s), first.flash);
            && k == Taken(s, first)
            && Tick(s, first, second)
            == s.(flash := flash,
                  ring := (if k == 0 then s.ring else Advance(s.ring, k)).(lowMemory := false, urgent := false))
  {
  }

  lemma SendPacketKeepsMode(s: State, r: Replies)
    requires s.Valid() && ReadableLen(s.ring.rd, s.ring.wr) > 0
    ensures var t := SendPacket(s, ReadableLen(s.ring.rd, s.ring.wr), r).0;
            t.dest == s.dest && t.printout == s.printout && t.task == s.task && t.flash.n == s.flash.n
  {
  }

  /** A tick keeps the mode; if there was anything to send, both flags are down afterwards. */
  lemma TickKeepsValid(s: State, first: Replies, second: Replies)
    requires s.Valid()
    ensures var t := Tick(s, first, second);
            && t.Valid() && t.dest == s.dest && t.printout == s.printout && t.task == s.task
            && (if s.ring.rd != s.ring.wr then !Urgent(t) else t == s)
  {
    if ReadableLen(s.ring.rd, s.ring.wr) > 0 {
      SendPacketKeepsValid(s, first);
      SendPacketKeepsMode(s, first);
      var s1 := SendPacket(s, ReadableLen(s.ring.rd, s.ring.wr), first).0;
      if SecondPacketDue(s1) {
        SendPacketKeepsValid(s1, second);
        SendPacketKeepsMode(s1, second);
      }
    }
  }

  /** A tick for the flash: one packet. */
  lemma FlashTick(s: State, h: History, first: Replies, second: Replies)
    requires Working(s, h) && s.dest == ToFlash && FlashGrants(s, first)
    ensures Working(Tick(s, first, second), TickHistory(s, h, first))
    ensures AbstractStep(View(s, h), Timer(first, second), [], View(Tick(s, first, second), TickHistory(s, h, first)))
  {
    if ReadableLen(s.ring.rd, s.ring.wr) > 0 {
      FlashConserves(s, h, first);
      TakeMoves(h.stream, s.ring.Pending(), Taken(s, first));
      SendPacketKeepsValid(s, first);
    }
  }

  /** When a message makes the next tick urgent: it found less free space than the largest message, or
      it was critical and put something out, or the urgent flag was already up. */
  lemma MessageMakesUrgentIff(s: State, ps: seq<Piece>, critical: bool)
    requires s.Valid() && |Render(ps)| < MAX_MESSAGE
    ensures Urgent(Log(s, ps, critical)) <==>
              || |s.ring.Pending()| > RING_SIZE - MAX_MESSAGE
              || s.ring.urgent
              || (critical && Emit(Room(s.ring.wr), 0, ps).bytes != [])
  {
  }
}
