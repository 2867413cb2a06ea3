/** A run from a first start into a stall: an urgent part of a page, a restart, then quiet pages. */
module StallRun {
  import opened Config
  import opened Cyclic
  import opened Format
  import opened RamRing
  import opened FlashGeometry
  import opened FlashLog
  import opened FlashLaws
  import opened FlashRuns
  import opened Dump
  import opened Logger
  import opened LoggerLaws
  import opened LoggerRuns
  import opened Backlog

  /** The events lead from `a` to `b`. */
  ghost predicate LeadsTo(a: State, es: seq<Event>, b: State)
    decreases |es|
  {
    if es == [] then a == b
    else a.Valid() && (es[0].Message? ==> |Render(es[0].ps)| < MAX_MESSAGE) && LeadsTo(After(a, es[0]), es[1..], b)
  }

  /** A message of `len` bytes of text. */
  function Note(len: nat, critical: bool): Event {
    Message([Text(seq(len, _ => 65))], critical)
  }

  /** A timer tick whose packet is taken. */
  const GRANTED: Replies := Replies(Ok, Ok, Reply(true, 0, true, false))
  const TICK: Event := Timer(GRANTED, GRANTED)

  /** A quiet logger at the beginning of its flash. */
  ghost predicate StandsAt(s: State, rd: nat, wr: nat, off: nat) {
    && s.Valid() && QuietFlash(s) && s.ring.rd == rd && s.ring.wr == wr
    && SectorCount(s.flash.n) && s.flash.curr == FLASH_START && s.flash.wr == FLASH_START + off && off < 2048
    && !s.flash.nextErased && s.flash.nvr == ToNvr(s.flash)
  }

  lemma {:induction false} NoteWritten(s: State, len: nat, critical: bool)
    requires s.Valid() && len < MAX_MESSAGE && Remain(s.ring.rd, s.ring.wr) >= MAX_MESSAGE
    ensures |Render(Note(len, critical).ps)| < MAX_MESSAGE
    ensures var t := After(s, Note(len, critical));
            && t == s.(ring := t.ring) && t.ring.rd == s.ring.rd && t.ring.wr == At(s.ring.wr, len) && t.Valid()
            && !t.ring.lowMemory && t.ring.urgent == (s.ring.urgent || (critical && len > 0))
  {
    EmitLiteral(Room(s.ring.wr), 0, seq(len, _ => 65));
  }

  /** A packet accepted near the beginning of the flash: nothing is prepared. */
  lemma EarlyPacket(f: Flash, data: seq<byte>, urgent: bool, k: nat, next: Flash)
    requires f.InArea() && |data| <= MAX_PACKET && PacketSize(f, data, urgent) == k && 0 < k <= |data|
    requires f.curr == FLASH_START && f.wr < FLASH_START + 2048 && !f.nextErased
    requires next == SendFlash(f, data, urgent, GRANTED.flash).0
    ensures SendFlash(f, data, urgent, GRANTED.flash).1 == k && next.InArea()
    ensures next.n == f.n && next.curr == f.curr && next.wr == f.wr + k && !next.nextErased && next.nvr == ToNvr(next)
  {
    PlainUsage(f.wr - f.curr, f.wr, f.curr);
    SendFlashKeepsArea(f, data, urgent, GRANTED.flash);
  }

  /** A quiet tick that reaches the next page boundary. */
  lemma QuietTickAt(s: State, rd: nat, wr: nat, off: nat, t: State)
    requires StandsAt(s, rd, wr, off) && t == Tick(s, GRANTED, GRANTED) && off + 256 < 2048
    requires ReadableLen(rd, wr) >= 256 - off % 256
    ensures StandsAt(t, OntoRing(rd + (256 - off % 256)), wr, off + (256 - off % 256))
  {
    hide SendFlash;
    var packet := Packet(s, ReadableLen(rd, wr));
    SizeToBoundary(s.flash.n, s.flash.wr, |packet|);
    EarlyPacket(s.flash, packet, false, 256 - off % 256, SendFlash(s.flash, packet, false, GRANTED.flash).0);
    FlashTickIsOnePacket(s, GRANTED, GRANTED);
    TickKeepsValid(s, GRANTED, GRANTED);
  }

  /** One message and one quiet tick. */
  lemma NoteAndTick(s: State, rd: nat, wr: nat, off: nat, len: nat) returns (t: State)
    requires StandsAt(s, rd, wr, off) && off + 256 < 2048 && rd <= wr && wr + len < RING_SIZE
    requires len < MAX_MESSAGE && wr + len - rd >= 256 - off % 256 && wr - rd <= RING_SIZE - MAX_MESSAGE
    ensures LeadsTo(s, [Note(len, false), TICK], t)
    ensures StandsAt(t, OntoRing(rd + (256 - off % 256)), wr + len, off + (256 - off % 256))
  {
    NoteWritten(s, len, false);
    var told := After(s, Note(len, false));
    t := Tick(told, GRANTED, GRANTED);
    QuietTickAt(told, rd, wr + len, off, t);
    assert [Note(len, false), TICK][1..] == [TICK] && [TICK][1..] == [];
    assert LeadsTo(told, [TICK], t);
  }

  lemma {:induction false} LeadsOn(a: State, es: seq<Event>, b: State, fs: seq<Event>, c: State)
    requires LeadsTo(a, es, b) && LeadsTo(b, fs, c)
    ensures LeadsTo(a, es + fs, c)
    decreases |es|
  {
    hide After;
    if es == [] {
      assert es + fs == fs;
    } else {
      LeadsOn(After(a, es[0]), es[1..], b, fs, c);
      assert (es + fs)[0] == es[0] && (es + fs)[1..] == es[1..] + fs;
    }
  }

  /** 100 bytes, written at once. */
  lemma UrgentStart(s: State) returns (t: State)
    requires FreshFlashLogger(s) && s.ring.rd == 0 && !Urgent(s)
    ensures LeadsTo(s, [Note(100, true), TICK], t)
    ensures StandsAt(t, 100, 100, 100)
  {
    hide SendFlash;
    InvInArea(s.flash, NO_HISTORY);
    NoteWritten(s, 100, true);
    var told := After(s, Note(100, true));
    t := Tick(told, GRANTED, GRANTED);
    var packet := Packet(told, 100);
    EarlyPacket(s.flash, packet, true, 100, SendFlash(s.flash, packet, true, GRANTED.flash).0);
    FlashTickIsOnePacket(told, GRANTED, GRANTED);
    TickKeepsValid(told, GRANTED, GRANTED);
    assert [Note(100, true), TICK][1..] == [TICK] && [TICK][1..] == [];
    assert LeadsTo(told, [TICK], t);
  }

  /** A restart puts the ring's pointers back and leaves the flash where it is. */
  lemma RestartStands(s: State, rd: nat, wr: nat, off: nat)
    requires StandsAt(s, rd, wr, off)
    ensures !IsBlank(s.flash.nvr) && CrashSafe(Reload(s.flash)) && StandsAt(Restarted(s), 0, 0, off)
  {
  }

  /** Four pages. */
  lemma FourPages(s: State) returns (es: seq<Event>, t: State)
    requires StandsAt(s, 0, 0, 100)
    ensures LeadsTo(s, es, t) && StandsAt(t, 924, 965, 1024)
  {
    var a := NoteAndTick(s, 0, 0, 100, 200);
    var b := NoteAndTick(a, 156, 200, 256, 255);
    var c := NoteAndTick(b, 412, 455, 512, 255);
    t := NoteAndTick(c, 668, 710, 768, 255);
    var page := [Note(255, false), TICK];
    LeadsOn(s, [Note(200, false), TICK], a, page, b);
    LeadsOn(s, [Note(200, false), TICK] + page, b, page, c);
    LeadsOn(s, [Note(200, false), TICK] + page + page, c, page, t);
    es := [Note(200, false), TICK] + page + page + page;
  }

  /** The run: from a first start to a power failure the log survives, and from the restart to a stall
      with 296 bytes pending. */
  lemma StallAfterRestart(s: State) returns (before: seq<Event>, down: State, after: seq<Event>, end: State)
    requires FreshFlashLogger(s) && s.ring.rd == 0 && !Urgent(s)
    ensures LeadsTo(s, before, down) && down.flash.InArea() && CrashSafe(Reload(down.flash))
    ensures LeadsTo(Restarted(down), after, end)
    ensures end.Valid() && QuietFlash(end) && Stalled(end) && |end.ring.Pending()| == 296
  {
    before := [Note(100, true), TICK];
    down := UrgentStart(s);
    RestartStands(down, 100, 100, 100);
    var es, t := FourPages(Restarted(down));
    NoteWritten(t, 255, false);
    end := After(t, Note(255, false));
    after := es + [Note(255, false)];
    assert [Note(255, false)][1..] == [] && LeadsTo(t, [Note(255, false)], end);
    LeadsOn(Restarted(down), es, t, [Note(255, false)], end);
  }
}
