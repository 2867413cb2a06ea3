/** The logger over its whole life: messages, ticks, dumps and power failures in any order, with an
    account of every byte. */
module Lifetime {
  import opened Config
  import opened Sequences
  import opened Format
  import opened RamRing
  import opened RingLaws
  import opened FlashGeometry
  import opened FlashLog
  import opened FlashLaws
  import opened FlashRuns
  import opened Logger
  import opened LoggerLaws
  import opened LoggerRuns
  import opened Dump
  import opened DumpSession

  // ------------------------------------------------------------ the account

  /** A byte that has left the ring, and whether its destination got it. */
  datatype Entry = Entry(b: byte, kept: bool)

  function Mark(bytes: seq<byte>, kept: bool): (l: seq<Entry>)
    ensures |l| == |bytes|
  {
    seq(|bytes|, i requires 0 <= i < |bytes| => Entry(bytes[i], kept))
  }

  /** Everything that has left the ring. */
  function Bytes(l: seq<Entry>): (s: seq<byte>)
    ensures |s| == |l|
  {
    seq(|l|, i requires 0 <= i < |l| => l[i].b)
  }

  /** What the destination got of it. */
  function Kept(l: seq<Entry>): seq<byte> {
    if l == [] then []
    else Kept(l[..|l| - 1]) + if l[|l| - 1].kept then [l[|l| - 1].b] else []
  }

  lemma BytesOfMore(l: seq<Entry>, bytes: seq<byte>, kept: bool)
    ensures Bytes(l + Mark(bytes, kept)) == Bytes(l) + bytes
  {
  }

  lemma KeptOneMore(l: seq<Entry>, e: Entry)
    ensures Kept(l + [e]) == Kept(l) + if e.kept then [e.b] else []
  {
    assert (l + [e])[..|l|] == l;
  }

  lemma {:induction false} KeptOfMore(l: seq<Entry>, bytes: seq<byte>, kept: bool)
    ensures Kept(l + Mark(bytes, kept)) == Kept(l) + if kept then bytes else []
    decreases |bytes|
  {
    if bytes == [] {
      assert l + Mark(bytes, kept) == l;
    } else {
      var first, last := bytes[..|bytes| - 1], bytes[|bytes| - 1];
      MarkOneMore(l, bytes, kept);
      KeptOfMore(l, first, kept);
      KeptOneMore(l + Mark(first, kept), Entry(last, kept));
      Regroup(Kept(l), first, [last]);
    }
  }

  lemma MarkOneMore(l: seq<Entry>, bytes: seq<byte>, kept: bool)
    requires bytes != []
    ensures var first, last := bytes[..|bytes| - 1], bytes[|bytes| - 1];
            && l + Mark(bytes, kept) == l + Mark(first, kept) + [Entry(last, kept)]
            && bytes == first + [last]
  {
  }

  // ------------------------------------------------------------ what happens

  /** The logger with a dump, the history of its flash, the account, and the last request for a dump: how
      much was asked for, of which flash, and the stream of that flash then. */
  datatype Life = Life(now: Session, h: History, account: seq<Entry>, asked: Flash, sizeKB: uint16, past: seq<byte>)

  datatype Incident =
    | Happen(turn: Turn)        // a message, a tick, a chunk of the dump
    | Ask(sizeKB: uint16)       // a dump is requested
    | PowerFailure              // and a start-up without a requested erase

  /** What was sent before the power failed stays sent. */
  function CutOff(d: DumpState): DumpState {
    if d.Sending? then Aborted(d.progress.out) else d
  }

  /** What a tick moves out of the ring. */
  ghost function MovedOut(s: State, t: State): seq<byte>
    requires s.Valid() && t.Valid()
  {
    if |t.ring.Pending()| <= |s.ring.Pending()| then s.ring.Pending()[..|s.ring.Pending()| - |t.ring.Pending()|] else []
  }

  /** A ready logger writes; any other leaves the flash alone. */
  function TickedHistory(s: State, h: History, r: Replies): History
    requires s.Valid()
  {
    if s.task == Ready then TickHistory(s, h, r) else h
  }

  /** The bytes a message brings into a window of `pending` bytes; on an overrun one of them is the mark. */
  function Written(pending: seq<byte>, text: seq<byte>): (s: seq<byte>)
    requires |pending| < RING_SIZE
    ensures |s| == |text|
  {
    if |pending| + |text| > RING_SIZE then text[RING_SIZE - |pending| := OVERRUN_MARK] else text
  }

  /** The bytes it pushes out of the window. */
  function PushedOut(pending: seq<byte>, text: seq<byte>): seq<byte>
    requires |pending| < RING_SIZE
  {
    (pending + Written(pending, text))[..Max(0, |pending| + |text| - (RING_SIZE - 1))]
  }

  /** What the incidents must respect: messages that leave the ring usable and are not the one case the
      overrun test misses, a flash that grants what a tick needs, and power failures that the saved
      pointers survive. */
  ghost predicate Bearable(l: Life, i: Incident) {
    && l.now.log.Valid()
    && match i
       case Happen(turn) =>
         && Possible(l.now, turn)
         && (turn.MessageTurn? ==> Acceptable(l.now.log, Message(turn.ps, turn.critical)))
         && (turn.TickTurn? && l.now.log.task == Ready ==> FlashGrants(l.now.log, turn.first))
       case Ask(_) => true
       case PowerFailure => Admissible(l.now.log.flash, Restart)
  }

  ghost function Lived(l: Life, i: Incident): Life
    requires Bearable(l, i)
  {
    var s := l.now.log;
    match i
    case Happen(TickTurn(first, second)) =>
      TickKeepsValid(s, first, second);
      l.(now := TakeTurn(l.now, i.turn), h := TickedHistory(s, l.h, first),
         account := l.account + Mark(MovedOut(s, Tick(s, first, second)), Serves(s)))
    case Happen(MessageTurn(ps, critical)) =>
      l.(now := TakeTurn(l.now, i.turn),
         account := l.account + Mark(PushedOut(s.ring.Pending(), Emitted(s, Message(ps, critical))), false))
    case Happen(ChunkTurn(_)) => l.(now := TakeTurn(l.now, i.turn))
    case Ask(sizeKB) =>
      if l.now.dump.Sending? then l
      else Life(Open(s, sizeKB), l.h, l.account, s.flash, sizeKB, l.h.stream)
    case PowerFailure =>
      l.(now := Session(Restarted(s), CutOff(l.now.dump)), account := l.account + Mark(s.ring.Pending(), false))
  }

  /** The destination's bytes: the flash stream, or what socket or UART accepted. */
  function Delivered(s: State, h: History): seq<byte> {
    if s.dest == ToFlash then h.stream else SinkOut(s)
  }

  // ------------------------------------------------------------ what is kept

  /** The account balances: what the destination has is what the account says it kept. */
  ghost predicate Balanced(l: Life, said: seq<byte>) {
    && l.now.log.Valid() && OneSink(l.now.log)
    && Bytes(l.account) + l.now.log.ring.Pending() == said
    && Kept(l.account) == Delivered(l.now.log, l.h)
  }

  /** The dump sends what it was asked for, and the log it was asked of was the newest part of the stream
      of that time, which the stream has only been added to. */
  ghost predicate InDump(l: Life) {
    && l.asked.InArea()
    && InSlice(l.now, l.asked, ReadSizeBytes(l.sizeKB, l.asked.rd, l.asked.wr, l.asked.n))
    && (l.now.dump.Sending? || l.now.log.task == Ready)
    && |LogBytes(l.asked)| <= |l.past| && LogBytes(l.asked) == Last(l.past, |LogBytes(l.asked)|)
    && l.past <= l.h.stream
  }

  ghost predicate InSlice(x: Session, f: Flash, size: int)
    requires f.InArea()
  {
    && 0 <= size && 0 <= StartOffset(f, size) && StartOffset(f, size) + size <= |LogBytes(f)|
    && Faithful(x, f, StartOffset(f, size), size)
  }

  /** The bytes an incident says: those a message brings into the ring. */
  ghost function Said(l: Life, i: Incident): seq<byte>
    requires Bearable(l, i)
  {
    if i.Happen? && i.turn.MessageTurn? then
      Written(l.now.log.ring.Pending(), Emitted(l.now.log, Message(i.turn.ps, i.turn.critical)))
    else []
  }

  lemma PrefixMoves(out: seq<byte>, now: seq<byte>, pending: seq<byte>, left: seq<byte>)
    requires out <= now && now + left == out + pending
    ensures |left| <= |pending|
    ensures left == pending[|pending| - |left|..] && now == out + pending[..|pending| - |left|]
  {
    var k := |pending| - |left|;
    assert (now + left)[|now|..] == left;
    assert (out + pending)[|out| + k..] == pending[k..];
    assert now == (out + pending)[..|out| + k] == out + pending[..k];
  }

  /** A logger that is not ready throws away one packet, or two if its destination is the socket. */
  lemma DiscardingTick(s: State, first: Replies, second: Replies)
    requires s.Valid() && OneSink(s) && !Serves(s)
    ensures var t := Tick(s, first, second);
            && t.Valid() && t.flash == s.flash && t.socketOut == s.socketOut && t.uartOut == s.uartOut
            && t.task == s.task && t.dest == s.dest && t.printout == s.printout
            && |t.ring.Pending()| <= |s.ring.Pending()|
            && t.ring.Pending() == s.ring.Pending()[|s.ring.Pending()| - |t.ring.Pending()|..]
  {
    var len := ReadableLen(s.ring.rd, s.ring.wr);
    if len > 0 {
      NotReadyDiscards(s, first);
      var s1 := SendPacket(s, len, first).0;
      if SecondPacketDue(s1) {
        NotReadyDiscards(s1, second);
      }
    }
  }

  /** What was delivered in addition is what left the ring. */
  lemma FrontMovesOut(s: State, t: State, out: seq<byte>, now: seq<byte>)
    requires s.Valid() && t.Valid() && out <= now && now + t.ring.Pending() == out + s.ring.Pending()
    ensures MovedOut(s, t) + t.ring.Pending() == s.ring.Pending()
    ensures now == out + MovedOut(s, t)
  {
    PrefixMoves(out, now, s.ring.Pending(), t.ring.Pending());
  }

  lemma SinkTickAccounts(s: State, first: Replies, second: Replies, t: State)
    requires s.Valid() && OneSink(s) && Serves(s) && s.dest != ToFlash && t == Tick(s, first, second)
    ensures t.Valid() && OneSink(t) && t.dest == s.dest
    ensures MovedOut(s, t) + t.ring.Pending() == s.ring.Pending()
    ensures SinkOut(t) == SinkOut(s) + MovedOut(s, t)
  {
    SinkTickMoves(s, first, second);
    FrontMovesOut(s, t, SinkOut(s), SinkOut(t));
  }

  lemma FlashTickAccounts(s: State, h: History, first: Replies, second: Replies, t: State, g: History)
    requires Working(s, h) && s.dest == ToFlash && FlashGrants(s, first)
    requires t == Tick(s, first, second) && g == TickHistory(s, h, first)
    ensures t.Valid() && OneSink(t) && t.dest == s.dest
    ensures MovedOut(s, t) + t.ring.Pending() == s.ring.Pending()
    ensures g.stream == h.stream + MovedOut(s, t)
  {
    FlashTick(s, h, first, second);
    TickKeepsValid(s, first, second);
    FrontMovesOut(s, t, h.stream, g.stream);
  }

  /** A tick: what leaves the ring leaves it from the front, and reaches the destination unless the
      logger is not ready. */
  lemma TickAccounts(s: State, h: History, first: Replies, second: Replies, t: State, g: History)
    requires s.Valid() && OneSink(s) && Inv(s.flash, h) && (s.task == Ready ==> FlashGrants(s, first))
    requires t == Tick(s, first, second) && g == TickedHistory(s, h, first)
    ensures t.Valid() && OneSink(t)
    ensures MovedOut(s, t) + t.ring.Pending() == s.ring.Pending()
    ensures Delivered(t, g) == Delivered(s, h) + if Serves(s) then MovedOut(s, t) else []
  {
    if !Serves(s) {
      DiscardingTick(s, first, second);
    } else if s.dest == ToFlash {
      FlashTickAccounts(s, h, first, second, t, g);
    } else {
      SinkTickAccounts(s, first, second, t);
    }
  }

  /** The flash of a tick is that of one send. */
  lemma TickKeepsGood(s: State, h: History, first: Replies, second: Replies, flash: Flash, g: History)
    requires s.Valid() && OneSink(s) && Good(s.flash, h) && (s.task == Ready ==> FlashGrants(s, first))
    requires flash == Tick(s, first, second).flash && g == TickedHistory(s, h, first)
    ensures Good(flash, g)
  {
    var len := ReadableLen(s.ring.rd, s.ring.wr);
    if s.task != Ready {
      TickLeavesFlashAlone(s, first, second);
    } else if s.dest != ToFlash {
      SinkTickMoves(s, first, second);
    } else if len > 0 {
      FlashTickIsOnePacket(s, first, second);
      StepKeepsGood(s.flash, h, Send(Packet(s, len), Urgent(s), first.flash));
    }
  }

  /** A message pushes the oldest bytes out and brings its own in. */
  lemma MessageAccounts(s: State, ps: seq<Piece>, critical: bool, text: seq<byte>)
    requires s.Valid() && Acceptable(s, Message(ps, critical)) && text == Emitted(s, Message(ps, critical))
    ensures Log(s, ps, critical).Valid()
    ensures PushedOut(s.ring.Pending(), text) + Log(s, ps, critical).ring.Pending()
         == s.ring.Pending() + Written(s.ring.Pending(), text)
  {
    var e := Emit(Room(s.ring.wr), 0, ps);
    EmitLength(Room(s.ring.wr), 0, ps);
    MessageSlides(s.ring, e);
    SlidePushesOut(s.ring.Pending(), text);
    assert Log(s, ps, critical).ring.Pending() == AfterMessage(s.ring, e).Pending();
  }

  lemma SlidePushesOut(pending: seq<byte>, text: seq<byte>)
    requires |pending| < RING_SIZE
    ensures PushedOut(pending, text) + Slide(pending, text) == pending + Written(pending, text)
  {
  }

  /** A smooth message brings in its rendering and pushes nothing out. */
  lemma SmoothMessageSays(s: State, ps: seq<Piece>, critical: bool)
    requires s.Valid() && |Render(ps)| < MAX_MESSAGE && Smooth(s, Message(ps, critical))
    ensures Emitted(s, Message(ps, critical)) == Render(ps)
    ensures Written(s.ring.Pending(), Render(ps)) == Render(ps) && PushedOut(s.ring.Pending(), Render(ps)) == []
  {
    SmoothMessage(s, ps, critical);
  }

  // ------------------------------------------------------------ one incident

  /** Leaving the ring with the account kept. */
  lemma AccountGrows(account: seq<Entry>, moved: seq<byte>, kept: bool, left: seq<byte>, pending: seq<byte>,
                     said: seq<byte>)
    requires Bytes(account) + pending == said && moved + left == pending
    ensures Bytes(account + Mark(moved, kept)) + left == said
    ensures Kept(account + Mark(moved, kept)) == Kept(account) + if kept then moved else []
  {
    BytesOfMore(account, moved, kept);
    KeptOfMore(account, moved, kept);
    Regroup(Bytes(account), moved, left);
  }

  lemma TickBalances(l: Life, first: Replies, second: Replies, said: seq<byte>, next: Life)
    requires Balanced(l, said) && Inv(l.now.log.flash, l.h) && Bearable(l, Happen(TickTurn(first, second)))
    requires next == Lived(l, Happen(TickTurn(first, second)))
    ensures Balanced(next, said)
  {
    var s, t := l.now.log, Tick(l.now.log, first, second);
    TickAccounts(s, l.h, first, second, t, next.h);
    AccountGrows(l.account, MovedOut(s, t), Serves(s), t.ring.Pending(), s.ring.Pending(), said);
  }

  lemma MessageBalances(l: Life, ps: seq<Piece>, critical: bool, said: seq<byte>, next: Life)
    requires Balanced(l, said) && Bearable(l, Happen(MessageTurn(ps, critical)))
    requires next == Lived(l, Happen(MessageTurn(ps, critical)))
    ensures Balanced(next, said + Said(l, Happen(MessageTurn(ps, critical))))
  {
    var s, pending := l.now.log, l.now.log.ring.Pending();
    var text := Emitted(s, Message(ps, critical));
    MessageAccounts(s, ps, critical, text);
    Regroup(Bytes(l.account), pending, Written(pending, text));
    AccountGrows(l.account, PushedOut(pending, text), false, next.now.log.ring.Pending(),
                 pending + Written(pending, text), said + Written(pending, text));
  }

  lemma FailureBalances(l: Life, said: seq<byte>, next: Life)
    requires Balanced(l, said) && Bearable(l, PowerFailure) && next == Lived(l, PowerFailure)
    requires next.now.log.flash.InArea()
    ensures Balanced(next, said)
  {
    var pending := l.now.log.ring.Pending();
    assert pending + [] == pending && next.now.log.ring.Pending() == [];
    AccountGrows(l.account, pending, false, [], pending, said);
  }

  /** A chunk or a request moves no byte of the ring. */
  lemma DumpBalances(l: Life, i: Incident, said: seq<byte>, next: Life)
    requires Balanced(l, said) && Bearable(l, i) && next == Lived(l, i) && next.now.log.flash.InArea()
    requires i.Ask? || (i.Happen? && i.turn.ChunkTurn?)
    ensures Balanced(next, said)
  {
  }

  lemma IncidentBalances(l: Life, i: Incident, said: seq<byte>, next: Life)
    requires Balanced(l, said) && Inv(l.now.log.flash, l.h) && Bearable(l, i) && next == Lived(l, i)
    requires next.now.log.flash.InArea()
    ensures Balanced(next, said + Said(l, i))
  {
    assert said + [] == said;
    match i
    case Happen(MessageTurn(ps, critical)) => MessageBalances(l, ps, critical, said, next);
    case Happen(TickTurn(first, second)) => TickBalances(l, first, second, said, next);
    case Happen(ChunkTurn(_)) => DumpBalances(l, i, said, next);
    case Ask(_) => DumpBalances(l, i, said, next);
    case PowerFailure => FailureBalances(l, said, next);
  }

  /** RAM and saved pointers go on agreeing on the flash log. */
  lemma IncidentKeepsGood(l: Life, i: Incident, next: Life)
    requires l.now.log.Valid() && OneSink(l.now.log) && Good(l.now.log.flash, l.h)
    requires Bearable(l, i) && next == Lived(l, i)
    ensures Good(next.now.log.flash, next.h) && next.h.origin == l.h.origin && l.h.stream <= next.h.stream
  {
    hide Inv;
    match i
    case Happen(MessageTurn(_, _)) =>
    case Happen(TickTurn(first, second)) =>
      TickKeepsGood(l.now.log, l.h, first, second, next.now.log.flash, next.h);
    case Happen(ChunkTurn(_)) =>
    case Ask(_) =>
    case PowerFailure => StepKeepsGood(l.now.log.flash, l.h, Restart);
  }

  /** A dump that begins. */
  lemma AskKeepsDump(l: Life, sizeKB: uint16, next: Life)
    requires InDump(l) && l.now.log.Valid() && Inv(l.now.log.flash, l.h)
    requires Bearable(l, Ask(sizeKB)) && next == Lived(l, Ask(sizeKB))
    ensures InDump(next)
  {
    BeginOnTrack(l.now.log.flash, sizeKB);
    RequestedSize(sizeKB, l.now.log.flash.rd, l.now.log.flash.wr, l.now.log.flash.n);
    LogReadsBack(l.now.log.flash, l.h);
  }

  /** A dump in progress, or none. */
  lemma TurnKeepsDump(l: Life, turn: Turn, next: Life)
    requires InDump(l) && l.now.log.Valid() && Bearable(l, Happen(turn)) && next == Lived(l, Happen(turn))
    requires l.h.stream <= next.h.stream
    ensures InDump(next)
  {
    var size := ReadSizeBytes(l.sizeKB, l.asked.rd, l.asked.wr, l.asked.n);
    TurnKeepsFaithful(l.now, l.asked, StartOffset(l.asked, size), size, turn);
    if turn.TickTurn? {
      TickKeepsValid(l.now.log, turn.first, turn.second);
    }
  }

  /** A dump that is cut off has sent a beginning of its slice. */
  lemma CutOffInSlice(x: Session, y: Session, f: Flash, size: int)
    requires f.InArea() && InSlice(x, f, size) && y.log.Valid() && y.dump == CutOff(x.dump)
    ensures InSlice(y, f, size)
  {
    if x.dump.Sending? {
      var start, d := StartOffset(f, size), x.dump.progress;
      SliceGrows(LogBytes(f), start, start + |d.out|, start + size);
    }
  }

  lemma FailureKeepsDump(l: Life, next: Life)
    requires InDump(l) && Bearable(l, PowerFailure) && next == Lived(l, PowerFailure)
    requires next.now.log.flash.InArea()
    ensures InDump(next)
  {
    CutOffInSlice(l.now, next.now, l.asked, ReadSizeBytes(l.sizeKB, l.asked.rd, l.asked.wr, l.asked.n));
  }

  /** All that is kept. */
  ghost predicate Alive(l: Life, said: seq<byte>) {
    Balanced(l, said) && Good(l.now.log.flash, l.h) && InDump(l) && l.h.origin == 0
  }

  lemma IncidentKeepsAlive(l: Life, i: Incident, said: seq<byte>) returns (next: Life)
    requires Alive(l, said) && Bearable(l, i)
    ensures next == Lived(l, i) && Alive(next, said + Said(l, i))
  {
    next := Lived(l, i);
    IncidentKeepsGood(l, i, next);
    InvInArea(next.now.log.flash, next.h);
    IncidentBalances(l, i, said, next);
    match i
    case Happen(turn) => TurnKeepsDump(l, turn, next);
    case Ask(sizeKB) => AskKeepsDump(l, sizeKB, next);
    case PowerFailure => FailureKeepsDump(l, next);
  }

  // ------------------------------------------------------------ whole lives

  ghost predicate AllBearable(l: Life, story: seq<Incident>)
    decreases |story|
  {
    story == [] || (Bearable(l, story[0]) && AllBearable(Lived(l, story[0]), story[1..]))
  }

  ghost function LiveOn(l: Life, story: seq<Incident>): Life
    requires AllBearable(l, story)
    decreases |story|
  {
    if story == [] then l else LiveOn(Lived(l, story[0]), story[1..])
  }

  ghost function AllSaid(l: Life, story: seq<Incident>): seq<byte>
    requires AllBearable(l, story)
    decreases |story|
  {
    if story == [] then [] else Said(l, story[0]) + AllSaid(Lived(l, story[0]), story[1..])
  }

  lemma {:induction false} LifeKeepsAlive(l: Life, story: seq<Incident>, said: seq<byte>) returns (end: Life)
    requires Alive(l, said) && AllBearable(l, story)
    ensures end == LiveOn(l, story) && Alive(end, said + AllSaid(l, story))
    decreases |story|
  {
    if story == [] {
      end := l;
      assert said + [] == said;
    } else {
      var next := IncidentKeepsAlive(l, story[0], said);
      end := LifeKeepsAlive(next, story[1..], said + Said(l, story[0]));
      Regroup(said, Said(l, story[0]), AllSaid(next, story[1..]));
    }
  }

  /** No message of the story reaches the reader or is disturbed by the tail of the ring. */
  ghost predicate SmoothStory(l: Life, story: seq<Incident>)
    requires AllBearable(l, story)
    decreases |story|
  {
    story == [] ||
    ((story[0].Happen? && story[0].turn.MessageTurn?
      ==> Smooth(l.now.log, Message(story[0].turn.ps, story[0].turn.critical)))
     && SmoothStory(Lived(l, story[0]), story[1..]))
  }

  function Texts(story: seq<Incident>): seq<byte> {
    if story == [] then []
    else (if story[0].Happen? && story[0].turn.MessageTurn? then Render(story[0].turn.ps) else []) + Texts(story[1..])
  }

  /** In a smooth story what is said is what the messages render to. */
  lemma {:induction false} SmoothStorySays(l: Life, story: seq<Incident>)
    requires AllBearable(l, story) && SmoothStory(l, story)
    ensures AllSaid(l, story) == Texts(story)
    decreases |story|
  {
    if story != [] {
      if story[0].Happen? && story[0].turn.MessageTurn? {
        SmoothMessageSays(l.now.log, story[0].turn.ps, story[0].turn.critical);
      }
      SmoothStorySays(Lived(l, story[0]), story[1..]);
    }
  }

  /** A logger that has just been started for the first time. */
  ghost predicate Newborn(l: Life) {
    && l.now.log.Valid() && OneSink(l.now.log) && l.now.log.ring.rd == l.now.log.ring.wr && l.now.log.task == Ready
    && l.h == NO_HISTORY && Good(l.now.log.flash, NO_HISTORY) && SinkOut(l.now.log) == []
    && l.account == [] && l.now.dump == Aborted([]) && l.asked == l.now.log.flash && l.sizeKB == 0 && l.past == []
  }

  /** The log reads as the newest part of `kept`: all of it, or as much as the sectors allow. */
  ghost predicate LogHoldsKept(f: Flash, kept: seq<byte>) {
    && f.InArea() && |LogBytes(f)| <= |kept| && LogBytes(f) == Last(kept, |LogBytes(f)|)
    && (|LogBytes(f)| == |kept| || |LogBytes(f)| >= 65536 * (f.n - 2) + THRESHOLD_KB * 1024)
  }

  /** A finished dump has sent what was asked for, an open or aborted one a beginning of it: the newest
      bytes of the stream as it was then, or the oldest the log held. */
  ghost predicate DumpServed(l: Life) {
    && l.asked.InArea() && |LogBytes(l.asked)| <= |l.past| && l.past <= l.h.stream
    && (match l.now.dump
        case Sending(d) => d.out <= Slice(l.asked, l.sizeKB)
        case Done(out) => out == Slice(l.asked, l.sizeKB)
        case Aborted(out) => out <= Slice(l.asked, l.sizeKB))
    && var size := |Slice(l.asked, l.sizeKB)|;
    && size <= |LogBytes(l.asked)|
    && Slice(l.asked, l.sizeKB) == if ServesNewest(l.asked, size) then Last(l.past, size)
                                   else Last(l.past, |LogBytes(l.asked)|)[..size]
  }

  /** Through messages, overruns, ticks, dumps and power failures: every byte ever said is in the account,
      in order, or still pending; the destination has exactly the bytes marked as kept; the log read back
      from the flash is the newest part of them, or all; and a dump has sent what was asked for. Bytes are
      lost by an overrun, by a power failure, or by a tick of a logger that is sending a dump. */
  lemma EveryByteIsAccountedFor(l: Life, story: seq<Incident>, end: Life)
    requires Newborn(l) && AllBearable(l, story) && end == LiveOn(l, story)
    ensures Balanced(end, AllSaid(l, story))
    ensures end.now.log.dest == ToFlash ==> LogHoldsKept(end.now.log.flash, Kept(end.account))
    ensures DumpServed(end)
  {
    NewbornIsAlive(l);
    var last := LifeKeepsAlive(l, story, []);
    assert [] + AllSaid(l, story) == AllSaid(l, story);
    if last.now.log.dest == ToFlash {
      AliveHoldsKept(last, AllSaid(l, story));
    }
    DumpInProgressServed(last);
  }

  lemma AliveHoldsKept(l: Life, said: seq<byte>)
    requires Alive(l, said) && l.now.log.dest == ToFlash
    ensures LogHoldsKept(l.now.log.flash, Kept(l.account))
  {
    LogHoldsEnough(l.now.log.flash, l.h);
  }

  lemma DumpInProgressServed(l: Life)
    requires InDump(l)
    ensures DumpServed(l)
  {
    hide LogBytes;
    var f, size := l.asked, ReadSizeBytes(l.sizeKB, l.asked.rd, l.asked.wr, l.asked.n);
    var start := StartOffset(f, size);
    StartInArea(f, l.sizeKB);
    assert Slice(f, l.sizeKB) == LogBytes(f)[start..start + size];
    if l.now.dump.Sending? {
      SliceGrows(LogBytes(f), start, start + |l.now.dump.progress.out|, start + size);
    }
    EndOfSuffix(l.past, LogBytes(f), size);
  }

  lemma NewbornIsAlive(l: Life)
    requires Newborn(l)
    ensures Alive(l, [])
  {
    hide Inv, Good, Faithful, LogBytes;
    NewbornInDump(l);
    assert l.now.log.ring.Pending() == [];
  }

  lemma NewbornInDump(l: Life)
    requires Newborn(l)
    ensures InDump(l)
  {
    hide Inv;
    LogReadsBack(l.now.log.flash, NO_HISTORY);
    BeginOnTrack(l.asked, 0);
    RequestedSize(0, l.asked.rd, l.asked.wr, l.asked.n);
  }
}
