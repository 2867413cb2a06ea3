/** A dump while the system goes on logging. */
module DumpSession {
  import opened Config
  import opened Sequences
  import opened Format
  import opened FlashGeometry
  import opened FlashLog
  import opened Logger
  import LoggerRuns
  import opened LoggerLaws
  import opened Dump

  datatype DumpState = Sending(progress: Progress) | Done(out: seq<byte>) | Aborted(out: seq<byte>)

  /** The logger and one dump. */
  datatype Session = Session(log: State, dump: DumpState)

  /** What can happen between two chunks, and the chunks themselves. */
  datatype Turn =
    | MessageTurn(ps: seq<Piece>, critical: bool)
    | TickTurn(first: Replies, second: Replies)
    | ChunkTurn(status: Status)

  /** A dump begins: the logger leaves the ready state. It is refused by a logger that is not ready, and
      when there is nothing to send. */
  function Open(s: State, sizeKB: uint16): Session
    requires s.flash.InArea()
  {
    if s.task != Ready || ReadSizeBytes(sizeKB, s.flash.rd, s.flash.wr, s.flash.n) == 0 then Session(s, Aborted([]))
    else Session(s.(task := SendingLogFile), Sending(Begin(s.flash, sizeKB)))
  }

  function Close(s: State): State {
    s.(task := Ready)
  }

  /** The dump loop between two suspensions; the logger is ready again when the loop is left. */
  function NextChunk(x: Session, status: Status): Session
    requires x.log.Valid()
  {
    match x.dump
    case Sending(d) =>
      if d.left <= 0 then Session(Close(x.log), Done(d.out))
      else if status == Failed then Session(Close(x.log), Aborted(d.out))
      else
        var next := Chunk(x.log.flash, d, status);
        if next.left <= 0 then Session(Close(x.log), Done(next.out)) else Session(x.log, Sending(next))
    case Done(_) => x
    case Aborted(_) => x
  }

  ghost predicate Possible(x: Session, t: Turn) {
    && x.log.Valid()
    && match t
       case MessageTurn(ps, critical) => |Render(ps)| < MAX_MESSAGE && Log(x.log, ps, critical).ring.Valid()
       case TickTurn(_, _) => true
       case ChunkTurn(_) => true
  }

  ghost function TakeTurn(x: Session, t: Turn): Session
    requires Possible(x, t)
  {
    match t
    case MessageTurn(ps, critical) => x.(log := Log(x.log, ps, critical))
    case TickTurn(first, second) => x.(log := Tick(x.log, first, second))
    case ChunkTurn(status) => NextChunk(x, status)
  }

  ghost predicate PossibleTurns(x: Session, ts: seq<Turn>)
    decreases |ts|
  {
    ts == [] || (Possible(x, ts[0]) && PossibleTurns(TakeTurn(x, ts[0]), ts[1..]))
  }

  ghost function TakeTurns(x: Session, ts: seq<Turn>): Session
    requires PossibleTurns(x, ts)
    decreases |ts|
  {
    if ts == [] then x else TakeTurns(TakeTurn(x, ts[0]), ts[1..])
  }

  /** While the log file is being sent, no tick touches the flash or its pointers. */
  lemma TickLeavesFlashAlone(s: State, first: Replies, second: Replies)
    requires s.Valid() && s.task != Ready
    ensures Tick(s, first, second).flash == s.flash
  {
  }

  /** What is kept between `f`, the flash as it was when the dump began, and the session: an open dump
      is on track in the unchanged flash; a finished one has sent the slice. */
  ghost predicate Faithful(x: Session, f: Flash, start: nat, size: nat)
    requires f.InArea() && start + size <= |LogBytes(f)|
  {
    && x.log.Valid()
    && match x.dump
       case Sending(d) => x.log.flash == f && x.log.task == SendingLogFile && OnTrack(f, d, start, size)
       case Done(out) => out == LogBytes(f)[start..start + size]
       case Aborted(out) => out <= LogBytes(f)[start..start + size]
  }

  lemma ChunkTurnKeepsFaithful(x: Session, f: Flash, start: nat, size: nat, status: Status)
    requires f.InArea() && start + size <= |LogBytes(f)| && Faithful(x, f, start, size)
    requires Possible(x, ChunkTurn(status))
    ensures Faithful(NextChunk(x, status), f, start, size)
  {
    if x.dump.Sending? {
      var d := x.dump.progress;
      SliceGrows(LogBytes(f), start, start + |d.out|, start + size);
      if d.left > 0 {
        ChunkKeepsOnTrack(f, d, start, size, status);
      }
    }
  }

  lemma TurnKeepsFaithful(x: Session, f: Flash, start: nat, size: nat, t: Turn)
    requires f.InArea() && start + size <= |LogBytes(f)| && Faithful(x, f, start, size)
    requires Possible(x, t)
    ensures Faithful(TakeTurn(x, t), f, start, size)
  {
    match t
    case MessageTurn(ps, critical) =>
    case TickTurn(first, second) =>
      TickKeepsValid(x.log, first, second);
      if x.dump.Sending? {
        TickLeavesFlashAlone(x.log, first, second);
      }
    case ChunkTurn(status) => ChunkTurnKeepsFaithful(x, f, start, size, status);
  }

  lemma {:induction false} TurnsKeepFaithful(x: Session, f: Flash, start: nat, size: nat, ts: seq<Turn>)
    returns (end: Session)
    requires f.InArea() && start + size <= |LogBytes(f)| && Faithful(x, f, start, size)
    requires PossibleTurns(x, ts)
    ensures end == TakeTurns(x, ts) && Faithful(end, f, start, size)
    decreases |ts|
  {
    end := x;
    if ts != [] {
      TurnKeepsFaithful(x, f, start, size, ts[0]);
      end := TurnsKeepFaithful(TakeTurn(x, ts[0]), f, start, size, ts[1..]);
    }
  }

  /** However messages, ticks and chunks interleave, a dump sends the slice of the log as it was when
      the dump began: all of it when it completes, a beginning of it otherwise. */
  lemma DumpIsASnapshot(s: State, sizeKB: uint16, ts: seq<Turn>)
    requires s.Valid() && PossibleTurns(Open(s, sizeKB), ts)
    ensures match TakeTurns(Open(s, sizeKB), ts).dump
            case Sending(d) => d.out <= Slice(s.flash, sizeKB)
            case Done(out) => out == Slice(s.flash, sizeKB)
            case Aborted(out) => out <= Slice(s.flash, sizeKB)
  {
    var f, size := s.flash, ReadSizeBytes(sizeKB, s.flash.rd, s.flash.wr, s.flash.n);
    var start := StartOffset(f, size);
    BeginOnTrack(f, sizeKB);
    var end := TurnsKeepFaithful(Open(s, sizeKB), f, start, size, ts);
    if end.dump.Sending? {
      SliceGrows(LogBytes(f), start, start + |end.dump.progress.out|, start + size);
    }
  }

  /** How a dump stands. */
  datatype Verdict = Missing(chunks: nat) | Complete | Broken

  /** What the answers make of a dump of `chunks` chunks: it is complete with the last acceptance, broken
      by a failure before that, and nothing else ends it. */
  function Judge(ts: seq<Turn>, chunks: nat): Verdict
    decreases |ts|
  {
    if chunks == 0 then Complete
    else if ts == [] then Missing(chunks)
    else
      match ts[0]
      case ChunkTurn(Ok) => Judge(ts[1..], chunks - 1)
      case ChunkTurn(Failed) => Broken
      case _ => Judge(ts[1..], chunks)
  }

  /** The dump stands as judged. */
  ghost predicate Stands(x: Session, v: Verdict) {
    match v
    case Missing(chunks) =>
      && x.dump.Sending? && x.log.task == SendingLogFile && x.log.Valid()
      && InLog(x.log.flash.n, x.dump.progress.iter)
      && ChunksLeft(x.log.flash.n, x.dump.progress.iter, x.dump.progress.left) == chunks
    case Complete => x.dump.Done?
    case Broken => x.dump.Aborted?
  }

  lemma TurnStands(x: Session, f: Flash, start: nat, size: nat, t: Turn, chunks: nat)
    requires f.InArea() && start + size <= |LogBytes(f)| && Faithful(x, f, start, size) && Possible(x, t)
    requires chunks > 0 && Stands(x, Missing(chunks))
    ensures Stands(TakeTurn(x, t), match t
                                   case ChunkTurn(Ok) => if chunks == 1 then Complete else Missing(chunks - 1)
                                   case ChunkTurn(Failed) => Broken
                                   case _ => Missing(chunks))
  {
    match t
    case MessageTurn(_, _) =>
    case TickTurn(first, second) =>
      TickKeepsValid(x.log, first, second);
      TickLeavesFlashAlone(x.log, first, second);
    case ChunkTurn(_) => ChunkCounts(f, x.dump.progress);
  }

  lemma {:induction false} TurnsStand(x: Session, f: Flash, start: nat, size: nat, ts: seq<Turn>, chunks: nat)
    requires f.InArea() && start + size <= |LogBytes(f)| && Faithful(x, f, start, size) && PossibleTurns(x, ts)
    requires chunks > 0 && Stands(x, Missing(chunks))
    ensures Stands(TakeTurns(x, ts), Judge(ts, chunks))
    decreases |ts|
  {
    hide Faithful, ChunksLeft, NextChunk, Log, Tick, LogBytes;
    if ts != [] {
      var next := TakeTurn(x, ts[0]);
      TurnStands(x, f, start, size, ts[0], chunks);
      TurnKeepsFaithful(x, f, start, size, ts[0]);
      if !next.dump.Sending? {
        EndedStaysEnded(next, ts[1..]);
        assert Judge(ts, chunks) == if ts[0] == ChunkTurn(Ok) then Complete else Broken;
      } else if ts[0] == ChunkTurn(Ok) {
        TurnsStand(next, f, start, size, ts[1..], chunks - 1);
      } else {
        TurnsStand(next, f, start, size, ts[1..], chunks);
      }
    }
  }

  lemma {:induction false} EndedStaysEnded(x: Session, ts: seq<Turn>)
    requires !x.dump.Sending? && PossibleTurns(x, ts)
    ensures TakeTurns(x, ts).dump == x.dump
    decreases |ts|
  {
    if ts != [] {
      EndedStaysEnded(TakeTurn(x, ts[0]), ts[1..]);
    }
  }

  /** A dump begins exactly when the logger is ready and there is something to send. It is then complete
      after as many acceptances as it has chunks, broken by a failure before that, and else still going on;
      a busy answer, a message or a tick ends nothing. */
  lemma DumpEndsWhen(s: State, sizeKB: uint16, ts: seq<Turn>)
    requires s.Valid() && PossibleTurns(Open(s, sizeKB), ts)
    ensures if s.task == Ready && Slice(s.flash, sizeKB) != []
            then Stands(TakeTurns(Open(s, sizeKB), ts), Judge(ts, ChunksOf(s.flash, sizeKB)))
            else TakeTurns(Open(s, sizeKB), ts).dump == Aborted([]) && Open(s, sizeKB).log == s
  {
    var f, size := s.flash, ReadSizeBytes(sizeKB, s.flash.rd, s.flash.wr, s.flash.n);
    BeginOnTrack(f, sizeKB);
    BeginInArea(f, sizeKB);
    StartInArea(f, sizeKB);
    var x := Open(s, sizeKB);
    if x.dump.Sending? {
      TurnsStand(x, f, StartOffset(f, size), size, ts, ChunksOf(f, sizeKB));
    } else {
      EndedStaysEnded(x, ts);
    }
  }

  lemma EndOfSuffix(stream: seq<byte>, log: seq<byte>, size: nat)
    requires |log| <= |stream| && log == Last(stream, |log|) && size <= |log|
    ensures log[|log| - size..|log| - size + size] == Last(stream, size)
    ensures log[0..0 + size] == Last(stream, |log|)[..size]
  {
  }

  /** In every reachable flash the slice is made of bytes accepted earlier: the newest ones if the
      request is served from the end, else the oldest ones the log still holds. */
  lemma SliceOfStream(f: Flash, h: History, sizeKB: uint16)
    requires Inv(f, h)
    ensures f.InArea() && |LogBytes(f)| <= |h.stream|
    ensures var size := |Slice(f, sizeKB)|;
            && size <= |LogBytes(f)|
            && Slice(f, sizeKB) == if ServesNewest(f, size) then Last(h.stream, size)
                                   else Last(h.stream, |LogBytes(f)|)[..size]
  {
    LoggerRuns.LogReadsBack(f, h);
    BeginOnTrack(f, sizeKB);
    StartInArea(f, sizeKB);
    EndOfSuffix(h.stream, LogBytes(f), |Slice(f, sizeKB)|);
  }
}
