/** The logger: RAM ring, flash manager and destinations together. */
module Logger {
  import opened Config
  import opened Format
  import opened RamRing
  import opened RingLaws
  import opened FlashGeometry
  import opened FlashLog
  import opened FlashLaws
  import opened Dump
  import opened Destinations
  import FlashManager

  datatype Dest = NoDest | ToFlash | ToSocket

  datatype TaskState = Down | Initializing | OpeningSocket | SendingLogFile | Ready

  /** The answers of the callbacks during one packet. */
  datatype Replies = Replies(socket: Status, uart: Status, flash: Reply)

  /** The whole logger as a value, with what socket and UART have accepted so far. */
  datatype State = State(ring: Ring, flash: Flash, task: TaskState, dest: Dest, printout: bool,
                         socketOut: seq<byte>, uartOut: seq<byte>) {
    ghost predicate Valid() {
      ring.Valid() && flash.InArea()
    }

    /** As `Valid`, but the writer may have been left on the tail. */
    ghost predicate Running() {
      |ring.cells| == RING_SIZE && ring.rd < RING_SIZE && ring.wr <= RING_SIZE && flash.InArea()
    }
  }

  // ------------------------------------------------------------ sending

  function Urgent(s: State): bool {
    s.ring.lowMemory || s.ring.urgent
  }

  predicate HasPacket(s: State, len: int) {
    && |s.ring.cells| == RING_SIZE && s.ring.rd < RING_SIZE && s.flash.InArea()
    && s.ring.rd + Min(len, MAX_PACKET) <= RING_SIZE
  }

  /** The bytes `Logger_SendPacket` is about to offer. */
  function Packet(s: State, len: int): (p: seq<byte>)
    requires HasPacket(s, len) && len > 0
    ensures |p| == Min(len, MAX_PACKET)
  {
    s.ring.cells[s.ring.rd..s.ring.rd + Min(len, MAX_PACKET)]
  }

  /** One packet to the destination, and to the UART as well if that is switched on. The UART status
      replaces that of the socket; a flash that is not written to counts as written. */
  function SendPacket(s: State, len: int, r: Replies): (State, Status)
    requires HasPacket(s, len)
  {
    if len <= 0 then (s, Failed)
    else
      var packet := Packet(s, len);
      var (flash, n) := if s.dest == ToFlash && s.task == Ready then SendFlash(s.flash, packet, Urgent(s), r.flash)
                        else (s.flash, |packet|);
      var toSocket := s.dest == ToSocket && s.task == Ready;
      var status := if s.printout then r.uart else if toSocket then r.socket else Ok;
      (s.(flash := flash,
          socketOut := if toSocket && r.socket == Ok then s.socketOut + packet else s.socketOut,
          uartOut := if s.printout && r.uart == Ok then s.uartOut + packet[..n] else s.uartOut,
          ring := if status == Ok && n != 0 then Advance(s.ring, n) else s.ring), status)
  }

  function SecondPacketDue(s: State): bool {
    s.ring.wr != s.ring.rd && s.dest != ToFlash
  }

  function ClearFlags(s: State): State {
    s.(ring := s.ring.(lowMemory := false, urgent := false))
  }

  /** The timer tick: one packet, for a destination other than the flash a second one, then the
      low-memory and urgent flags go down. */
  function Tick(s: State, first: Replies, second: Replies): State
    requires s.Running()
  {
    var len := ReadableLen(s.ring.rd, s.ring.wr);
    if len == 0 then s
    else
      var s1 := SendPacket(s, len, first).0;
      SendPacketKeepsRunning(s, first);
      ClearFlags(if SecondPacketDue(s1) then SendPacket(s1, ReadableLen(s1.ring.rd, s1.ring.wr), second).0 else s1)
  }

  /** What a tick reads is never past the write pointer or the tail. */
  lemma SendPacketKeepsValid(s: State, r: Replies)
    requires s.Valid() && ReadableLen(s.ring.rd, s.ring.wr) > 0
    ensures SendPacket(s, ReadableLen(s.ring.rd, s.ring.wr), r).0.Valid()
  {
    var packet := Packet(s, ReadableLen(s.ring.rd, s.ring.wr));
    SendFlashKeepsArea(s.flash, packet, Urgent(s), r.flash);
  }

  lemma SendPacketKeepsRunning(s: State, r: Replies)
    requires s.Running() && ReadableLen(s.ring.rd, s.ring.wr) > 0
    ensures SendPacket(s, ReadableLen(s.ring.rd, s.ring.wr), r).0.Running()
  {
    var packet := Packet(s, ReadableLen(s.ring.rd, s.ring.wr));
    SendFlashKeepsArea(s.flash, packet, Urgent(s), r.flash);
  }

  // ------------------------------------------------------------ logging

  /** One message; a critical one asks for urgent sending. A writer on the tail drops it. */
  function Log(s: State, ps: seq<Piece>, critical: bool): State
    requires s.Running() && |Render(ps)| < MAX_MESSAGE
  {
    if s.ring.wr == RING_SIZE then s.(ring := s.ring.(lowMemory := IsLow(s.ring)))
    else LogInRing(s, ps, critical)
  }

  function LogInRing(s: State, ps: seq<Piece>, critical: bool): State
    requires s.Valid() && |Render(ps)| < MAX_MESSAGE
  {
    var e := Emit(Room(s.ring.wr), 0, ps);
    EmitLength(Room(s.ring.wr), 0, ps);
    var ring := AfterMessage(s.ring, e);
    s.(ring := if critical && |e.bytes| > 0 then ring.(urgent := true) else ring)
  }

  // ------------------------------------------------------------ power failures

  /** RAM is lost; the flash restarts from its saved pointers. */
  function Restarted(s: State): State
    requires s.flash.InArea()
  {
    s.(ring := s.ring.(rd := 0, wr := 0, lowMemory := false, urgent := false),
       flash := InitFlash(s.flash, false, true, true).0, task := Ready)
  }

  // ------------------------------------------------------------ the logger in place

  class LoggerManager {
    const rx: RxBuffer
    const fm: FlashManager.Manager
    var task: TaskState
    var destType: Dest
    var isPrintoutEnabled: bool
    ghost var socketOut: seq<byte>
    ghost var uartOut: seq<byte>

    constructor (fm: FlashManager.Manager, destType: Dest, isPrintoutEnabled: bool)
      ensures fresh(rx) && fresh(rx.buf) && this.fm == fm
      ensures Current() == State(EMPTY_RING, fm.State(), Initializing, destType, isPrintoutEnabled, [], [])
    {
      rx := new RxBuffer();
      this.fm := fm;
      task := Initializing;
      this.destType, this.isPrintoutEnabled := destType, isPrintoutEnabled;
      socketOut, uartOut := [], [];
    }

    ghost function Current(): State
      reads this, rx, rx.buf, fm, fm.cells
    {
      State(rx.State(), fm.State(), task, destType, isPrintoutEnabled, socketOut, uartOut)
    }

    /** A message from an application task. */
    method Printf(fmt: CString, args: seq<Arg>, clock: Clock, critical: bool)
      requires Current().Running()
      requires Matches(fmt, args) && |Render(Pieces(fmt, args, clock))| < MAX_MESSAGE
      modifies rx, rx.buf
      ensures Current() == Log(old(Current()), Pieces(fmt, args, clock), critical)
    {
      assert |rx.buf[..]| == RING_SIZE;
      var len := rx.ParseAndWriteRxMessage(fmt, args, clock);
      if len > 0 && critical {
        rx.isUrgent := true;
      }
    }

    method SendPacketTo(len: int, r: Replies) returns (status: Status)
      requires HasPacket(Current(), len)
      modifies this`socketOut, this`uartOut, rx`pRead, fm, fm.cells
      ensures (Current(), status) == SendPacket(old(Current()), len, r)
    {
      if len <= 0 {
        return Failed;
      }
      assert |rx.buf[..]| == RING_SIZE;
      status := Ok;
      var strLen := Min(len, MAX_PACKET);
      var packet := rx.buf[rx.pRead..rx.pRead + strLen];
      assert packet == Packet(Current(), len);
      if destType == ToFlash && task == Ready {
        strLen := fm.SendPacketFlash(packet, rx.isLowMemory || rx.isUrgent, r.flash);
      }
      if destType == ToSocket && task == Ready {
        status := r.socket;
        if r.socket == Ok {
          socketOut := socketOut + packet;
        }
      }
      if isPrintoutEnabled {
        status := r.uart;
        if r.uart == Ok {
          uartOut := uartOut + packet[..strLen];
        }
      }
      if status == Ok && strLen != 0 {
        rx.pRead := OntoRing(rx.pRead + strLen);
      }
    }

    /** The timer interrupt. */
    method SendPacketFromInt(first: Replies, second: Replies)
      requires Current().Running()
      modifies this`socketOut, this`uartOut, rx, fm, fm.cells
      ensures Current() == Tick(old(Current()), first, second)
    {
      var buffToRead := ReadableLen(rx.pRead, rx.pWrite);
      if buffToRead == 0 {
        return;
      }
      assert |rx.buf[..]| == RING_SIZE;
      SendPacketKeepsRunning(Current(), first);
      var _ := SendPacketTo(buffToRead, first);
      if rx.pWrite != rx.pRead && destType != ToFlash {
        buffToRead := ReadableLen(rx.pRead, rx.pWrite);
        assert buffToRead > 0;  // no packet is ever empty
        var _ := SendPacketTo(buffToRead, second);
      }
      if rx.isLowMemory || rx.isUrgent {
        rx.isLowMemory, rx.isUrgent := false, false;
      }
    }

    method ReadFlashData(at: nat, len: nat) returns (bytes: seq<byte>)
      requires at + len <= fm.cells.Length
      ensures bytes == ReadCells(fm.cells[..], at, len)
    {
      var buff := new byte[len](i requires 0 <= i < len && at + len <= fm.cells.Length reads fm.cells =>
        ReadCell(fm.cells[at + i]));
      bytes := buff[..];
    }

    /** The chunk a round of the dump loop reads: the next bytes of the slice, at most a page. */
    method ReadChunk(iter: nat, readSizeBytes: int, ghost out: seq<byte>, ghost start: nat, ghost size: nat)
      returns (bytes: seq<byte>)
      requires fm.State().InArea() && OnTrack(fm.State(), Progress(iter, readSizeBytes, out), start, size)
      requires readSizeBytes > 0
      ensures var d := Progress(iter, readSizeBytes, out);
              && |bytes| == ChunkLen(fm.State(), d) && 0 < |bytes| <= 256
              && bytes == ReadCells(fm.State().cells, iter - FLASH_START, |bytes|)
    {
      hide OnTrack, LogBytes;
      ghost var d := Progress(iter, readSizeBytes, out);
      ChunkIsNext(fm.State(), d, start, size);
      var flashReadSize := Min3(256, readSizeBytes, EndAddress(fm.n) - iter);
      bytes := ReadFlashData(iter - FLASH_START, flashReadSize);
    }

    /** One round of the dump loop: the chunk is read and offered, and the loop moves on if it was taken. */
    method SendRound(iterIn: nat, sizeIn: int, dest: Destination, ghost was: nat, ghost start: nat, ghost size: nat)
      returns (status: Status, iter: nat, readSizeBytes: int)
      requires fm.State().InArea() && dest.Valid() && was <= |dest.received| && sizeIn > 0
      requires OnTrack(fm.State(), Progress(iterIn, sizeIn, dest.received[was..]), start, size)
      modifies dest
      ensures dest.Valid() && was <= |old(dest.received)| && old(dest.received) <= dest.received
      ensures status == Answer(dest.replies, old(dest.calls))
      ensures var d := Progress(iterIn, sizeIn, old(dest.received)[was..]);
              && dest.offers == old(dest.offers) + [ChunkBytes(fm.State(), d)] && 0 < |ChunkBytes(fm.State(), d)| <= 256
              && Progress(iter, readSizeBytes, dest.received[was..])
              == (if status == Ok then Chunk(fm.State(), d, Ok) else d)
      ensures OnTrack(fm.State(), Progress(iter, readSizeBytes, dest.received[was..]), start, size)
    {
      hide OnTrack, LogBytes, ReadCells, AcceptedOf;
      ghost var d := Progress(iterIn, sizeIn, dest.received[was..]);
      ChunkKeepsOnTrack(fm.State(), d, start, size, Ok);
      var chunk := ReadChunk(iterIn, sizeIn, d.out, start, size);
      status := dest.Offer(chunk);
      iter, readSizeBytes := iterIn, sizeIn;
      if status == Ok {
        iter, readSizeBytes := iter + |chunk|, readSizeBytes - |chunk|;
        if iter >= EndAddress(fm.n) {
          iter := FLASH_START;
        }
        assert dest.received[was..] == d.out + chunk;
      } else {
        assert dest.received == old(dest.received);
      }
    }

    /** The dump loop: the destination receives the slice, or a beginning of it when it fails before it has
        accepted every chunk. */
    method SendChunks(iterIn: nat, sizeIn: nat, dest: Destination, ghost start: nat) returns (ok: bool)
      requires fm.State().InArea() && OnTrack(fm.State(), Progress(iterIn, sizeIn, []), start, sizeIn)
      requires dest.Valid() && InLog(fm.n, iterIn) && sizeIn < FlashBytes(fm.n)
      modifies dest
      ensures dest.Valid() && old(dest.received) <= dest.received && old(dest.offers) <= dest.offers
      ensures ok <==> Completes(dest.replies, old(dest.calls), ChunksLeft(fm.n, iterIn, sizeIn))
      ensures dest.received[|old(dest.received)|..] <= LogBytes(fm.State())[start..start + sizeIn]
      ensures ok ==> dest.received[|old(dest.received)|..] == LogBytes(fm.State())[start..start + sizeIn]
      ensures Retried(dest.offers, dest.replies, |old(dest.offers)|)
    {
      hide LogBytes, ChunkBytes, ChunksLeft, AcceptedOf, ChunkLen, Chunk, Retried, OffersNext;
      ghost var f, was, from := fm.State(), |dest.received|, dest.calls;
      var iter, readSizeBytes: int := iterIn, sizeIn;
      StartsRetrying(dest.offers, dest.replies, ChunkBytes(f, Progress(iterIn, sizeIn, [])));
      assert dest.received[was..] == [];
      while readSizeBytes > 0
        invariant dest.Valid() && old(dest.received) <= dest.received && old(dest.offers) <= dest.offers
        invariant fm.State() == f && InLog(fm.n, iter) && 0 <= readSizeBytes <= sizeIn
        invariant OnTrack(f, Progress(iter, readSizeBytes, dest.received[was..]), start, sizeIn)
        invariant Completes(dest.replies, from, ChunksLeft(fm.n, iterIn, sizeIn))
             <==> Completes(dest.replies, dest.calls, ChunksLeft(fm.n, iter, readSizeBytes))
        invariant Retried(dest.offers, dest.replies, from)
        invariant OffersNext(dest.offers, dest.replies, from,
                             ChunkBytes(f, Progress(iter, readSizeBytes, dest.received[was..])))
        decreases readSizeBytes, |dest.replies| - dest.calls
      {
        ghost var d, offers := Progress(iter, readSizeBytes, dest.received[was..]), dest.offers;
        ChunkCounts(f, d);
        var status;
        status, iter, readSizeBytes := SendRound(iter, readSizeBytes, dest, was, start, sizeIn);
        RetriedGrows(offers, dest.replies, from, ChunkBytes(f, d),
                     ChunkBytes(f, Progress(iter, readSizeBytes, dest.received[was..])));
        if status == Failed {
          BeginningOfSlice(f, d, start, sizeIn);
          return false;
        }
      }
      ok := true;
    }

    /** Sends `sizeKB` kilobytes of the flash log, unless the logger is busy or the log is empty. */
    method SendDebugLog(sizeKB: uint16, dest: Destination) returns (ok: bool)
      requires fm.State().InArea() && dest.Valid()
      modifies this`task, dest
      ensures task == old(task)
      ensures dest.Valid() && old(dest.received) <= dest.received && old(dest.offers) <= dest.offers
      ensures ok <==> task == Ready && Slice(fm.State(), sizeKB) != []
                      && Completes(dest.replies, old(dest.calls), ChunksOf(fm.State(), sizeKB))
      ensures dest.received[|old(dest.received)|..] <= Slice(fm.State(), sizeKB)
      ensures ok ==> dest.received == old(dest.received) + Slice(fm.State(), sizeKB)
      ensures task != Ready || Slice(fm.State(), sizeKB) == [] ==> dest.offers == old(dest.offers)
      ensures Retried(dest.offers, dest.replies, |old(dest.offers)|)
    {
      hide LogBytes, AcceptedOf, Completes, ChunksLeft;
      ghost var f := fm.State();
      BeginOnTrack(f, sizeKB);
      StartInArea(f, sizeKB);
      RequestedSize(sizeKB, fm.readAddr, fm.writeAddr, fm.n);
      var readSizeBytes := ReadSizeBytes(sizeKB, fm.readAddr, fm.writeAddr, fm.n);
      if readSizeBytes == 0 || task != Ready {
        return false;
      }
      task := SendingLogFile;
      var iter := ReadStart(FLASH_START, EndAddress(fm.n), fm.writeAddr, fm.readAddr, readSizeBytes);
      BeginInArea(f, sizeKB);
      ok := SendChunks(iter, readSizeBytes, dest, StartOffset(f, readSizeBytes));
      task := Ready;
    }
  }
}
