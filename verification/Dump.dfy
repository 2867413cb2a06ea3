/** Sending a slice of the flash log back out, chunk by chunk. */
module Dump {
  import opened Config
  import opened FlashGeometry
  import opened FlashLog

  datatype Status = Ok | Busy | Failed

  /** The loop variables of a dump in progress, and what the destination has accepted. */
  datatype Progress = Progress(iter: nat, left: int, out: seq<byte>)

  /** What a cell reads as: an erased byte is all ones; the model leaves a spoilt one at zero. */
  function ReadCell(c: Cell): byte {
    match c
    case Programmed(b) => b
    case Erased => 255
    case Garbled => 0
  }

  /** `len` bytes from cell `at` on; outside the log area the device reads as erased. */
  function ReadCells(cells: seq<Cell>, at: int, len: int): (s: seq<byte>)
    ensures |s| == Max(len, 0)
  {
    seq<byte>(Max(len, 0), i requires 0 <= i < len =>
      ReadCell(if 0 <= at + i < |cells| then cells[at + i] else Erased))
  }

  /** The log as a reader sees it, oldest byte first. */
  function LogBytes(f: Flash): (s: seq<byte>)
    requires f.InArea()
    ensures |s| == |LogCells(f)|
  {
    seq<byte>(|LogCells(f)|, i requires 0 <= i < |LogCells(f)| => ReadCell(LogCells(f)[i]))
  }

  /** The address of log byte `offset`. */
  function LogAddr(f: Flash, offset: int): int {
    FLASH_START + Fold(f.rd - FLASH_START + offset, FlashBytes(f.n))
  }

  function Min3(a: int, b: int, c: int): int {
    if a < b then Min(a, c) else Min(b, c)
  }

  function Begin(f: Flash, sizeKB: uint16): Progress
    requires f.InArea()
  {
    var size := ReadSizeBytes(sizeKB, f.rd, f.wr, f.n);
    RequestedSize(sizeKB, f.rd, f.wr, f.n);
    var start: nat := ReadStart(FLASH_START, EndAddress(f.n), f.wr, f.rd, size);
    Progress(start, size, [])
  }

  function ChunkLen(f: Flash, d: Progress): int {
    Min3(256, d.left, EndAddress(f.n) - d.iter)
  }

  /** One round of the loop: a busy destination changes nothing. */
  function Chunk(f: Flash, d: Progress, s: Status): Progress
    requires f.InArea() && d.left > 0
  {
    var len := ChunkLen(f, d);
    if s != Ok then d
    else Progress(if d.iter + len >= EndAddress(f.n) then FLASH_START else d.iter + len, d.left - len,
                  d.out + ReadCells(f.cells, d.iter - FLASH_START, len))
  }

  // ------------------------------------------------------------ which slice

  /** The requests served with the newest bytes of the log. */
  predicate ServesNewest(f: Flash, size: int) {
    f.wr > f.rd || size <= f.wr - FLASH_START || size == FlashUsageBytes(f.rd, f.wr, f.n)
  }

  /** Where in the log the dump starts. */
  function StartOffset(f: Flash, size: int): int {
    if ServesNewest(f, size) then FlashUsageBytes(f.rd, f.wr, f.n) - size else 0
  }

  /** What the dump is to send. */
  function Slice(f: Flash, sizeKB: uint16): seq<byte>
    requires f.InArea()
  {
    var size := ReadSizeBytes(sizeKB, f.rd, f.wr, f.n);
    RequestedSize(sizeKB, f.rd, f.wr, f.n);
    LogBytes(f)[StartOffset(f, size)..StartOffset(f, size) + size]
  }

  /** The start address is that of the newest `size` bytes exactly when the log does not wrap, the
      request ends behind the wrap, or it is the whole log; any other request is answered from the
      oldest byte on. */
  lemma StartAddressNewestIff(f: Flash, sizeKB: uint16)
    requires f.InArea() && f.rd != f.wr
    ensures var size, live := ReadSizeBytes(sizeKB, f.rd, f.wr, f.n), FlashUsageBytes(f.rd, f.wr, f.n);
            && Begin(f, sizeKB).iter == LogAddr(f, StartOffset(f, size))
            && (size > 0 ==> (Begin(f, sizeKB).iter == LogAddr(f, live - size) <==> ServesNewest(f, size)))
  {
  }

  // ------------------------------------------------------------ progress

  /** `out` is the beginning of the `size` log bytes from `start` on, and the loop stands on the byte
      behind it. */
  ghost predicate OnTrack(f: Flash, d: Progress, start: nat, size: nat)
    requires f.InArea()
  {
    && start + size <= |LogBytes(f)|
    && d.left == size - |d.out| >= 0
    && d.out == LogBytes(f)[start..start + |d.out|]
    && (d.left > 0 ==> d.iter == LogAddr(f, start + |d.out|))
  }

  lemma BeginOnTrack(f: Flash, sizeKB: uint16)
    requires f.InArea()
    ensures var size := ReadSizeBytes(sizeKB, f.rd, f.wr, f.n);
            && 0 <= size && 0 <= StartOffset(f, size)
            && OnTrack(f, Begin(f, sizeKB), StartOffset(f, size), size)
  {
    RequestedSize(sizeKB, f.rd, f.wr, f.n);
    if f.rd != f.wr {
      StartAddressNewestIff(f, sizeKB);
    }
  }

  lemma StartInArea(f: Flash, sizeKB: uint16)
    requires f.InArea()
    ensures ReadStart(FLASH_START, EndAddress(f.n), f.wr, f.rd, ReadSizeBytes(sizeKB, f.rd, f.wr, f.n)) >= FLASH_START
    ensures |Slice(f, sizeKB)| == ReadSizeBytes(sizeKB, f.rd, f.wr, f.n)
  {
  }

  /** Reading flash cells that do not wrap is reading the log. */
  lemma ReadIsLog(f: Flash, offset: nat, len: nat)
    requires f.InArea() && offset + len <= |LogCells(f)| && len > 0
    requires LogAddr(f, offset) + len <= EndAddress(f.n)
    ensures InLog(f.n, LogAddr(f, offset))
    ensures ReadCells(f.cells, LogAddr(f, offset) - FLASH_START, len) == LogBytes(f)[offset..offset + len]
  {
    var bytes, log := ReadCells(f.cells, LogAddr(f, offset) - FLASH_START, len), LogBytes(f)[offset..offset + len];
    forall i: nat | i < len
      ensures bytes[i] == log[i]
    {
      assert LogAddr(f, offset + i) == LogAddr(f, offset) + i;
      assert log[i] == LogBytes(f)[offset + i] == ReadCell(LogCells(f)[offset + i]);
    }
  }

  /** Stepping along the log: the address goes on, and back to the start of the area at its end. */
  lemma LogAddrSteps(f: Flash, offset: nat, len: nat)
    requires f.InArea() && offset < |LogCells(f)| && offset + len <= |LogCells(f)|
    requires LogAddr(f, offset) + len <= EndAddress(f.n)
    ensures LogAddr(f, offset + len)
         == if LogAddr(f, offset) + len >= EndAddress(f.n) then FLASH_START else LogAddr(f, offset) + len
  {
  }

  lemma LogAddrInArea(f: Flash, offset: nat)
    requires f.InArea() && offset < |LogCells(f)|
    ensures InLog(f.n, LogAddr(f, offset))
  {
  }

  lemma SliceGrows(s: seq<byte>, a: nat, b: nat, c: nat)
    requires a <= b <= c <= |s|
    ensures s[a..b] + s[b..c] == s[a..c]
  {
  }

  /** The chunk about to be sent is not empty, ends before the end of the area, and consists of the
      next bytes of the slice: only cells of the log are read. */
  lemma ChunkIsNext(f: Flash, d: Progress, start: nat, size: nat)
    requires f.InArea() && OnTrack(f, d, start, size) && d.left > 0
    ensures InLog(f.n, d.iter)
    ensures var len, offset := ChunkLen(f, d), start + |d.out|;
            && 0 < len <= d.left && d.iter + len <= EndAddress(f.n)
            && ReadCells(f.cells, d.iter - FLASH_START, len) == LogBytes(f)[offset..offset + len]
  {
    hide LogBytes, LogAddr, ReadCells;
    LogAddrInArea(f, start + |d.out|);
    ReadIsLog(f, start + |d.out|, ChunkLen(f, d));
  }

  /** What an accepted chunk adds to the bytes sent. */
  lemma AcceptedChunkOut(f: Flash, d: Progress, start: nat, size: nat)
    requires f.InArea() && OnTrack(f, d, start, size) && d.left > 0
    ensures start + |d.out| + ChunkLen(f, d) <= start + size
    ensures Chunk(f, d, Ok).out == LogBytes(f)[start..start + |d.out| + ChunkLen(f, d)]
  {
    hide LogBytes, LogAddr, ReadCells;
    ChunkIsNext(f, d, start, size);
    SliceGrows(LogBytes(f), start, start + |d.out|, start + |d.out| + ChunkLen(f, d));
  }

  /** Where it leaves the loop. */
  lemma AcceptedChunkIter(f: Flash, d: Progress, start: nat, size: nat)
    requires f.InArea() && OnTrack(f, d, start, size) && d.left > 0
    ensures 0 < ChunkLen(f, d) <= d.left
    ensures Chunk(f, d, Ok).iter == LogAddr(f, start + |d.out| + ChunkLen(f, d))
  {
    hide LogBytes, LogAddr, ReadCells;
    ChunkIsNext(f, d, start, size);
    LogAddrSteps(f, start + |d.out|, ChunkLen(f, d));
  }

  lemma AcceptedChunkOnTrack(f: Flash, d: Progress, start: nat, size: nat, next: Progress)
    requires f.InArea() && OnTrack(f, d, start, size) && d.left > 0
    requires next == Chunk(f, d, Ok)
    ensures OnTrack(f, next, start, size) && next.left < d.left
  {
    hide LogBytes, LogAddr, ReadCells;
    AcceptedChunkIter(f, d, start, size);
    AcceptedChunkOut(f, d, start, size);
    assert |next.out| == |d.out| + ChunkLen(f, d) && next.left == d.left - ChunkLen(f, d);
  }

  /** Every round keeps the dump on track, and gets nearer to the end unless the destination is busy. */
  lemma ChunkKeepsOnTrack(f: Flash, d: Progress, start: nat, size: nat, s: Status)
    requires f.InArea() && OnTrack(f, d, start, size) && d.left > 0
    ensures InLog(f.n, d.iter) && OnTrack(f, Chunk(f, d, s), start, size)
    ensures if s == Ok then Chunk(f, d, s).left < d.left else Chunk(f, d, s) == d
  {
    LogAddrInArea(f, start + |d.out|);
    if s == Ok {
      AcceptedChunkOnTrack(f, d, start, size, Chunk(f, d, s));
    }
  }

  // ------------------------------------------------------------ how many chunks

  function Pages(len: nat): nat {
    (len + 255) / 256
  }

  /** The chunks it takes to send `left` bytes from address `iter` on: pages up to the end of the area, and
      pages behind it. */
  function ChunksLeft(n: nat, iter: nat, left: int): (chunks: nat)
    requires SectorCount(n) && InLog(n, iter)
    ensures chunks == 0 <==> left <= 0
  {
    if left <= 0 then 0
    else if iter + left <= EndAddress(n) then Pages(left)
    else Pages(EndAddress(n) - iter) + Pages(iter + left - EndAddress(n))
  }

  /** An accepted chunk is one chunk less, and the last one leaves nothing. */
  lemma ChunkCounts(f: Flash, d: Progress)
    requires f.InArea() && InLog(f.n, d.iter) && 0 < d.left < FlashBytes(f.n)
    ensures var next := Chunk(f, d, Ok);
            && InLog(f.n, next.iter) && 0 <= next.left < d.left
            && ChunksLeft(f.n, next.iter, next.left) == ChunksLeft(f.n, d.iter, d.left) - 1
  {
    var room := EndAddress(f.n) - d.iter;
    assert d.left > 256 ==> Pages(d.left) == 1 + Pages(d.left - 256);
    assert room > 256 ==> Pages(room) == 1 + Pages(room - 256);
  }

  /** The chunks of a whole dump. */
  function ChunksOf(f: Flash, sizeKB: uint16): (chunks: nat)
    requires f.InArea()
    ensures chunks == 0 <==> ReadSizeBytes(sizeKB, f.rd, f.wr, f.n) == 0
  {
    var d := Begin(f, sizeKB);
    RequestedSize(sizeKB, f.rd, f.wr, f.n);
    BeginInArea(f, sizeKB);
    if d.left == 0 then 0 else ChunksLeft(f.n, d.iter, d.left)
  }

  lemma BeginInArea(f: Flash, sizeKB: uint16)
    requires f.InArea()
    ensures Begin(f, sizeKB).left > 0 ==> InLog(f.n, Begin(f, sizeKB).iter)
  {
    BeginOnTrack(f, sizeKB);
    if Begin(f, sizeKB).left > 0 {
      LogAddrInArea(f, StartOffset(f, Begin(f, sizeKB).left));
    }
  }

  // ------------------------------------------------------------ the answers of the destination

  /** A destination that answers by `replies`, one for each chunk it is offered, and when they are used up
      accepts every chunk. */
  function Answer(replies: seq<Status>, k: nat): Status {
    if k < |replies| then replies[k] else Ok
  }

  /** From answer `k` on, `chunks` acceptances come before any failure. */
  predicate Completes(replies: seq<Status>, k: nat, chunks: nat)
    decreases chunks, |replies| - k
  {
    chunks == 0 ||
    match Answer(replies, k)
    case Ok => Completes(replies, k + 1, chunks - 1)
    case Busy => Completes(replies, k + 1, chunks)
    case Failed => false
  }

  /** What a destination has accepted of the chunks it was offered. */
  function AcceptedOf(offers: seq<seq<byte>>, replies: seq<Status>): seq<byte> {
    if offers == [] then []
    else
      var k := |offers| - 1;
      AcceptedOf(offers[..k], replies) + if Answer(replies, k) == Ok then offers[k] else []
  }

  /** From offer `from` on: chunks are not empty and at most a page, and one that was answered busy is
      offered again. */
  ghost predicate Retried(offers: seq<seq<byte>>, replies: seq<Status>, from: nat) {
    forall i :: from <= i < |offers| ==>
      && 0 < |offers[i]| <= 256
      && (Answer(replies, i) == Busy && i + 1 < |offers| ==> offers[i + 1] == offers[i])
  }

  /** The next chunk is the last one again if that was answered busy. */
  ghost predicate OffersNext(offers: seq<seq<byte>>, replies: seq<Status>, from: nat, chunk: seq<byte>) {
    |offers| > from && Answer(replies, |offers| - 1) == Busy ==> offers[|offers| - 1] == chunk
  }

  lemma RetriedGrows(offers: seq<seq<byte>>, replies: seq<Status>, from: nat, chunk: seq<byte>, next: seq<byte>)
    requires from <= |offers| && 0 < |chunk| <= 256
    requires Retried(offers, replies, from) && OffersNext(offers, replies, from, chunk)
    requires Answer(replies, |offers|) == Busy ==> next == chunk
    ensures Retried(offers + [chunk], replies, from) && OffersNext(offers + [chunk], replies, from, next)
  {
  }

  /** The chunk a round offers. */
  function ChunkBytes(f: Flash, d: Progress): seq<byte> {
    ReadCells(f.cells, d.iter - FLASH_START, ChunkLen(f, d))
  }

  lemma StartsRetrying(offers: seq<seq<byte>>, replies: seq<Status>, chunk: seq<byte>)
    ensures Retried(offers, replies, |offers|) && OffersNext(offers, replies, |offers|, chunk)
  {
  }

  /** What has been sent is a beginning of the slice. */
  lemma BeginningOfSlice(f: Flash, d: Progress, start: nat, size: nat)
    requires f.InArea() && OnTrack(f, d, start, size)
    ensures start + size <= |LogBytes(f)| && d.out <= LogBytes(f)[start..start + size]
  {
    SliceGrows(LogBytes(f), start, start + |d.out|, start + size);
  }

  /** A destination that never fails gets everything. */
  lemma {:induction false} NoFailureCompletes(replies: seq<Status>, k: nat, chunks: nat)
    requires Failed !in replies
    ensures Completes(replies, k, chunks)
    decreases chunks, |replies| - k
  {
    if chunks > 0 {
      match Answer(replies, k)
      case Ok => NoFailureCompletes(replies, k + 1, chunks - 1);
      case Busy => NoFailureCompletes(replies, k + 1, chunks);
      case Failed =>
    }
  }
}
