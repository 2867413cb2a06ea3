/** Concrete inputs on which the code departs from what it is meant to do. The exact conditions are
    the if-and-only-if lemmas of the other modules. */
module Findings {
  import opened Config
  import opened Format
  import opened RamRing
  import opened FlashGeometry
  import opened FlashLog
  import opened FlashDriver
  import opened FlashHarm
  import opened FlashClearing
  import opened Dump
  import opened Logger
  import opened LoggerLaws
  import opened Backlog
  import Itoa

  /** -5 is printed as "-0". */
  lemma {:induction false} MinusFive()
    ensures Itoa.Text(-5, 10, 11) == [Itoa.MINUS, Itoa.ZERO]
  {
  }

  /** "%c" written to the last cell of the ring leaves the write pointer outside the ring. */
  lemma {:induction false} CharOnLastCell(r: Ring, c: byte)
    requires r.Valid() && r.wr == RING_SIZE - 1
    ensures var e := Emit(Room(r.wr), 0, [Text([]), Char(c)]);
            e == Emission([c], true) && AfterMessage(r, e).wr == RING_SIZE
  {
  }

  /** 33 bytes written from cell 990 with the reader on cell 1000: the reader ends on the tail. */
  lemma OverrunOntoLastCell(r: Ring, message: seq<byte>)
    requires r.Valid() && r.rd == 1000 && r.wr == 990 && |message| == 33
    ensures var next := AfterMessage(r, Emission(message, false));
            next.rd == RING_SIZE && ReadableLen(next.rd, next.wr) == 0
  {
  }

  /** "x%r" with a buffer of 127 bytes renders to 255 bytes, within the limit. Written from cell 896 with
      768 bytes pending it puts out 256, the ring looks empty, and nothing marks the loss. */
  lemma {:induction false} FullRingLooksEmpty(r: Ring, data: seq<byte>, clock: Clock)
    requires r.Valid() && r.rd == 128 && r.wr == 896 && |data| == 127
    ensures Matches([CH_X, PERCENT, CH_R], [Buffer(data)])
    ensures var ps := Pieces([CH_X, PERCENT, CH_R], [Buffer(data)], clock);
            var e := Emit(Room(r.wr), 0, ps);
            && |Render(ps)| == 255 && |e.bytes| == 256
            && |r.Pending()| == 768 && !OverrunTest(r, e)
            && AfterMessage(r, e).Valid() && AfterMessage(r, e).Pending() == []
  {
    var fmt: CString := [CH_X, PERCENT, CH_R];
    assert fmt[0] == CH_X && fmt[1] == PERCENT && fmt[2] == CH_R && fmt[1..][0] == PERCENT;
    assert LiteralLen(fmt) == 1 + SpanLen(fmt[1..], PERCENT) == 1;
    assert fmt[3..] == [] && LiteralLen(fmt[3..]) == 0;
    var ps := Pieces(fmt, [Buffer(data)], clock);
    PiecesStep(fmt, [Buffer(data)], clock);
    assert FirstPiece(fmt, [Buffer(data)], clock) == Raw(data);
    assert LaterPieces(fmt, [Buffer(data)], clock) == [Text([])];
    assert fmt[..1] == [CH_X];
    assert ps == [Text([CH_X]), Raw(data)] + [Text([])];
    EmitLiteralFirst(128, 0, [CH_X], Raw(data), [Text([])]);
    EmitNext(128, 1, Raw(data), [Text([])]);
    EmitOne(128, 1, Raw(data));
    EmitLiteral(128, 0, []);
  }

  /** 600 bytes pending, 100 of them before the tail, and a flash at the start of a page: nothing moves. */
  lemma {:induction false} StalledBeforeTail(s: State, r: Replies)
    requires s.Valid() && QuietFlash(s) && s.ring.rd == 924 && s.ring.wr == 500 && s.flash.wr == FLASH_START + 256
    ensures |s.ring.Pending()| == 600 && Tick(s, r, r) == s
  {
    StallStays(s, [(r, r)]);
    assert Ticks(s, [(r, r)]) == Ticks(Tick(s, r, r), []) by {
      TickKeepsValid(s, r, r);
    }
  }

  /** A wrapped log with 512 bytes behind the wrap: asked for the newest kilobyte, the dump starts with
      the oldest byte. */
  lemma WrappedKilobyteIsOldest(f: Flash)
    requires f.InArea() && f.n == 2 && f.rd == FLASH_START + SECTOR && f.wr == FLASH_START + 512
    ensures ReadSizeBytes(1, f.rd, f.wr, f.n) == 1024
    ensures Slice(f, 1) == LogBytes(f)[..1024] && |LogBytes(f)| == SECTOR + 512
  {
  }

  /** Two bytes sent to the last cell of a page: the second one lands on the first. */
  lemma TwoBytesAcrossPage(cells: seq<Cell>, a: byte, b: byte)
    requires |cells| > 256 && cells[255] == Erased && cells[256] == Erased
    ensures var o := SendFlashData(cells, FLASH_START + 255, [a, b], 2, 2);
            o.ok && o.cells[255] == Garbled && o.cells[256] == Erased
  {
  }

  /** Switched on with the write pointer a page into a sector, the log is spoilt by packets to come. */
  lemma SwitchedOnInsideSector(f: Flash, h: History)
    requires Inv(f, h) && f.wr == FLASH_START + 256
    ensures SwitchOn(f).rd == FLASH_START + 256 && Harmful(SwitchOn(f))
  {
    SwitchOnHarmlessIff(f, h);
  }
}
