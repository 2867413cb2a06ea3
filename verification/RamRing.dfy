/** The RAM ring: values, the effect of one message, and the class that writes in place. */
module RamRing {
  import opened Config
  import opened Cyclic
  import opened Format
  import Itoa

  /** The ring as a value. `wr == rd` means empty, so at most RING_SIZE - 1 bytes are pending. */
  datatype Ring = Ring(cells: seq<byte>, rd: nat, wr: nat, lowMemory: bool, urgent: bool) {
    ghost predicate Valid() {
      |cells| == RING_SIZE && rd < RING_SIZE && wr < RING_SIZE
    }

    /** The bytes waiting to be sent, oldest first. */
    ghost function Pending(): (s: seq<byte>)
      requires Valid()
      ensures |s| == Off(rd, wr)
    {
      Window(cells, rd, Off(rd, wr))
    }
  }

  const NO_DELIMITER: byte := 0xFF

  /** Where the string writer stops. */
  function StopAt(text: CString, delimiter: byte): (k: nat)
    ensures k <= |text|
  {
    if delimiter == NO_DELIMITER then |text| else SpanLen(text, delimiter)
  }

  /** The writer's loop test tells whether it has arrived there. */
  lemma {:induction false} StopTest(text: CString, delimiter: byte, i: nat)
    requires i <= StopAt(text, delimiter)
    ensures i < StopAt(text, delimiter) <==> i < |text| && (delimiter == NO_DELIMITER || text[i] != delimiter)
  {
  }

  lemma OneMore(out: seq<byte>, text: seq<byte>, from: nat, i: nat)
    requires from <= i < |text|
    ensures out + text[from..i] + [text[i]] == out + text[from..i + 1]
  {
  }

  /** A hex dump behind the blank that fills an odd cell. */
  lemma SplitHexFilled(toTail: nat, data: seq<byte>, out: seq<byte>, filled: seq<byte>)
    requires filled == out + if toTail % 2 == 1 then [SPACE] else []
    ensures filled + HexPairs(data) == out + SplitHex(toTail, data)
  {
  }

  const EMPTY_RING: Ring := Ring(seq(RING_SIZE, _ => 0), 0, 0, false, false)

  /** A pointer on the tail goes back to the head. */
  function OntoRing(p: nat): nat {
    if p == RING_SIZE then 0 else p
  }

  /** Free space as the code computes it, also for a pointer on the tail. */
  function Remain(rd: nat, wr: nat): int {
    if rd > wr then rd - wr else RING_SIZE - (wr - rd)
  }

  /** The length of the contiguous stretch a tick can send. */
  function ReadableLen(rd: nat, wr: nat): int {
    if wr >= rd then wr - rd else RING_SIZE - rd
  }

  function WriteEnd(wr: nat, e: Emission): (p: nat)
    requires wr < RING_SIZE && |e.bytes| <= RING_SIZE
  {
    if e.atTail then RING_SIZE else At(wr, |e.bytes|)
  }

  predicate IsLow(r: Ring) {
    MAX_MESSAGE > Remain(r.rd, r.wr)
  }

  /** The overrun test: memory was low, and the free space grew. */
  predicate OverrunTest(r: Ring, e: Emission)
    requires r.wr < RING_SIZE && |e.bytes| <= RING_SIZE
  {
    IsLow(r) && Remain(r.rd, WriteEnd(r.wr, e)) > Remain(r.rd, r.wr)
  }

  /** Where an overrun puts the mark, and where it moves the reader. */
  function Overrun(r: Ring, e: Emission): (nat, nat)
    requires r.wr < RING_SIZE && |e.bytes| <= RING_SIZE
  {
    (r.rd, WriteEnd(r.wr, e) + 1)
  }

  /** The ring after a message was written and the overrun test was made. */
  function AfterMessage(r: Ring, e: Emission): Ring
    requires |r.cells| == RING_SIZE && r.rd < RING_SIZE && r.wr < RING_SIZE && |e.bytes| <= RING_SIZE
  {
    var written := WriteAt(r.cells, r.wr, e.bytes);
    var wr := WriteEnd(r.wr, e);
    if OverrunTest(r, e) then
      Ring(written[Overrun(r, e).0 := OVERRUN_MARK], Overrun(r, e).1, wr, true, r.urgent)
    else
      Ring(written, r.rd, wr, IsLow(r), r.urgent)
  }

  lemma ClockTextAppended(out: seq<byte>, k: Clock)
    ensures out + Field(k.day, SLASH) + Field(k.month, SLASH) + Field(k.year, SPACE)
            + Field(k.hour, COLON) + Field(k.minute, COLON) + Field(k.second, SPACE)
         == out + ClockText(k)
  {
  }

  /** The receive buffer of the logger. Pointers are indices; RING_SIZE is the tail. */
  class RxBuffer {
    const buf: array<byte>
    var pRead: nat
    var pWrite: nat
    var isLowMemory: bool
    var isUrgent: bool

    constructor ()
      ensures fresh(buf) && buf.Length == RING_SIZE && State() == EMPTY_RING
    {
      buf := new byte[RING_SIZE](_ => 0);
      pRead, pWrite := 0, 0;
      isLowMemory, isUrgent := false, false;
      new;
      assert buf[..] == EMPTY_RING.cells;
    }

    ghost function State(): (r: Ring)
      reads this, buf
    {
      Ring(buf[..], pRead, pWrite, isLowMemory, isUrgent)
    }

    /** The reader is inside the ring; the writer may have been left on the tail. */
    ghost predicate InRing()
      reads this
    {
      buf.Length == RING_SIZE && pRead < RING_SIZE && pWrite <= RING_SIZE
    }

    // ---------------------------------------------------------- progress of one message

    /** `out` has been stored behind `start`. In the first segment the budget counts the cells to
        the tail, behind the wrap what is left of the whole message. */
    ghost predicate Stored(base: seq<byte>, start: nat, out: seq<byte>)
      reads this, buf
    {
      && buf.Length == |base| == RING_SIZE && start < RING_SIZE && |out| <= MAX_MESSAGE
      && buf[..] == WriteAt(base, start, out)
    }

    /** Between two directives: the pointer is inside the ring. */
    ghost predicate Settled(base: seq<byte>, start: nat, out: seq<byte>, maxSize: int)
      reads this, buf
    {
      && Stored(base, start, out) && |out| < MAX_MESSAGE
      && if |out| < Room(start) then pWrite == start + |out| && maxSize == Room(start) - |out|
         else pWrite == |out| - Room(start) && maxSize == MAX_MESSAGE - |out|
    }

    /** Stores one byte and advances the pointer, possibly onto the tail. */
    method Put(b: byte, ghost base: seq<byte>, ghost start: nat, ghost out: seq<byte>)
      requires Stored(base, start, out) && |out| < MAX_MESSAGE
      requires pWrite < RING_SIZE && pWrite == At(start, |out|)
      modifies this`pWrite, buf
      ensures Stored(base, start, out + [b]) && pWrite == old(pWrite) + 1
    {
      WriteOneMore(base, start, out, b);
      buf[pWrite] := b;
      assert buf[..] == old(buf[..])[old(pWrite) := b];
      pWrite := pWrite + 1;
    }

    /** Stores the next byte of a text of which `text[from..i]` is stored. */
    method PutNext(text: seq<byte>, from: nat, i: nat, ghost base: seq<byte>, ghost start: nat, ghost out: seq<byte>)
      requires from <= i < |text| && |out| + (i - from) < MAX_MESSAGE
      requires Stored(base, start, out + text[from..i])
      requires pWrite < RING_SIZE && pWrite == At(start, |out| + (i - from))
      modifies this`pWrite, buf
      ensures Stored(base, start, out + text[from..i + 1]) && pWrite == old(pWrite) + 1
    {
      Put(text[i], base, start, out + text[from..i]);
      OneMore(out, text, from, i);
    }

    /** Copies a block to the write pointer, as a library copy does. */
    method CopyIn(data: seq<byte>, ghost base: seq<byte>, ghost start: nat, ghost out: seq<byte>)
      requires Stored(base, start, out) && |out| + |data| <= MAX_MESSAGE
      requires pWrite + |data| <= RING_SIZE && pWrite < RING_SIZE && pWrite == At(start, |out|)
      modifies this`pWrite, buf
      ensures Stored(base, start, out + data) && pWrite == old(pWrite) + |data|
    {
      WriteTwice(base, start, out, data);
      forall i | 0 <= i < |data| {
        buf[pWrite + i] := data[i];
      }
      assert buf[..] == WriteAt(old(buf[..]), old(pWrite), data);
      pWrite := pWrite + |data|;
    }

    // ---------------------------------------------------------- the writers

    /** Copies `text[from..]` until its end, the delimiter, or the end of the budget. */
    method CopyUntil(text: CString, from: nat, delimiter: byte, maxSizeIn: nat,
                     ghost base: seq<byte>, ghost start: nat, ghost out: seq<byte>)
      returns (i: nat, maxSize: nat)
      requires from <= StopAt(text, delimiter) && |out| + (StopAt(text, delimiter) - from) < MAX_MESSAGE
      requires Stored(base, start, out) && pWrite + maxSizeIn <= RING_SIZE
      requires maxSizeIn > 0 ==> pWrite == At(start, |out|)
      modifies this`pWrite, buf
      ensures from <= i <= StopAt(text, delimiter) && (i < StopAt(text, delimiter) ==> maxSize == 0)
      ensures i - from == maxSizeIn - maxSize == pWrite - old(pWrite)
      ensures Stored(base, start, out + text[from..i])
    {
      i, maxSize := from, maxSizeIn;
      assert text[from..from] == [] && out + [] == out;
      while i < |text| && (delimiter == NO_DELIMITER || text[i] != delimiter) && maxSize != 0
        invariant from <= i <= StopAt(text, delimiter)
        invariant i - from == maxSizeIn - maxSize == pWrite - old(pWrite)
        invariant Stored(base, start, out + text[from..i])
      {
        StopTest(text, delimiter, i);
        PutNext(text, from, i, base, start, out);
        i, maxSize := i + 1, maxSize - 1;
      }
      StopTest(text, delimiter, i);
    }

    /** Copies `text` up to the delimiter or its end, across the tail of the ring. */
    method ParseAndWriteString(text: CString, maxSizeIn: nat, leftOver: byte, delimiter: byte,
                               ghost base: seq<byte>, ghost start: nat, ghost out: seq<byte>)
      returns (used: nat, maxSize: nat)
      requires Settled(base, start, out, maxSizeIn) && leftOver == MAX_MESSAGE - Room(start)
      requires |out| + StopAt(text, delimiter) < MAX_MESSAGE
      modifies this`pWrite, buf
      ensures used == StopAt(text, delimiter)
      ensures Settled(base, start, out + text[..used], maxSize)
    {
      used, maxSize := CopyUntil(text, 0, delimiter, maxSizeIn, base, start, out);
      if leftOver != 0 {
        ghost var first := used;
        assert text[0..first] == text[..first];
        if delimiter == NO_DELIMITER {
          if used < |text| {
            pWrite := 0;
            if maxSize == 0 {
              maxSize := leftOver;
            }
            used, maxSize := CopyUntil(text, used, delimiter, maxSize, base, start, out + text[..first]);
          }
        } else if used < |text| && maxSize == 0 {
          pWrite := 0;
          maxSize := leftOver;
          used, maxSize := CopyUntil(text, used, delimiter, maxSize, base, start, out + text[..first]);
        }
        assert out + text[..first] + text[first..used] == out + text[..used];
      }
      assert text[0..used] == text[..used];
      pWrite := OntoRing(pWrite);
      if maxSize == 0 {
        maxSize := leftOver;
      }
    }

    /** Stores the digits `text[from..to]`. */
    method PutDigits(text: seq<byte>, from: nat, to: nat,
                     ghost base: seq<byte>, ghost start: nat, ghost out: seq<byte>)
      requires from <= to <= |text| && |out| + (to - from) <= MAX_MESSAGE
      requires Stored(base, start, out) && pWrite + (to - from) <= RING_SIZE
      requires from < to ==> pWrite == At(start, |out|)
      modifies this`pWrite, buf
      ensures Stored(base, start, out + text[from..to]) && pWrite == old(pWrite) + (to - from)
    {
      var i := from;
      assert text[from..from] == [] && out + [] == out;
      while i < to
        invariant from <= i <= to && pWrite == old(pWrite) + (i - from)
        invariant Stored(base, start, out + text[from..i])
      {
        PutNext(text, from, i, base, start, out);
        i := i + 1;
      }
    }

    /** Stores the digits of a number, split over the tail where needed. */
    method SplitDigits(text: seq<byte>, maxSizeIn: nat, leftOver: byte,
                       ghost base: seq<byte>, ghost start: nat, ghost out: seq<byte>)
      returns (maxSize: nat)
      requires Settled(base, start, out, maxSizeIn) && leftOver == MAX_MESSAGE - Room(start)
      requires |out| + |text| < MAX_MESSAGE
      modifies this`pWrite, buf
      ensures Settled(base, start, out + text, maxSize)
    {
      var numOfDigits := |text|;
      if numOfDigits < maxSizeIn {
        assert text[0..numOfDigits] == text;
        PutDigits(text, 0, numOfDigits, base, start, out);
        maxSize := maxSizeIn - numOfDigits;
      } else {
        PutDigits(text, 0, maxSizeIn, base, start, out);
        pWrite := 0;
        ghost var head := text[0..maxSizeIn];
        var rest := Min(numOfDigits - maxSizeIn, leftOver);
        PutDigits(text, maxSizeIn, maxSizeIn + rest, base, start, out + head);
        assert out + head + text[maxSizeIn..maxSizeIn + rest] == out + text;
        maxSize := leftOver - rest;
      }
      pWrite := OntoRing(pWrite);
    }

    /** Prints a number into the ring. */
    method ParseAndWriteNumber(inputNum: int32, radix: int, maxSizeIn: nat, leftOver: byte,
                               ghost base: seq<byte>, ghost start: nat, ghost out: seq<byte>)
      returns (maxSize: nat)
      requires Settled(base, start, out, maxSizeIn) && leftOver == MAX_MESSAGE - Room(start)
      requires |out| + |Itoa.Text(inputNum, radix, 11)| < MAX_MESSAGE
      modifies this`pWrite, buf
      ensures Settled(base, start, out + Itoa.Text(inputNum, radix, 11), maxSize)
    {
      var numStr := new byte[11](_ => 0);
      var numOfDigits := Itoa.MiniItoa(inputNum, numStr, radix, 11);
      maxSize := SplitDigits(numStr[..numOfDigits], maxSizeIn, leftOver, base, start, out);
    }

    /** Prints `data[from..to]` as hex pairs. */
    method PutHexPairs(data: seq<byte>, from: nat, to: nat,
                       ghost base: seq<byte>, ghost start: nat, ghost out: seq<byte>)
      requires from <= to <= |data| && |out| + 2 * (to - from) <= MAX_MESSAGE
      requires Stored(base, start, out) && pWrite + 2 * (to - from) <= RING_SIZE
      requires from < to ==> pWrite == At(start, |out|)
      modifies this`pWrite, buf
      ensures Stored(base, start, out + HexPairs(data[from..to])) && pWrite == old(pWrite) + 2 * (to - from)
    {
      var i := from;
      assert data[from..from] == [] && out + [] == out;
      while i < to
        invariant from <= i <= to && pWrite == old(pWrite) + 2 * (i - from)
        invariant Stored(base, start, out + HexPairs(data[from..i]))
      {
        ghost var done := out + HexPairs(data[from..i]);
        var digit := data[i] / 16;
        Put(Itoa.HexDigit(digit), base, start, done);
        digit := data[i] % 16;
        Put(Itoa.HexDigit(digit), base, start, done + [Itoa.HexDigit(data[i] / 16)]);
        HexPairsOneMore(out, data, from, i);
        i := i + 1;
      }
    }

    /** The second half of a hex dump whose first `n` bytes end at the tail. */
    method WrapRawData(data: seq<byte>, n: nat, leftOver: byte,
                       ghost base: seq<byte>, ghost start: nat, ghost filled: seq<byte>)
      requires n < |data| && |filled| + 2 * |data| <= MAX_MESSAGE
      requires Stored(base, start, filled + HexPairs(data[0..n])) && pWrite == RING_SIZE
      requires |filled| + 2 * n == Room(start) && leftOver == MAX_MESSAGE - Room(start)
      modifies this`pWrite, buf
      ensures Stored(base, start, filled + HexPairs(data)) && pWrite == |filled| + 2 * |data| - Room(start)
    {
      HexPairsSplit(filled, data, n);
      pWrite := 0;
      var maxSize := Min(leftOver, 2 * (|data| - n));
      assert n + maxSize / 2 == |data| && data[n..|data|] == data[n..];
      PutHexPairs(data, n, n + maxSize / 2, base, start, filled + HexPairs(data[0..n]));
    }

    /** Hex digits come in pairs: an odd cell before the tail is filled with a blank. */
    method FillOddCell(maxSizeIn: nat, ghost base: seq<byte>, ghost start: nat, ghost out: seq<byte>)
      returns (maxSize: nat, ghost filled: seq<byte>)
      requires Stored(base, start, out) && |out| < MAX_MESSAGE
      requires maxSizeIn > 0 ==> pWrite == At(start, |out|)
      modifies this`pWrite, buf
      ensures filled == out + (if maxSizeIn % 2 == 1 then [SPACE] else []) && Stored(base, start, filled)
      ensures maxSize == maxSizeIn - maxSizeIn % 2 && pWrite == old(pWrite) + maxSizeIn % 2
    {
      maxSize, filled := maxSizeIn, out;
      assert out + [] == out;
      if maxSize % 2 == 1 {
        Put(SPACE, base, start, out);
        filled := out + [SPACE];
        maxSize := maxSize - 1;
      }
    }

    /** A hex dump that does not fit before the tail: an odd cell is filled with a blank first. */
    method SplitRawData(data: seq<byte>, maxSizeIn: nat, leftOver: byte,
                        ghost base: seq<byte>, ghost start: nat, ghost out: seq<byte>)
      requires Settled(base, start, out, maxSizeIn) && leftOver == MAX_MESSAGE - Room(start)
      requires maxSizeIn < 2 * |data| < MAX_MESSAGE - |out|
      modifies this`pWrite, buf
      ensures var split := SplitHex(Room(start) - |out|, data);
              Stored(base, start, out + split) && pWrite == |out| + |split| - Room(start)
    {
      hide HexPairs, WriteAt;
      var maxSize;
      ghost var filled;
      maxSize, filled := FillOddCell(maxSizeIn, base, start, out);
      SplitHexFilled(Room(start) - |out|, data, out, filled);
      var n := maxSize / 2;
      PutHexPairs(data, 0, n, base, start, filled);
      WrapRawData(data, n, leftOver, base, start, filled);
    }

    /** Prints a buffer as hex; splitting it uses up the budget. */
    method ParseAndWriteRawData(data: seq<byte>, maxSizeIn: nat, leftOver: byte,
                                ghost base: seq<byte>, ghost start: nat, ghost out: seq<byte>)
      returns (maxSize: nat)
      requires Settled(base, start, out, maxSizeIn) && leftOver == MAX_MESSAGE - Room(start)
      requires |out| + 2 * |data| < MAX_MESSAGE
      modifies this`pWrite, buf
      ensures var s := HexPairs(data);
              if |out| >= Room(start) || |out| + |s| < Room(start) then Settled(base, start, out + s, maxSize)
              else var split := if |out| + |s| == Room(start) then s else SplitHex(Room(start) - |out|, data);
                   Stored(base, start, out + split) && pWrite == |out| + |split| - Room(start) && maxSize == 0
    {
      if 2 * |data| <= maxSizeIn {
        assert data[0..|data|] == data;
        PutHexPairs(data, 0, |data|, base, start, out);
        maxSize := maxSizeIn - 2 * |data|;
        pWrite := OntoRing(pWrite);
      } else {
        SplitRawData(data, maxSizeIn, leftOver, base, start, out);
        maxSize := 0;
      }
    }

    /** Copies a binary buffer; a split one uses up the budget. */
    method ParseAndWriteBinBuff(data: seq<byte>, maxSizeIn: nat, leftOver: byte,
                                ghost base: seq<byte>, ghost start: nat, ghost out: seq<byte>)
      returns (maxSize: nat)
      requires Settled(base, start, out, maxSizeIn) && leftOver == MAX_MESSAGE - Room(start)
      requires |out| + |data| < MAX_MESSAGE
      modifies this`pWrite, buf
      ensures if |out| >= Room(start) || |out| + |data| < Room(start) then Settled(base, start, out + data, maxSize)
              else Stored(base, start, out + data) && pWrite == |out| + |data| - Room(start) && maxSize == 0
    {
      maxSize := maxSizeIn;
      var bufLen := |data|;
      if bufLen > MAX_MESSAGE {
        bufLen := MAX_MESSAGE;
      }
      if bufLen <= maxSize {
        CopyIn(data, base, start, out);
        maxSize := maxSize - bufLen;
        pWrite := OntoRing(pWrite);
      } else {
        var first := data[..maxSize];
        CopyIn(first, base, start, out);
        if pWrite == RING_SIZE {
          pWrite := 0;
          var rest := data[maxSize..];
          maxSize := Min(bufLen - maxSize, leftOver);
          if maxSize != 0 {
            CopyIn(rest[..maxSize], base, start, out + first);
            assert rest[..maxSize] == rest;
            assert out + first + rest == out + data;
          }
        }
        maxSize := 0;
      }
    }

    /** Stores one byte and moves on to the head when the budget of the segment is used up. */
    method PutWrapping(b: byte, maxSizeIn: nat, leftOver: byte,
                       ghost base: seq<byte>, ghost start: nat, ghost out: seq<byte>)
      returns (maxSize: nat)
      requires Settled(base, start, out, maxSizeIn) && leftOver == MAX_MESSAGE - Room(start)
      requires |out| + 1 < MAX_MESSAGE
      modifies this`pWrite, buf
      ensures Settled(base, start, out + [b], maxSize)
    {
      Put(b, base, start, out);
      maxSize := maxSizeIn - 1;
      if maxSize == 0 {
        pWrite := 0;
        maxSize := leftOver;
      }
    }

    method DateAndTimeWrite2digits(num: TwoDigits, separator: byte, maxSizeIn: nat, leftOver: byte,
                                   ghost base: seq<byte>, ghost start: nat, ghost out: seq<byte>)
      returns (maxSize: nat)
      requires Settled(base, start, out, maxSizeIn) && leftOver == MAX_MESSAGE - Room(start)
      requires |out| + 3 < MAX_MESSAGE
      modifies this`pWrite, buf
      ensures Settled(base, start, out + Field(num, separator), maxSize)
    {
      maxSize := PutWrapping(num.tens, maxSizeIn, leftOver, base, start, out);
      maxSize := PutWrapping(num.ones, maxSize, leftOver, base, start, out + [num.tens]);
      maxSize := PutWrapping(separator, maxSize, leftOver, base, start, out + [num.tens] + [num.ones]);
      assert out + [num.tens] + [num.ones] + [separator] == out + Field(num, separator);
    }

    method WriteTimeAndDate(k: Clock, maxSizeIn: nat, leftOver: byte,
                            ghost base: seq<byte>, ghost start: nat, ghost out: seq<byte>)
      returns (maxSize: nat)
      requires Settled(base, start, out, maxSizeIn) && leftOver == MAX_MESSAGE - Room(start)
      requires |out| + 18 < MAX_MESSAGE
      modifies this`pWrite, buf
      ensures Settled(base, start, out + ClockText(k), maxSize)
    {
      maxSize := maxSizeIn;
      if maxSize + leftOver < 18 {
        return;
      }
      maxSize := DateAndTimeWrite2digits(k.day, SLASH, maxSize, leftOver, base, start, out);
      ghost var text := out + Field(k.day, SLASH);
      maxSize := DateAndTimeWrite2digits(k.month, SLASH, maxSize, leftOver, base, start, text);
      text := text + Field(k.month, SLASH);
      maxSize := DateAndTimeWrite2digits(k.year, SPACE, maxSize, leftOver, base, start, text);
      text := text + Field(k.year, SPACE);
      maxSize := DateAndTimeWrite2digits(k.hour, COLON, maxSize, leftOver, base, start, text);
      text := text + Field(k.hour, COLON);
      maxSize := DateAndTimeWrite2digits(k.minute, COLON, maxSize, leftOver, base, start, text);
      text := text + Field(k.minute, COLON);
      maxSize := DateAndTimeWrite2digits(k.second, SPACE, maxSize, leftOver, base, start, text);
      ClockTextAppended(out, k);
    }

    /** The directives whose output survives the wrap. */
    method WriteTextDirective(directive: byte, arg: Arg, clock: Clock, maxSizeIn: nat, leftOver: byte,
                              ghost base: seq<byte>, ghost start: nat, ghost out: seq<byte>)
      returns (maxSize: nat)
      requires directive in [CH_S, CH_D, CH_I, CH_P, CH_X, CH_T]
      requires TakesArg(directive) ==> Suits(directive, arg)
      requires Settled(base, start, out, maxSizeIn) && leftOver == MAX_MESSAGE - Room(start)
      requires |out| + |PieceText(PieceFor(directive, arg, clock))| < MAX_MESSAGE
      modifies this`pWrite, buf
      ensures Settled(base, start, out + PieceText(PieceFor(directive, arg, clock)), maxSize)
    {
      if directive == CH_S {
        var _, m := ParseAndWriteString(arg.text, maxSizeIn, leftOver, NO_DELIMITER, base, start, out);
        assert arg.text[..|arg.text|] == arg.text;
        maxSize := m;
      } else if directive == CH_D || directive == CH_I {
        maxSize := ParseAndWriteNumber(arg.n, 10, maxSizeIn, leftOver, base, start, out);
      } else if directive == CH_P || directive == CH_X {
        maxSize := ParseAndWriteNumber(arg.n, 16, maxSizeIn, leftOver, base, start, out);
      } else {
        maxSize := WriteTimeAndDate(clock, maxSizeIn, leftOver, base, start, out);
      }
    }

    /** A directive the parser does not know is copied, if two cells are left before the tail. */
    method WriteUnknown(directive: byte, maxSizeIn: nat, ghost base: seq<byte>, ghost start: nat, ghost out: seq<byte>)
      returns (maxSize: nat)
      requires Settled(base, start, out, maxSizeIn) && |out| + 2 < MAX_MESSAGE
      modifies this`pWrite, buf
      ensures maxSizeIn < 2 ==> Settled(base, start, out + [], maxSize)
      ensures maxSizeIn >= 2 ==> maxSize == maxSizeIn - 2 && Stored(base, start, out + [PERCENT, directive])
                                 && pWrite == old(pWrite) + 2
    {
      assert out + [] == out;
      maxSize := maxSizeIn;
      if maxSize >= 2 {
        Put(PERCENT, base, start, out);
        Put(directive, base, start, out + [PERCENT]);
        assert out + [PERCENT] + [directive] == out + [PERCENT, directive];
        maxSize := maxSize - 2;
      }
    }

    /** `p` has been put out behind `out`: the budgets go on adding up, or the piece has used them up. */
    ghost predicate PutOut(base: seq<byte>, start: nat, out: seq<byte>, p: Piece, maxSize: nat)
      requires start < RING_SIZE
      reads this, buf
    {
      var e := Emit(Room(start), |out|, [p]);
      if Ends(Room(start), |out|, p) then
        maxSize == 0 && Stored(base, start, out + e.bytes)
        && pWrite == if e.atTail then RING_SIZE else |out + e.bytes| - Room(start)
      else
        Settled(base, start, out + e.bytes, maxSize)
    }

    method WriteChar(c: byte, maxSizeIn: nat, ghost base: seq<byte>, ghost start: nat, ghost out: seq<byte>)
      returns (maxSize: nat)
      requires Settled(base, start, out, maxSizeIn) && |out| + 1 < MAX_MESSAGE
      modifies this`pWrite, buf
      ensures PutOut(base, start, out, Char(c), maxSize)
    {
      EmitOne(Room(start), |out|, Char(c));
      Put(c, base, start, out);
      maxSize := maxSizeIn - 1;
    }

    method WriteRaw(data: seq<byte>, maxSizeIn: nat, leftOver: byte,
                    ghost base: seq<byte>, ghost start: nat, ghost out: seq<byte>)
      returns (maxSize: nat)
      requires Settled(base, start, out, maxSizeIn) && leftOver == MAX_MESSAGE - Room(start)
      requires |out| + 2 * |data| < MAX_MESSAGE
      modifies this`pWrite, buf
      ensures PutOut(base, start, out, Raw(data), maxSize)
    {
      hide Emit, Ends, HexPairs, SplitHex, WriteAt;
      EmitRaw(Room(start), |out|, data);
      maxSize := ParseAndWriteRawData(data, maxSizeIn, leftOver, base, start, out);
    }

    method WriteBin(data: seq<byte>, maxSizeIn: nat, leftOver: byte,
                    ghost base: seq<byte>, ghost start: nat, ghost out: seq<byte>)
      returns (maxSize: nat)
      requires Settled(base, start, out, maxSizeIn) && leftOver == MAX_MESSAGE - Room(start)
      requires |out| + |data| < MAX_MESSAGE
      modifies this`pWrite, buf
      ensures PutOut(base, start, out, Bin(data), maxSize)
    {
      hide Emit, WriteAt;
      EmitOne(Room(start), |out|, Bin(data));
      maxSize := ParseAndWriteBinBuff(data, maxSizeIn, leftOver, base, start, out);
    }

    /** One directive of the format, the `switch` of the parser. `arg` is used only when the directive takes one. */
    method WriteDirective(directive: byte, arg: Arg, clock: Clock, maxSizeIn: nat, leftOver: byte,
                          ghost base: seq<byte>, ghost start: nat, ghost out: seq<byte>)
      returns (maxSize: nat)
      requires TakesArg(directive) ==> Suits(directive, arg)
      requires Settled(base, start, out, maxSizeIn) && leftOver == MAX_MESSAGE - Room(start)
      requires |out| + |PieceText(PieceFor(directive, arg, clock))| < MAX_MESSAGE
      modifies this`pWrite, buf
      ensures PutOut(base, start, out, PieceFor(directive, arg, clock), maxSize)
    {
      EmitOne(Room(start), |out|, PieceFor(directive, arg, clock));
      if directive == CH_C {
        maxSize := WriteChar(LowByte(arg.n), maxSizeIn, base, start, out);
      } else if directive == CH_R {
        maxSize := WriteRaw(arg.data, maxSizeIn, leftOver, base, start, out);
      } else if directive == CH_B {
        maxSize := WriteBin(arg.data, maxSizeIn, leftOver, base, start, out);
      } else if directive in [CH_S, CH_D, CH_I, CH_P, CH_X, CH_T] {
        maxSize := WriteTextDirective(directive, arg, clock, maxSizeIn, leftOver, base, start, out);
      } else {
        maxSize := WriteUnknown(directive, maxSizeIn, base, start, out);
      }
    }

    /** One round of the parser's loop behind the literal text: the directive and what follows it. */
    method WriteNext(directive: byte, arg: Arg, clock: Clock, maxSizeIn: nat, leftOver: byte,
                     ghost base: seq<byte>, ghost start: nat, ghost out: seq<byte>, ghost ps: seq<Piece>,
                     ghost goal: Emission)
      returns (maxSize: nat, ghost now: seq<byte>)
      requires TakesArg(directive) ==> Suits(directive, arg)
      requires Settled(base, start, out, maxSizeIn) && leftOver == MAX_MESSAGE - Room(start)
      requires |out| + |PieceText(PieceFor(directive, arg, clock))| + |Render(ps)| < MAX_MESSAGE
      requires goal == Prepend(out, Emit(Room(start), |out|, [PieceFor(directive, arg, clock)] + ps))
      modifies this`pWrite, buf
      ensures Continues(base, start, now, maxSize, ps, goal)
    {
      hide Emit, Render, PieceText, PieceFor;
      ghost var p := PieceFor(directive, arg, clock);
      ghost var e := Emit(Room(start), |out|, [p]);
      maxSize := WriteDirective(directive, arg, clock, maxSizeIn, leftOver, base, start, out);
      now := out + e.bytes;
      EmitOne(Room(start), |out|, p);
      EmitNext(Room(start), |out|, p, ps);
      PrependTwice(out, e.bytes, Emit(Room(start), |now|, ps));
    }

    /** Either `out` is stored and the pieces `ps` are still to come, `goal` being the whole
        message; or the budget is gone and `goal` is stored. */
    ghost predicate Continues(base: seq<byte>, start: nat, out: seq<byte>, maxSize: nat, ps: seq<Piece>, goal: Emission)
      reads this, buf
    {
      if maxSize > 0 then
        && Settled(base, start, out, maxSize) && |out| + |Render(ps)| < MAX_MESSAGE
        && goal == Prepend(out, Emit(Room(start), |out|, ps))
      else
        Stored(base, start, goal.bytes) && pWrite == WriteEnd(start, goal)
    }

    /** One round of the parser's loop: the literal text, which ends at a percent sign or with the
        format, and the directive behind it. `p` is the piece of the directive, `rest` what follows. */
    method WriteRound(fmt: CString, args: seq<Arg>, clock: Clock, maxSizeIn: nat, leftOver: byte,
                      ghost base: seq<byte>, ghost start: nat, ghost out: seq<byte>,
                      ghost p: Piece, ghost rest: seq<Piece>, ghost goal: Emission)
      returns (used: nat, ap: seq<Arg>, maxSize: nat, ghost now: seq<byte>)
      requires Settled(base, start, out, maxSizeIn) && leftOver == MAX_MESSAGE - Room(start)
      requires RoundToGo(Room(start), out, fmt, args, clock, p, rest, goal)
      modifies this`pWrite, buf
      ensures used == LiteralLen(fmt) && (HasDirective(fmt) ==> ap == ArgsAfter(DirectiveOf(fmt), args))
      ensures if HasDirective(fmt) then Continues(base, start, now, maxSize, rest, goal)
              else Stored(base, start, goal.bytes) && pWrite == WriteEnd(start, goal)
    {
      used, maxSize := ParseAndWriteString(fmt, maxSizeIn, leftOver, PERCENT, base, start, out);
      now, ap := out + fmt[..used], args;
      if used + 1 < |fmt| {
        var directive := fmt[used + 1];
        ap := ArgsAfter(directive, args);
        maxSize, now := WriteNext(directive, ArgFor(directive, args), clock, maxSize, leftOver, base, start, now, rest,
                                  goal);
      }
    }

    /** The parser's loop over the format. */
    method WriteMessage(fmt: CString, args: seq<Arg>, clock: Clock, maxSizeIn: nat, leftOver: byte,
                        ghost base: seq<byte>, ghost start: nat)
      requires Settled(base, start, [], maxSizeIn) && leftOver == MAX_MESSAGE - Room(start)
      requires Matches(fmt, args) && |Render(Pieces(fmt, args, clock))| < MAX_MESSAGE
      modifies this`pWrite, buf
      ensures var e := Emit(Room(start), 0, Pieces(fmt, args, clock));
              Stored(base, start, e.bytes) && pWrite == WriteEnd(start, e)
    {
      hide Emit, Render, Pieces, Matches;
      ghost var goal := Emit(Room(start), 0, Pieces(fmt, args, clock));
      ghost var out: seq<byte> := [];
      var rest, ap, maxSize := fmt, args, maxSizeIn;
      assert Prepend([], goal) == goal;
      while rest != [] && maxSize > 0
        invariant Matches(rest, ap)
        invariant Continues(base, start, out, maxSize, Pieces(rest, ap, clock), goal)
        decreases |rest|
      {
        ghost var p, later := RoundStarts(Room(start), out, rest, ap, clock, goal);
        var used;
        used, ap, maxSize, out := WriteRound(rest, ap, clock, maxSize, leftOver, base, start, out, p, later, goal);
        if used + 1 >= |rest| {
          return;
        }
        rest := rest[used + 2..];
      }
      if maxSize > 0 {
        NothingToCome(Room(start), out, ap, clock, goal);
      }
    }

    /** The overrun check behind a message: marks the old read position and moves the reader behind the writer. */
    method CheckOverrun(remain: int, ghost was: Ring, ghost e: Emission)
      requires |was.cells| == RING_SIZE && was.rd < RING_SIZE && was.wr < RING_SIZE && |e.bytes| <= RING_SIZE
      requires Stored(was.cells, was.wr, e.bytes)
      requires pRead == was.rd && pWrite == WriteEnd(was.wr, e) && isUrgent == was.urgent
      requires remain == Remain(was.rd, was.wr) && isLowMemory == IsLow(was)
      modifies this`pRead, buf
      ensures State() == AfterMessage(was, e)
    {
      if isLowMemory {
        var newRemain := Remain(pRead, pWrite);
        if newRemain > remain {
          buf[pRead] := OVERRUN_MARK;
          pRead := pWrite + 1;
        }
      }
    }

    /** Parses a message into the ring and checks for an overrun. A writer on the tail has no budget: the
        message is dropped. */
    method ParseAndWriteRxMessage(fmt: CString, args: seq<Arg>, clock: Clock) returns (len: nat)
      requires InRing()
      requires Matches(fmt, args) && |Render(Pieces(fmt, args, clock))| < MAX_MESSAGE
      modifies this, buf
      ensures old(pWrite) == RING_SIZE ==> len == 0 && State() == old(State()).(lowMemory := IsLow(old(State())))
      ensures old(pWrite) < RING_SIZE ==>
                && len == |Emit(Room(old(pWrite)), 0, Pieces(fmt, args, clock)).bytes| <= MAX_MESSAGE
                && State() == AfterMessage(old(State()), Emit(Room(old(pWrite)), 0, Pieces(fmt, args, clock)))
    {
      var base := pWrite;
      var maxSize := Min(MAX_MESSAGE, RING_SIZE - pWrite);
      var remain := Remain(pRead, pWrite);
      isLowMemory := MAX_MESSAGE > remain;
      if maxSize <= 0 {
        return 0;
      }
      var leftOver := MAX_MESSAGE - maxSize;
      len := WriteAndCheck(fmt, args, clock, base, maxSize, leftOver, remain);
    }

    /** The message with some budget: parsing, the length, and the overrun test. */
    method WriteAndCheck(fmt: CString, args: seq<Arg>, clock: Clock, base: nat, maxSize: nat, leftOver: byte,
                         remain: int)
      returns (len: nat)
      requires InRing() && base == pWrite < RING_SIZE && maxSize == Room(base) && leftOver == MAX_MESSAGE - maxSize
      requires remain == Remain(pRead, pWrite) && isLowMemory == IsLow(State())
      requires Matches(fmt, args) && |Render(Pieces(fmt, args, clock))| < MAX_MESSAGE
      modifies this`pRead, this`pWrite, buf
      ensures len == |Emit(Room(base), 0, Pieces(fmt, args, clock)).bytes| <= MAX_MESSAGE
      ensures State() == AfterMessage(old(State()), Emit(Room(base), 0, Pieces(fmt, args, clock)))
    {
      ghost var e := Emit(Room(pWrite), 0, Pieces(fmt, args, clock));
      ghost var was := State();
      EmitLength(Room(pWrite), 0, Pieces(fmt, args, clock));
      if e.atTail {
        EmitAtTail(Room(pWrite), 0, Pieces(fmt, args, clock));
      }
      WriteNothing(buf[..], pWrite);
      WriteMessage(fmt, args, clock, maxSize, leftOver, was.cells, base);
      len := if pWrite < base then RING_SIZE + pWrite - base else pWrite - base;
      CheckOverrun(remain, was, e);
    }
  }
}
