/** What each directive of a format prints, told from the format alone, and what becomes of the fragile
    ones at the tail of the ring. The characters are written out as their ASCII codes. */
module Directives {
  import opened Config
  import opened Sequences
  import opened Format
  import Itoa

  /** `literal` text, a directive, and the rest of the format. */
  function With(literal: CString, directive: byte, rest: CString): (fmt: CString)
    requires directive != 0
  {
    literal + [PERCENT, directive] + rest
  }

  lemma {:induction false} FirstDirective(literal: CString, directive: byte, rest: CString)
    requires PERCENT !in literal && directive != 0
    ensures var fmt := With(literal, directive, rest);
            && LiteralLen(fmt) == |literal| && fmt[..|literal|] == literal
            && HasDirective(fmt) && DirectiveOf(fmt) == directive && FormatAfter(fmt) == rest
  {
    var fmt := With(literal, directive, rest);
    assert fmt[|literal|] == PERCENT && forall i :: 0 <= i < |literal| ==> fmt[i] == literal[i];
    assert LiteralLen(fmt) == |literal|;
  }

  /** The message is the literal text, what the directive prints, and the rest with the arguments left. */
  lemma {:induction false} Splits(literal: CString, directive: byte, rest: CString, args: seq<Arg>, more: seq<Arg>,
                                  clock: Clock)
    returns (text: seq<byte>)
    requires PERCENT !in literal && directive != 0 && Matches(rest, more)
    requires if TakesArg(directive) then |args| > 0 && args[1..] == more && Suits(directive, args[0]) else args == more
    ensures Matches(With(literal, directive, rest), args)
    ensures Render(Pieces(With(literal, directive, rest), args, clock))
         == literal + text + Render(Pieces(rest, more, clock))
    ensures text == PieceText(PieceFor(directive, ArgFor(directive, args), clock))
  {
    var fmt := With(literal, directive, rest);
    FirstDirective(literal, directive, rest);
    assert Matches(fmt, args);
    PiecesStep(fmt, args, clock);
    text := PieceText(PieceFor(directive, ArgFor(directive, args), clock));
    RenderTwo(literal, PieceFor(directive, ArgFor(directive, args), clock), Pieces(rest, more, clock));
  }

  lemma {:induction false} RenderTwo(literal: seq<byte>, p: Piece, rest: seq<Piece>)
    ensures Render([Text(literal), p] + rest) == literal + PieceText(p) + Render(rest)
  {
    var ps := [Text(literal), p] + rest;
    assert ps[1..] == [p] + rest && ps[1..][1..] == rest;
  }

  /** Text without a directive, also in front of a last percent sign, is printed as it is. */
  lemma {:induction false} PrintsLiteral(literal: CString, args: seq<Arg>, clock: Clock)
    requires PERCENT !in literal
    ensures Matches(literal, args) && Render(Pieces(literal, args, clock)) == literal
    ensures Matches(literal + [PERCENT], args) && Render(Pieces(literal + [PERCENT], args, clock)) == literal
  {
    var fmt: CString := literal + [PERCENT];
    assert LiteralLen(literal) == |literal| && literal[..|literal|] == literal;
    assert fmt[|literal|] == PERCENT && forall i :: 0 <= i < |literal| ==> fmt[i] == literal[i];
    assert LiteralLen(fmt) == |literal| && fmt[..|literal|] == literal;
    EmitLiteral(1, 0, literal);
  }

  /** `%d` and `%i`: a decimal reader finds the number, without leading zeros, if it is not negative;
      a negative one has lost its last digit, and the most negative int is no number at all. */
  lemma PrintsDecimal(literal: CString, directive: byte, rest: CString, n: int32, more: seq<Arg>, clock: Clock)
    returns (text: seq<byte>)
    requires PERCENT !in literal && directive in [100, 105] && Matches(rest, more)
    ensures Matches(With(literal, directive, rest), [Num(n)] + more)
    ensures Render(Pieces(With(literal, directive, rest), [Num(n)] + more, clock))
         == literal + text + Render(Pieces(rest, more, clock))
    ensures n >= 0 ==> Itoa.ReadSigned(text) == Itoa.Number(n) && (|text| > 1 ==> text[0] != 48)
    ensures -0x8000_0000 < n < 0 ==> Itoa.ReadSigned(text) == Itoa.Number(-((-n) / 10))
    ensures n == -0x8000_0000 ==> Itoa.ReadSigned(text) == Itoa.NotANumber
  {
    hide Pieces, Matches, With, Render;
    text := Splits(literal, directive, rest, [Num(n)] + more, more, clock);
    if n >= 0 {
      Itoa.DecRoundTrip(n);
    } else if n == -0x8000_0000 {
      Itoa.MostNegativeIsNoNumber();
    } else {
      Itoa.NegativeLosesLastDigit(n);
    }
  }

  /** `%x` and `%p`: a hexadecimal reader finds the unsigned value, in at least two digits. */
  lemma PrintsHexadecimal(literal: CString, directive: byte, rest: CString, n: int32, more: seq<Arg>, clock: Clock)
    returns (text: seq<byte>)
    requires PERCENT !in literal && directive in [120, 112] && Matches(rest, more)
    ensures Matches(With(literal, directive, rest), [Num(n)] + more)
    ensures Render(Pieces(With(literal, directive, rest), [Num(n)] + more, clock))
         == literal + text + Render(Pieces(rest, more, clock))
    ensures Itoa.ParseHex(text) == (if n < 0 then n + 0x1_0000_0000 else n)
    ensures 2 <= |text| <= 8 && (|text| > 2 ==> text[0] != 48)
  {
    hide Pieces, Matches, With, Render;
    text := Splits(literal, directive, rest, [Num(n)] + more, more, clock);
    Itoa.HexRoundTrip(n);
  }

  /** `%s`: the bytes of the string. */
  lemma PrintsString(literal: CString, rest: CString, s: CString, more: seq<Arg>, clock: Clock)
    requires PERCENT !in literal && Matches(rest, more)
    ensures Matches(With(literal, 115, rest), [Str(s)] + more)
    ensures Render(Pieces(With(literal, 115, rest), [Str(s)] + more, clock))
         == literal + s + Render(Pieces(rest, more, clock))
  {
    hide Pieces, Matches, With, Render;
    var _ := Splits(literal, 115, rest, [Str(s)] + more, more, clock);
  }

  /** `%c`: the low byte of the argument. */
  lemma PrintsChar(literal: CString, rest: CString, n: int32, more: seq<Arg>, clock: Clock)
    requires PERCENT !in literal && Matches(rest, more)
    ensures Matches(With(literal, 99, rest), [Num(n)] + more)
    ensures Render(Pieces(With(literal, 99, rest), [Num(n)] + more, clock))
         == literal + [n % 256] + Render(Pieces(rest, more, clock))
  {
    hide Pieces, Matches, With, Render;
    var _ := Splits(literal, 99, rest, [Num(n)] + more, more, clock);
  }

  /** `%T`: DD/MM/YY HH:MM:SS and a blank. */
  lemma PrintsClock(literal: CString, rest: CString, args: seq<Arg>, k: Clock) returns (text: seq<byte>)
    requires PERCENT !in literal && Matches(rest, args)
    ensures Matches(With(literal, 84, rest), args)
    ensures Render(Pieces(With(literal, 84, rest), args, k)) == literal + text + Render(Pieces(rest, args, k))
    ensures |text| == 18 && text[2] == text[5] == 47 && text[8] == text[17] == 32 && text[11] == text[14] == 58
    ensures text[0] == k.day.tens && text[1] == k.day.ones && text[3] == k.month.tens && text[4] == k.month.ones
    ensures text[6] == k.year.tens && text[7] == k.year.ones && text[9] == k.hour.tens && text[10] == k.hour.ones
    ensures text[12] == k.minute.tens && text[13] == k.minute.ones
    ensures text[15] == k.second.tens && text[16] == k.second.ones
  {
    hide Pieces, Matches, With, Render;
    text := Splits(literal, 84, rest, args, args, k);
  }

  /** `%r`: two hexadecimal digits for each byte of the buffer. */
  lemma PrintsRaw(literal: CString, rest: CString, data: seq<byte>, more: seq<Arg>, clock: Clock)
    returns (text: seq<byte>)
    requires PERCENT !in literal && Matches(rest, more) && |data| < 256
    ensures Matches(With(literal, 114, rest), [Buffer(data)] + more)
    ensures Render(Pieces(With(literal, 114, rest), [Buffer(data)] + more, clock))
         == literal + text + Render(Pieces(rest, more, clock))
    ensures |text| == 2 * |data|
    ensures forall i :: 0 <= i < |data| ==> Itoa.ParseHex(text[2 * i..2 * i + 2]) == data[i]
  {
    hide Pieces, Matches, With, Render;
    text := Splits(literal, 114, rest, [Buffer(data)] + more, more, clock);
    PairsReadBack(data);
  }

  lemma {:induction false} PairReadsBack(data: seq<byte>, i: nat)
    requires i < |data|
    ensures Itoa.ParseHex(HexPairs(data)[2 * i..2 * i + 2]) == data[i]
    decreases |data|
  {
    if i < |data| - 1 {
      PairReadsBack(data[..|data| - 1], i);
      assert HexPairs(data)[2 * i..2 * i + 2] == HexPairs(data[..|data| - 1])[2 * i..2 * i + 2];
    } else {
      assert HexPairs(data)[2 * i..2 * i + 2] == HexPair(data[i]);
      HexPairReadsBack(data[i]);
    }
  }

  lemma {:induction false} HexPairReadsBack(b: byte)
    ensures Itoa.ParseHex(HexPair(b)) == b
  {
    var pair := HexPair(b);
    assert pair[..1] == [Itoa.HexDigit(b / 16)] && pair[..1][..0] == [];
    assert Itoa.ParseHex(pair[..1]) == b / 16;
  }

  /** `%b`: the bytes of the buffer, at most a message. */
  lemma PrintsBinary(literal: CString, rest: CString, data: seq<byte>, more: seq<Arg>, clock: Clock)
    requires PERCENT !in literal && Matches(rest, more) && |data| < 0x8000
    ensures Matches(With(literal, 98, rest), [Buffer(data)] + more)
    ensures Render(Pieces(With(literal, 98, rest), [Buffer(data)] + more, clock))
         == literal + data[..Min(|data|, MAX_MESSAGE)] + Render(Pieces(rest, more, clock))
  {
    hide Pieces, Matches, With, Render;
    var _ := Splits(literal, 98, rest, [Buffer(data)] + more, more, clock);
    if |data| <= MAX_MESSAGE {
      assert data[..|data|] == data;
    }
  }

  /** Any other character behind a percent sign is printed together with it, and takes no argument. */
  lemma PrintsUnknown(literal: CString, c: byte, rest: CString, args: seq<Arg>, clock: Clock)
    requires PERCENT !in literal && Matches(rest, args) && c != 0
    requires c !in [115, 100, 105, 112, 120, 99, 114, 98, 84]
    ensures Matches(With(literal, c, rest), args)
    ensures Render(Pieces(With(literal, c, rest), args, clock)) == literal + [37, c] + Render(Pieces(rest, args, clock))
  {
    hide Pieces, Matches, With, Render;
    var _ := Splits(literal, c, rest, args, args, clock);
  }

  // ------------------------------------------------------------ at the tail of the ring

  /** What reaches the ring of a message whose first directive is a fragile one. */
  lemma {:induction false} EmitFirst(room: nat, literal: CString, directive: byte, rest: CString, args: seq<Arg>,
                                     more: seq<Arg>, clock: Clock)
    returns (p: Piece)
    requires PERCENT !in literal && directive != 0 && Matches(rest, more)
    requires if TakesArg(directive) then |args| > 0 && args[1..] == more && Suits(directive, args[0]) else args == more
    ensures Matches(With(literal, directive, rest), args) && p == PieceFor(directive, ArgFor(directive, args), clock)
    ensures Emit(room, 0, Pieces(With(literal, directive, rest), args, clock))
         == Prepend(literal, Emit(room, |literal|, [p] + Pieces(rest, more, clock)))
  {
    var fmt := With(literal, directive, rest);
    FirstDirective(literal, directive, rest);
    assert Matches(fmt, args);
    PiecesStep(fmt, args, clock);
    p := PieceFor(directive, ArgFor(directive, args), clock);
    EmitLiteralFirst(room, 0, literal, p, Pieces(rest, more, clock));
  }

  /** `%c` on the last cell: the message ends there, and the write pointer is left on the tail. */
  lemma CharOnTail(room: nat, literal: CString, rest: CString, n: int32, more: seq<Arg>, clock: Clock)
    requires PERCENT !in literal && Matches(rest, more) && |literal| + 1 == room
    ensures Matches(With(literal, 99, rest), [Num(n)] + more)
    ensures Emit(room, 0, Pieces(With(literal, 99, rest), [Num(n)] + more, clock))
         == Emission(literal + [n % 256], true)
  {
    var p := EmitFirst(room, literal, 99, rest, [Num(n)] + more, more, clock);
    EmitNext(room, |literal|, p, Pieces(rest, more, clock));
    EmitOne(room, |literal|, p);
  }

  /** An unknown escape on the last two cells: the same. */
  lemma EscapeOnTail(room: nat, literal: CString, c: byte, rest: CString, args: seq<Arg>, clock: Clock)
    requires PERCENT !in literal && Matches(rest, args) && c != 0 && |literal| + 2 == room
    requires c !in [115, 100, 105, 112, 120, 99, 114, 98, 84]
    ensures Matches(With(literal, c, rest), args)
    ensures Emit(room, 0, Pieces(With(literal, c, rest), args, clock)) == Emission(literal + [37, c], true)
  {
    var p := EmitFirst(room, literal, c, rest, args, args, clock);
    EmitNext(room, |literal|, p, Pieces(rest, args, clock));
    EmitOne(room, |literal|, p);
  }

  /** Text in front of a format moves its first directive, and nothing else. */
  lemma {:induction false} Glued(literal: CString, rest: CString)
    requires PERCENT !in literal
    ensures var fmt: CString, k := literal + rest, LiteralLen(rest);
            && LiteralLen(fmt) == |literal| + k && fmt[..|literal| + k] == literal + rest[..k]
            && (HasDirective(fmt) <==> HasDirective(rest))
            && (HasDirective(rest) ==> DirectiveOf(fmt) == DirectiveOf(rest) && FormatAfter(fmt) == FormatAfter(rest))
  {
    hide SpanLen;
    var fmt: CString, k := literal + rest, LiteralLen(rest);
    assert forall i :: 0 <= i < |literal| ==> fmt[i] == literal[i];
    assert forall i :: 0 <= i < |rest| ==> fmt[|literal| + i] == rest[i];
    assert forall i :: 0 <= i < |literal| + k ==> fmt[i] != PERCENT;
    assert LiteralLen(fmt) == |literal| + k;
  }

  /** The pieces of a format, by its first directive. */
  lemma {:induction false} FirstPieces(fmt: CString, args: seq<Arg>, clock: Clock, tail: seq<Piece>)
    requires Matches(fmt, args)
    requires HasDirective(fmt) ==> tail == [FirstPiece(fmt, args, clock)] + LaterPieces(fmt, args, clock)
    requires !HasDirective(fmt) ==> tail == []
    ensures Pieces(fmt, args, clock) == [Text(fmt[..LiteralLen(fmt)])] + tail
  {
    if HasDirective(fmt) {
      PiecesStep(fmt, args, clock);
    }
  }

  lemma {:induction false} GluedMatches(literal: CString, rest: CString, args: seq<Arg>)
    requires PERCENT !in literal && Matches(rest, args)
    ensures Matches(literal + rest, args)
  {
    Glued(literal, rest);
    if HasDirective(rest) {
      MatchesStep(rest, args);
    }
  }

  /** A format begins with its text. */
  lemma LiteralGlued(literal: CString, rest: CString, args: seq<Arg>, clock: Clock)
    returns (text: seq<byte>, tail: seq<Piece>)
    requires PERCENT !in literal && Matches(rest, args)
    ensures Matches(literal + rest, args) && Pieces(rest, args, clock) == [Text(text)] + tail
    ensures Pieces(literal + rest, args, clock) == [Text(literal + text)] + tail
  {
    hide Pieces, Matches, SpanLen;
    Glued(literal, rest);
    GluedMatches(literal, rest, args);
    text := rest[..LiteralLen(rest)];
    tail := if HasDirective(rest) then [FirstPiece(rest, args, clock)] + LaterPieces(rest, args, clock) else [];
    FirstPieces(rest, args, clock, tail);
    FirstPieces(literal + rest, args, clock, tail);
  }

  /** The writer's side of it. */
  lemma EscapeSkipped(room: nat, literal: seq<byte>, c: byte, text: seq<byte>, tail: seq<Piece>)
    requires |literal| + 1 == room
    ensures Prepend(literal, Emit(room, |literal|, [Escape(c)] + ([Text(text)] + tail)))
         == Emit(room, 0, [Text(literal + text)] + tail)
  {
    hide Emit;
    var later := Emit(room, |literal|, [Text(text)] + tail);
    EmitNext(room, |literal|, Escape(c), [Text(text)] + tail);
    EmitOne(room, |literal|, Escape(c));
    assert Prepend([], later) == later;
    EmitText(room, |literal|, text, tail);
    EmitText(room, 0, literal + text, tail);
    PrependTwice(literal, text, Emit(room, |literal| + |text|, tail));
  }

  /** An unknown escape with one cell left: the message is written as if it were not there. */
  lemma EscapeDropped(room: nat, literal: CString, c: byte, rest: CString, args: seq<Arg>, clock: Clock)
    requires PERCENT !in literal && Matches(rest, args) && c != 0 && |literal| + 1 == room
    requires c !in [115, 100, 105, 112, 120, 99, 114, 98, 84]
    ensures Matches(With(literal, c, rest), args) && Matches(literal + rest, args)
    ensures Emit(room, 0, Pieces(With(literal, c, rest), args, clock))
         == Emit(room, 0, Pieces(literal + rest, args, clock))
  {
    hide Emit, Pieces, Matches, With;
    var p := EmitFirst(room, literal, c, rest, args, args, clock);
    var text, tail := LiteralGlued(literal, rest, args, clock);
    EscapeSkipped(room, literal, c, text, tail);
  }

  lemma {:induction false} EmitText(room: nat, t: nat, text: seq<byte>, tail: seq<Piece>)
    ensures Emit(room, t, [Text(text)] + tail) == Prepend(text, Emit(room, t + |text|, tail))
  {
    assert ([Text(text)] + tail)[1..] == tail;
  }

  /** `%b` that reaches the tail: the buffer is written across it, and the rest of the message is lost. */
  lemma BinaryAcrossTail(room: nat, literal: CString, rest: CString, data: seq<byte>, more: seq<Arg>, clock: Clock)
    requires PERCENT !in literal && Matches(rest, more)
    requires |literal| < room <= |literal| + |data| && |data| <= MAX_MESSAGE
    ensures Matches(With(literal, 98, rest), [Buffer(data)] + more)
    ensures Emit(room, 0, Pieces(With(literal, 98, rest), [Buffer(data)] + more, clock))
         == Emission(literal + data, false)
  {
    var p := EmitFirst(room, literal, 98, rest, [Buffer(data)] + more, more, clock);
    EmitNext(room, |literal|, p, Pieces(rest, more, clock));
    EmitOne(room, |literal|, p);
  }

  lemma BlankOrNot(literal: seq<byte>, blank: bool, pairs: seq<byte>)
    ensures literal + (if blank then [32] + pairs else pairs) == literal + (if blank then [32] else []) + pairs
  {
    if blank {
      Regroup(literal, [32], pairs);
    } else {
      assert literal + [] == literal;
    }
  }

  /** The blank, and the pairs behind it. */
  lemma BlankAndPairs(literal: seq<byte>, toTail: nat, data: seq<byte>)
    requires toTail <= 2 * |data|
    ensures literal + (if toTail < 2 * |data| then SplitHex(toTail, data) else HexPairs(data))
         == literal + (if toTail % 2 == 1 then [32] else []) + HexPairs(data)
  {
    hide HexPairs;
    var pairs, odd := HexPairs(data), toTail % 2 == 1;
    BlankOrNot(literal, odd, pairs);
    if toTail == 2 * |data| {
      TwiceIsEven(|data|);
    } else {
      assert SplitHex(toTail, data) == if odd then [32] + pairs else pairs;
    }
  }

  lemma TwiceIsEven(k: nat)
    ensures 2 * k % 2 == 0
  {
  }

  /** The writer's side of it. */
  lemma RawEnds(room: nat, literal: seq<byte>, data: seq<byte>, rest: seq<Piece>)
    requires |literal| < room <= |literal| + 2 * |data|
    ensures Prepend(literal, Emit(room, |literal|, [Raw(data)] + rest))
         == Emission(literal + (if (room - |literal|) % 2 == 1 then [32] else []) + HexPairs(data), false)
  {
    hide Emit, Ends, SplitHex, HexPairs;
    EmitNext(room, |literal|, Raw(data), rest);
    EmitRaw(room, |literal|, data);
    BlankAndPairs(literal, room - |literal|, data);
  }

  lemma PairsReadBack(data: seq<byte>)
    ensures forall i :: 0 <= i < |data| ==> Itoa.ParseHex(HexPairs(data)[2 * i..2 * i + 2]) == data[i]
  {
    hide Itoa.ParseHex, HexPairs;
    forall i | 0 <= i < |data|
      ensures Itoa.ParseHex(HexPairs(data)[2 * i..2 * i + 2]) == data[i]
    {
      PairReadsBack(data, i);
    }
  }

  /** `%r` that reaches the tail: a blank fills an odd cell first, and the rest of the message is lost. */
  lemma RawAcrossTail(room: nat, literal: CString, rest: CString, data: seq<byte>, more: seq<Arg>, clock: Clock)
    returns (text: seq<byte>)
    requires PERCENT !in literal && Matches(rest, more) && |literal| < room <= |literal| + 2 * |data| && |data| < 256
    ensures Matches(With(literal, 114, rest), [Buffer(data)] + more)
    ensures Emit(room, 0, Pieces(With(literal, 114, rest), [Buffer(data)] + more, clock))
         == Emission(literal + (if (room - |literal|) % 2 == 1 then [32] else []) + text, false)
    ensures |text| == 2 * |data|
    ensures forall i :: 0 <= i < |data| ==> Itoa.ParseHex(text[2 * i..2 * i + 2]) == data[i]
  {
    hide Emit, Pieces, Matches, With, HexPairs, Itoa.ParseHex;
    var p := EmitFirst(room, literal, 114, rest, [Buffer(data)] + more, more, clock);
    RawEnds(room, literal, data, Pieces(rest, more, clock));
    text := HexPairs(data);
    PairsReadBack(data);
  }
}
