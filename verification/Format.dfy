/** What a printf-style message renders to, and what the cyclic writer makes of it. */
module Format {
  import opened Config
  import opened Sequences
  import Itoa

  const PERCENT: byte := 37
  const SPACE: byte := 32
  const SLASH: byte := 47
  const COLON: byte := 58
  const CH_B: byte := 98    // 'b'
  const CH_C: byte := 99    // 'c'
  const CH_D: byte := 100   // 'd'
  const CH_I: byte := 105   // 'i'
  const CH_P: byte := 112   // 'p'
  const CH_R: byte := 114   // 'r'
  const CH_S: byte := 115   // 's'
  const CH_T: byte := 84    // 'T'
  const CH_X: byte := 120   // 'x'

  /** One argument of the variadic call. A buffer comes with its length. */
  datatype Arg = Str(text: CString) | Num(n: int32) | Buffer(data: seq<byte>)

  /** The two digits the platform prints for one field of the clock. */
  datatype TwoDigits = TwoDigits(tens: byte, ones: byte)

  datatype Clock = Clock(day: TwoDigits, month: TwoDigits, year: TwoDigits,
                         hour: TwoDigits, minute: TwoDigits, second: TwoDigits)

  // ------------------------------------------------------------ linear rendering

  /** A stretch of output. `Text` survives the wrap of the ring; the other four are written by
      code that treats the end of the ring specially. */
  datatype Piece =
    | Text(text: seq<byte>)
    | Char(c: byte)
    | Escape(c: byte)           // an unknown directive, copied with its percent sign
    | Raw(data: seq<byte>)      // printed as hex pairs
    | Bin(data: seq<byte>)

  function HexPair(b: byte): seq<byte> {
    [Itoa.HexDigit(b / 16), Itoa.HexDigit(b % 16)]
  }

  function HexPairs(data: seq<byte>): (s: seq<byte>)
    ensures |s| == 2 * |data|
  {
    if data == [] then [] else HexPairs(data[..|data| - 1]) + HexPair(data[|data| - 1])
  }

  function Field(d: TwoDigits, separator: byte): seq<byte> {
    [d.tens, d.ones, separator]
  }

  /** DD/MM/YY HH:MM:SS and a blank. */
  function ClockText(k: Clock): (s: seq<byte>)
    ensures |s| == 18
  {
    Field(k.day, SLASH) + Field(k.month, SLASH) + Field(k.year, SPACE)
    + Field(k.hour, COLON) + Field(k.minute, COLON) + Field(k.second, SPACE)
  }

  function PieceText(p: Piece): seq<byte> {
    match p
    case Text(text) => text
    case Char(c) => [c]
    case Escape(c) => [PERCENT, c]
    case Raw(data) => HexPairs(data)
    case Bin(data) => data
  }

  /** The message as one text, with no ring in sight. */
  function Render(ps: seq<Piece>): seq<byte> {
    if ps == [] then [] else PieceText(ps[0]) + Render(ps[1..])
  }

  // ------------------------------------------------------------ parsing the format

  /** Length of the text in front of the first `delimiter`. */
  function SpanLen(text: CString, delimiter: byte): (k: nat)
    ensures k <= |text|
    ensures forall i :: 0 <= i < k ==> text[i] != delimiter
    ensures k < |text| ==> text[k] == delimiter
  {
    if text == [] || text[0] == delimiter then 0 else 1 + SpanLen(text[1..], delimiter)
  }

  /** Length of the literal text in front of the next directive. */
  function LiteralLen(fmt: CString): (k: nat)
    ensures k <= |fmt|
  {
    SpanLen(fmt, PERCENT)
  }

  predicate TakesArg(directive: byte) {
    directive in [CH_S, CH_D, CH_I, CH_P, CH_X, CH_C, CH_R, CH_B]
  }

  /** The caller passes what the directive asks for; `%r` passes its length as a byte, `%b` as a short. */
  predicate Suits(directive: byte, arg: Arg) {
    if directive == CH_S then arg.Str?
    else if directive == CH_R then arg.Buffer? && |arg.data| < 256
    else if directive == CH_B then arg.Buffer? && |arg.data| < 0x8000
    else arg.Num?
  }

  /** The arguments match the directives of the format, as with printf. */
  predicate Matches(fmt: CString, args: seq<Arg>)
    decreases |fmt|
  {
    var k := LiteralLen(fmt);
    k + 1 < |fmt| ==>
      if TakesArg(fmt[k + 1]) then |args| > 0 && Suits(fmt[k + 1], args[0]) && Matches(fmt[k + 2..], args[1..])
      else Matches(fmt[k + 2..], args)
  }

  function LowByte(n: int32): byte {
    n % 256
  }

  /** The output of a directive that takes an argument. */
  function Directive(directive: byte, arg: Arg): Piece
    requires TakesArg(directive) && Suits(directive, arg)
  {
    if directive == CH_S then Text(arg.text)
    else if directive == CH_D || directive == CH_I then Text(Itoa.Text(arg.n, 10, 11))
    else if directive == CH_P || directive == CH_X then Text(Itoa.Text(arg.n, 16, 11))
    else if directive == CH_C then Char(LowByte(arg.n))
    else if directive == CH_R then Raw(arg.data)
    else Bin(if |arg.data| > MAX_MESSAGE then arg.data[..MAX_MESSAGE] else arg.data)
  }

  function PlainDirective(directive: byte, clock: Clock): Piece {
    if directive == CH_T then Text(ClockText(clock)) else Escape(directive)
  }

  function PieceFor(directive: byte, arg: Arg, clock: Clock): Piece
    requires TakesArg(directive) ==> Suits(directive, arg)
  {
    if TakesArg(directive) then Directive(directive, arg) else PlainDirective(directive, clock)
  }

  /** The pieces of a message, left to right. A percent sign that ends the format prints nothing. */
  function Pieces(fmt: CString, args: seq<Arg>, clock: Clock): seq<Piece>
    requires Matches(fmt, args)
    decreases |fmt|
  {
    var k := LiteralLen(fmt);
    if k + 1 >= |fmt| then
      [Text(fmt[..k])]
    else if TakesArg(fmt[k + 1]) then
      [Text(fmt[..k]), Directive(fmt[k + 1], args[0])] + Pieces(fmt[k + 2..], args[1..], clock)
    else
      [Text(fmt[..k]), PlainDirective(fmt[k + 1], clock)] + Pieces(fmt[k + 2..], args, clock)
  }

  // ------------------------------------------------------------ what reaches the ring

  /** The budget of a message up to the end of the ring. */
  function Room(start: nat): (r: nat)
    requires start < RING_SIZE
    ensures 1 <= r <= MAX_MESSAGE && start + r <= RING_SIZE
    ensures r < MAX_MESSAGE ==> start + r == RING_SIZE
  {
    if MAX_MESSAGE < RING_SIZE - start then MAX_MESSAGE else RING_SIZE - start
  }

  /** Bytes put into the ring, and whether the write pointer is left on the tail, outside the ring. */
  datatype Emission = Emission(bytes: seq<byte>, atTail: bool)

  function Prepend(s: seq<byte>, e: Emission): Emission {
    Emission(s + e.bytes, e.atTail)
  }

  /** The bytes of a hex dump that does not end before the tail: an odd cell is filled with a blank. */
  function SplitHex(toTail: nat, data: seq<byte>): seq<byte> {
    if toTail % 2 == 1 then [SPACE] + HexPairs(data) else HexPairs(data)
  }

  /** The output of the cyclic writer for the pieces `ps` when `t` bytes of the message are in the
      ring and the tail lies `room` bytes behind the start of the message. */
  function Emit(room: nat, t: nat, ps: seq<Piece>): Emission
    decreases |ps|
  {
    if ps == [] then Emission([], false)
    else
      var s, rest := PieceText(ps[0]), ps[1..];
      if ps[0].Text? || t >= room || t + |s| < room then
        Prepend(s, Emit(room, t + |s|, rest))     // nothing special at the tail
      else
        match ps[0]
        case Text(_) => Emission([], false)
        case Char(_) => Emission(s, true)         // no wrap: the pointer stays on the tail
        case Escape(_) =>
          if t + 1 == room then Emit(room, t, rest)  // one cell is not enough: dropped
          else Emission(s, true)
        case Raw(data) =>
          if t + |s| == room then Emission(s, false) else Emission(SplitHex(room - t, data), false)
        case Bin(_) => Emission(s, false)         // a split buffer ends the message
  }

  /** Whether writing `p` leaves the writer without budget, so that the rest of the message is lost. */
  predicate Ends(room: nat, t: nat, p: Piece) {
    !p.Text? && t < room && room <= t + |PieceText(p)| && !(p.Escape? && t + 1 == room)
  }

  /** What one piece puts out. */
  lemma {:induction false} EmitOne(room: nat, t: nat, p: Piece)
    ensures Emit(room, t, [p])
         == if !Ends(room, t, p) then Emission(if p.Escape? && t + 1 == room then [] else PieceText(p), false)
            else if p.Char? || p.Escape? then Emission(PieceText(p), true)
            else if p.Raw? && t + |PieceText(p)| != room then Emission(SplitHex(room - t, p.data), false)
            else Emission(PieceText(p), false)
  {
  }

  /** A hex dump that reaches the tail. */
  lemma {:induction false} EmitRaw(room: nat, t: nat, data: seq<byte>)
    ensures Ends(room, t, Raw(data)) <==> t < room <= t + 2 * |data|
    ensures Emit(room, t, [Raw(data)])
         == Emission(if t < room < t + 2 * |data| then SplitHex(room - t, data) else HexPairs(data), false)
  {
    EmitOne(room, t, Raw(data));
  }

  lemma {:induction false} EmitNext(room: nat, t: nat, p: Piece, rest: seq<Piece>)
    ensures Emit(room, t, [p] + rest)
         == if Ends(room, t, p) then Emit(room, t, [p])
            else Prepend(Emit(room, t, [p]).bytes, Emit(room, t + |Emit(room, t, [p]).bytes|, rest))
  {
  }

  lemma {:induction false} EmitLiteral(room: nat, t: nat, literal: seq<byte>)
    ensures Emit(room, t, [Text(literal)]) == Emission(literal, false)
    ensures Render([Text(literal)]) == literal
  {
  }

  lemma {:induction false} EmitLiteralFirst(room: nat, t: nat, literal: seq<byte>, p: Piece, rest: seq<Piece>)
    ensures Emit(room, t, [Text(literal), p] + rest) == Prepend(literal, Emit(room, t + |literal|, [p] + rest))
    ensures |Render([Text(literal), p] + rest)| == |literal| + |PieceText(p)| + |Render(rest)|
  {
  }

  /** The argument of `directive`, and the arguments left behind it. */
  function ArgFor(directive: byte, args: seq<Arg>): Arg {
    if TakesArg(directive) && |args| > 0 then args[0] else Num(0)
  }

  function ArgsAfter(directive: byte, args: seq<Arg>): seq<Arg> {
    if TakesArg(directive) && |args| > 0 then args[1..] else args
  }

  /** The format has a directive, behind `LiteralLen(fmt)` bytes of text. */
  predicate HasDirective(fmt: CString) {
    LiteralLen(fmt) + 1 < |fmt|
  }

  function DirectiveOf(fmt: CString): byte
    requires HasDirective(fmt)
  {
    fmt[LiteralLen(fmt) + 1]
  }

  function FormatAfter(fmt: CString): CString
    requires HasDirective(fmt)
  {
    fmt[LiteralLen(fmt) + 2..]
  }

  /** The arguments suit the first directive, and the rest of them the rest of the format. */
  lemma {:induction false} MatchesStep(fmt: CString, args: seq<Arg>)
    requires Matches(fmt, args) && HasDirective(fmt)
    ensures var d := DirectiveOf(fmt);
            (TakesArg(d) ==> Suits(d, ArgFor(d, args))) && Matches(FormatAfter(fmt), ArgsAfter(d, args))
  {
  }

  function FirstPiece(fmt: CString, args: seq<Arg>, clock: Clock): Piece
    requires Matches(fmt, args) && HasDirective(fmt)
  {
    MatchesStep(fmt, args);
    PieceFor(DirectiveOf(fmt), ArgFor(DirectiveOf(fmt), args), clock)
  }

  function LaterPieces(fmt: CString, args: seq<Arg>, clock: Clock): seq<Piece>
    requires Matches(fmt, args) && HasDirective(fmt)
  {
    MatchesStep(fmt, args);
    Pieces(FormatAfter(fmt), ArgsAfter(DirectiveOf(fmt), args), clock)
  }

  lemma {:induction false} PiecesStep(fmt: CString, args: seq<Arg>, clock: Clock)
    requires Matches(fmt, args) && HasDirective(fmt)
    ensures Pieces(fmt, args, clock)
         == [Text(fmt[..LiteralLen(fmt)]), FirstPiece(fmt, args, clock)] + LaterPieces(fmt, args, clock)
  {
  }

  /** One round of the parser: the literal text and the directive come first, the rest follows. */
  lemma {:induction false} OneRound(room: nat, out: seq<byte>, fmt: CString, args: seq<Arg>, clock: Clock)
    requires Matches(fmt, args) && HasDirective(fmt)
    ensures |Render(Pieces(fmt, args, clock))|
         == LiteralLen(fmt) + |PieceText(FirstPiece(fmt, args, clock))| + |Render(LaterPieces(fmt, args, clock))|
    ensures Prepend(out, Emit(room, |out|, Pieces(fmt, args, clock)))
         == Prepend(out + fmt[..LiteralLen(fmt)],
                    Emit(room, |out| + LiteralLen(fmt), [FirstPiece(fmt, args, clock)] + LaterPieces(fmt, args, clock)))
  {
    var literal, p, rest := fmt[..LiteralLen(fmt)], FirstPiece(fmt, args, clock), LaterPieces(fmt, args, clock);
    PiecesStep(fmt, args, clock);
    EmitLiteralFirst(room, |out|, literal, p, rest);
    PrependTwice(out, literal, Emit(room, |out| + |literal|, [p] + rest));
  }

  /** One round before the writer: `goal` is the message whose part `out` is written, `p` the piece of
      the next directive and `rest` the pieces behind it. */
  ghost predicate RoundToGo(room: nat, out: seq<byte>, fmt: CString, args: seq<Arg>, clock: Clock,
                            p: Piece, rest: seq<Piece>, goal: Emission) {
    var literal := fmt[..LiteralLen(fmt)];
    if HasDirective(fmt) then
      var d := DirectiveOf(fmt);
      && (TakesArg(d) ==> Suits(d, ArgFor(d, args))) && p == PieceFor(d, ArgFor(d, args), clock)
      && |out| + |literal| + |PieceText(p)| + |Render(rest)| < MAX_MESSAGE
      && goal == Prepend(out + literal, Emit(room, |out + literal|, [p] + rest))
    else
      |out| + |literal| < MAX_MESSAGE && goal == Emission(out + literal, false)
  }

  /** A round with a directive. */
  lemma DirectiveRound(room: nat, out: seq<byte>, fmt: CString, args: seq<Arg>, clock: Clock, goal: Emission)
    requires Matches(fmt, args) && |out| + |Render(Pieces(fmt, args, clock))| < MAX_MESSAGE && HasDirective(fmt)
    requires goal == Prepend(out, Emit(room, |out|, Pieces(fmt, args, clock)))
    ensures RoundToGo(room, out, fmt, args, clock, FirstPiece(fmt, args, clock), LaterPieces(fmt, args, clock), goal)
  {
    hide Emit, Render, Pieces, Matches, PieceFor, PieceText, LiteralLen, Suits, LaterPieces;
    MatchesStep(fmt, args);
    OneRound(room, out, fmt, args, clock);
  }

  /** A round that ends the format. */
  lemma {:induction false} LastRound(room: nat, out: seq<byte>, fmt: CString, args: seq<Arg>, clock: Clock,
                                     goal: Emission)
    requires Matches(fmt, args) && |out| + |Render(Pieces(fmt, args, clock))| < MAX_MESSAGE && !HasDirective(fmt)
    requires goal == Prepend(out, Emit(room, |out|, Pieces(fmt, args, clock)))
    ensures |out| + LiteralLen(fmt) < MAX_MESSAGE && goal == Emission(out + fmt[..LiteralLen(fmt)], false)
  {
    hide Emit, Render;
    EmitLiteral(room, |out|, fmt[..LiteralLen(fmt)]);
  }

  lemma RoundStarts(room: nat, out: seq<byte>, fmt: CString, args: seq<Arg>, clock: Clock, goal: Emission)
    returns (p: Piece, rest: seq<Piece>)
    requires Matches(fmt, args) && |out| + |Render(Pieces(fmt, args, clock))| < MAX_MESSAGE
    requires goal == Prepend(out, Emit(room, |out|, Pieces(fmt, args, clock)))
    ensures RoundToGo(room, out, fmt, args, clock, p, rest, goal)
    ensures HasDirective(fmt) ==>
              && Matches(FormatAfter(fmt), ArgsAfter(DirectiveOf(fmt), args))
              && rest == Pieces(FormatAfter(fmt), ArgsAfter(DirectiveOf(fmt), args), clock)
  {
    hide Emit, Render, Pieces, Matches;
    if HasDirective(fmt) {
      MatchesStep(fmt, args);
      DirectiveRound(room, out, fmt, args, clock, goal);
      p, rest := FirstPiece(fmt, args, clock), LaterPieces(fmt, args, clock);
    } else {
      LastRound(room, out, fmt, args, clock, goal);
      p, rest := Text([]), [];
    }
  }

  /** Nothing more to come. */
  lemma {:induction false} NothingToCome(room: nat, out: seq<byte>, args: seq<Arg>, clock: Clock, goal: Emission)
    requires Matches([], args) && goal == Prepend(out, Emit(room, |out|, Pieces([], args, clock)))
    ensures goal == Emission(out, false)
  {
    EmitLiteral(room, |out|, []);
    assert out + [] == out;
  }

  lemma PrependTwice(a: seq<byte>, b: seq<byte>, e: Emission)
    ensures Prepend(a, Prepend(b, e)) == Prepend(a + b, e)
  {
  }

  /** No piece is disturbed by the tail of the ring: what a caller can tell from the write
      position and the format alone. */
  predicate Undisturbed(room: nat, t: nat, ps: seq<Piece>)
    decreases |ps|
  {
    ps == [] ||
    var s, rest := PieceText(ps[0]), ps[1..];
    if ps[0].Text? || t >= room || t + |s| < room then
      Undisturbed(room, t + |s|, rest)
    else
      match ps[0]
      case Text(_) => true
      case Char(_) => false
      case Escape(_) => false
      case Raw(_) => (t + |s| == room || (room - t) % 2 == 0) && Render(rest) == []
      case Bin(_) => Render(rest) == []
  }

  /** Messages that end before the tail, and messages without the four fragile directives, are safe. */
  lemma {:induction false} SafeMessages(room: nat, t: nat, ps: seq<Piece>)
    requires t + |Render(ps)| < room || forall p :: p in ps ==> p.Text?
    ensures Undisturbed(room, t, ps)
    decreases |ps|
  {
    if ps != [] {
      SafeMessages(room, t + |PieceText(ps[0])|, ps[1..]);
    }
  }

  /** The writer puts out at most one byte (a filling blank) beyond the rendering. */
  lemma {:induction false} EmitLength(room: nat, t: nat, ps: seq<Piece>)
    ensures |Emit(room, t, ps).bytes| <= |Render(ps)| + 1
    decreases |ps|
  {
    if ps != [] {
      var s, rest := PieceText(ps[0]), ps[1..];
      EmitLength(room, t + |s|, rest);
      EmitLength(room, t, rest);
    }
  }

  /** The pointer is left outside the ring only by filling the last cell. */
  lemma {:induction false} EmitAtTail(room: nat, t: nat, ps: seq<Piece>)
    requires Emit(room, t, ps).atTail
    ensures t + |Emit(room, t, ps).bytes| == room && |Emit(room, t, ps).bytes| <= |Render(ps)|
    decreases |ps|
  {
    if ps != [] {
      var s, rest := PieceText(ps[0]), ps[1..];
      if ps[0].Text? || t >= room || t + |s| < room {
        EmitAtTail(room, t + |s|, rest);
      } else if ps[0].Escape? && t + 1 == room {
        EmitAtTail(room, t, rest);
      }
    }
  }

  /** The cyclic writer refines the linear one exactly when no piece is disturbed by the tail. */
  lemma {:induction false} EmitRefinesRender(room: nat, t: nat, ps: seq<Piece>)
    ensures Emit(room, t, ps) == Emission(Render(ps), false) <==> Undisturbed(room, t, ps)
    decreases |ps|
  {
    if ps != [] {
      var p, s, rest := ps[0], PieceText(ps[0]), ps[1..];
      var e := Emit(room, t, ps);
      if p.Text? || t >= room || t + |s| < room {
        EmitRefinesRender(room, t + |s|, rest);
        assert e.bytes[|s|..] == Emit(room, t + |s|, rest).bytes;
        assert Render(ps)[|s|..] == Render(rest);
      } else if p.Escape? && t + 1 == room {
        EmitLength(room, t, rest);
      } else if p.Raw? || p.Bin? {
        if Render(rest) == [] {
          assert Render(ps) == s;
          if p.Raw? && t + |s| != room && (room - t) % 2 == 1 {
            assert |e.bytes| == |s| + 1;
          }
        } else if p.Raw? && t + |s| != room && (room - t) % 2 == 1 {
          HexPairsAreNoBlank(p.data);
          assert e.bytes[0] == SPACE;
          assert Render(ps)[0] == s[0];
        } else {
          assert |Render(ps)| > |s|;
        }
      }
    }
  }

  lemma {:induction false} HexPairsAreNoBlank(data: seq<byte>)
    ensures forall i :: 0 <= i < 2 * |data| ==> HexPairs(data)[i] != SPACE
  {
    if data != [] {
      HexPairsAreNoBlank(data[..|data| - 1]);
    }
  }

  lemma {:induction false} HexPairsConcat(a: seq<byte>, b: seq<byte>)
    ensures HexPairs(a + b) == HexPairs(a) + HexPairs(b)
  {
    if b == [] {
      assert a + b == a;
    } else {
      HexPairsConcat(a, b[..|b| - 1]);
      assert (a + b)[..|a + b| - 1] == a + b[..|b| - 1];
    }
  }

  lemma {:induction false} HexPairsSplit(prefix: seq<byte>, data: seq<byte>, n: nat)
    requires n <= |data|
    ensures prefix + HexPairs(data[0..n]) + HexPairs(data[n..]) == prefix + HexPairs(data)
  {
    var a, b := data[0..n], data[n..];
    assert HexPairs(data) == HexPairs(a) + HexPairs(b) by {
      assert data == a + b;
      HexPairsConcat(a, b);
    }
    Regroup(prefix, HexPairs(a), HexPairs(b));
  }

  lemma {:induction false} HexPairsOneMore(prefix: seq<byte>, data: seq<byte>, from: nat, i: nat)
    requires from <= i < |data|
    ensures prefix + HexPairs(data[from..i]) + [Itoa.HexDigit(data[i] / 16)] + [Itoa.HexDigit(data[i] % 16)]
         == prefix + HexPairs(data[from..i + 1])
  {
    assert data[from..i + 1][..i - from] == data[from..i];
  }
}
