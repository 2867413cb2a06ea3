/** The lean number printer `mini_itoa` and what its text reads back as. */
module Itoa {
  import opened Config

  const MINUS: byte := 45
  const ZERO: byte := 48

  // ------------------------------------------------------------ C integer operators

  /** C division by ten: truncates toward zero. */
  function CDiv10(x: int): int {
    if x >= 0 then x / 10 else -((-x) / 10)
  }

  function CRem10(x: int): (r: int)
    ensures -9 <= r <= 9
  {
    x - 10 * CDiv10(x)
  }

  /** C negation of a 32-bit int; the most negative value wraps to itself. */
  function Negate(x: int32): int32 {
    if x == -0x8000_0000 then x else -x
  }

  function Unsigned(x: int32): (u: nat)
    ensures u < 0x1_0000_0000
  {
    if x < 0 then x + 0x1_0000_0000 else x
  }

  // ------------------------------------------------------------ digits

  function DecDigit(v: int): byte {
    CRem10(v) + ZERO
  }

  function HexDigit(d: int): byte
    requires 0 <= d < 16
  {
    if d > 9 then d - 10 + 65 else d + ZERO
  }

  /** Number of decimal digits of `v`, none for zero. */
  function DecLen(v: int): nat
    decreases if v < 0 then -v else v
  {
    if v == 0 then 0 else 1 + DecLen(CDiv10(v))
  }

  function HexLen(u: nat): nat {
    if u == 0 then 0 else 1 + HexLen(u / 16)
  }

  /** The `len` low-order decimal digits of `v`, most significant first. */
  function DecLow(v: int, len: nat): (s: seq<byte>)
    ensures |s| == len
    decreases len
  {
    if len == 0 then [] else DecLow(CDiv10(v), len - 1) + [DecDigit(v)]
  }

  /** The `len` low-order nibbles of `v`; `v / 16` rounds down, as an arithmetic shift does. */
  function HexLow(v: int, len: nat): (s: seq<byte>)
    ensures |s| == len
    decreases len
  {
    if len == 0 then [] else HexLow(v / 16, len - 1) + [HexDigit(v % 16)]
  }

  /** The text handed back to the caller: what lies in the buffer, up to the returned length. */
  function Text(n: int32, radix: int, maxLen: nat): (s: seq<byte>)
    ensures |s| <= if maxLen < 1 then 0 else maxLen
  {
    if maxLen == 0 then
      []
    else if radix == 10 && n < 0 then
      // the sign is counted in the length, but the digits start behind it
      var len := Min(DecLen(n) + 1, maxLen - 1);
      if len == 0 then [MINUS] else ([MINUS] + DecLow(Negate(n), len))[..len]
    else if radix == 10 && n > 0 then
      DecLow(n, Min(DecLen(n), maxLen))
    else if radix == 16 then
      HexLow(n, Min(if HexLen(Unsigned(n)) < 2 then 2 else HexLen(Unsigned(n)), maxLen))
    else
      [ZERO]
  }

  method WriteDecDigits(buff: array<byte>, first: nat, value: int, len: nat)
    requires first + len <= buff.Length
    modifies buff
    ensures buff[..first + len] == old(buff[..first]) + DecLow(value, len)
  {
    var origNum, i := value, len;
    while i > 0
      invariant 0 <= i <= len
      invariant buff[..first] == old(buff[..first])
      invariant DecLow(origNum, i) + buff[first + i..first + len] == DecLow(value, len)
    {
      ghost var tail := buff[first + i..first + len];
      assert DecLow(origNum, i) + tail == DecLow(CDiv10(origNum), i - 1) + ([DecDigit(origNum)] + tail);
      buff[first + i - 1] := DecDigit(origNum);
      assert buff[first + i - 1..first + len] == [DecDigit(origNum)] + tail;
      origNum := CDiv10(origNum);
      i := i - 1;
    }
    assert buff[..first + len] == buff[..first] + buff[first..first + len];
  }

  method WriteHexDigits(buff: array<byte>, value: int, len: nat)
    requires len <= buff.Length
    modifies buff
    ensures buff[..len] == HexLow(value, len)
  {
    var origNum, i := value, len;
    while i > 0
      invariant 0 <= i <= len
      invariant HexLow(origNum, i) + buff[i..len] == HexLow(value, len)
    {
      ghost var tail := buff[i..len];
      assert HexLow(origNum, i) + tail == HexLow(origNum / 16, i - 1) + ([HexDigit(origNum % 16)] + tail);
      buff[i - 1] := HexDigit(origNum % 16);
      assert buff[i - 1..len] == [HexDigit(origNum % 16)] + tail;
      origNum := origNum / 16;
      i := i - 1;
    }
  }

  method CountDecDigits(value: int) returns (len: nat)
    ensures len == DecLen(value)
  {
    len := 0;
    var rest := value;
    while rest != 0
      invariant len + DecLen(rest) == DecLen(value)
      decreases DecLen(rest)
    {
      rest := CDiv10(rest);
      len := len + 1;
    }
  }

  method CountHexDigits(value: nat) returns (len: nat)
    ensures len == HexLen(value)
  {
    len := 0;
    var rest := value;
    while rest != 0
      invariant len + HexLen(rest) == HexLen(value)
    {
      rest := rest / 16;
      len := len + 1;
    }
  }

  /** The decimal branch. `first` is where the digits start: the sign moves the C code's pointer. */
  method PrintDecimal(inputNum: int32, buff: array<byte>, maxLen: nat) returns (first: nat, len: nat)
    requires 2 <= buff.Length && 0 < maxLen <= buff.Length
    modifies buff
    ensures first == if inputNum < 0 then 1 else 0
    ensures len == Min(if inputNum < 0 then DecLen(inputNum) + 1 else DecLen(inputNum), maxLen - first)
    ensures buff[..first + len] == (if inputNum < 0 then [MINUS] else []) + DecLow(Magnitude(inputNum), len)
  {
    var origNum, room := inputNum, maxLen;
    first := 0;
    len := CountDecDigits(inputNum);
    if origNum < 0 {
      origNum := Negate(origNum);
      buff[0] := MINUS;
      first := 1;
      room := room - 1;
      len := len + 1;
    }
    if len > room {
      len := room;
    }
    assert buff[..first] == if inputNum < 0 then [MINUS] else [];
    WriteDecDigits(buff, first, origNum, len);
  }

  /** What the digits are taken from. */
  function Magnitude(n: int32): int32 {
    if n < 0 then Negate(n) else n
  }

  method PrintHexadecimal(inputNum: int32, buff: array<byte>, maxLen: nat) returns (len: nat)
    requires maxLen <= buff.Length
    modifies buff
    ensures len == Min(if HexLen(Unsigned(inputNum)) < 2 then 2 else HexLen(Unsigned(inputNum)), maxLen)
    ensures buff[..len] == HexLow(inputNum, len)
  {
    len := CountHexDigits(Unsigned(inputNum));
    if len < 2 {
      len := 2;
    }
    if len > maxLen {
      len := maxLen;
    }
    WriteHexDigits(buff, inputNum, len);
  }

  /** Prints `inputNum` into `buff`; the first `len` bytes are the text. */
  method MiniItoa(inputNum: int32, buff: array<byte>, radix: int, maxLen: nat) returns (len: nat)
    requires 2 <= buff.Length && maxLen <= buff.Length
    modifies buff
    ensures len <= buff.Length && buff[..len] == Text(inputNum, radix, maxLen)
  {
    hide DecLow, HexLow, HexLen;
    len := 0;
    if maxLen == 0 {
      return 0;
    }
    var first := 0;
    if radix == 10 {
      first, len := PrintDecimal(inputNum, buff, maxLen);
      assert buff[..len] == buff[..first + len][..len];
    }
    if radix == 16 {
      len := PrintHexadecimal(inputNum, buff, maxLen);
    }
    if len == 0 {
      len := 1;
      buff[first] := ZERO;
    }
  }

  // ------------------------------------------------------------ reading back

  /** The value a decimal reader finds in `s`, if every byte is a digit. */
  function ParseDec(s: seq<byte>): (v: int) {
    if s == [] then 0
    else if ParseDec(s[..|s| - 1]) < 0 || !(ZERO <= s[|s| - 1] <= ZERO + 9) then -1
    else 10 * ParseDec(s[..|s| - 1]) + (s[|s| - 1] - ZERO)
  }

  function ParseHex(s: seq<byte>): (v: int) {
    if s == [] then 0
    else
      var d := s[|s| - 1];
      var nibble := if ZERO <= d <= ZERO + 9 then d - ZERO else if 65 <= d <= 70 then d - 55 else -1;
      if ParseHex(s[..|s| - 1]) < 0 || nibble < 0 then -1 else 16 * ParseHex(s[..|s| - 1]) + nibble
  }

  datatype Reading = NotANumber | Number(value: int)

  /** A signed decimal reader: an optional minus, then at least one digit. */
  function ReadSigned(s: seq<byte>): Reading {
    if s == [] then NotANumber
    else if s[0] != MINUS then (if ParseDec(s) < 0 then NotANumber else Number(ParseDec(s)))
    else if |s| == 1 || ParseDec(s[1..]) < 0 then NotANumber
    else Number(-ParseDec(s[1..]))
  }

  /** A number that fits in `len` digits is read back from its `len` low-order digits. */
  lemma {:induction false} DecReadsBack(v: nat, len: nat)
    requires DecLen(v) <= len
    ensures ParseDec(DecLow(v, len)) == v
  {
    if len > 0 {
      DecReadsBack(v / 10, len - 1);
      assert DecLow(v, len)[..len - 1] == DecLow(v / 10, len - 1);
    }
  }

  lemma {:induction false} HexReadsBack(v: nat, len: nat)
    requires HexLen(v) <= len
    ensures ParseHex(HexLow(v, len)) == v
  {
    if len > 0 {
      HexReadsBack(v / 16, len - 1);
      assert HexLow(v, len)[..len - 1] == HexLow(v / 16, len - 1);
    }
  }

  /** No superfluous zero in front of a positive number. */
  lemma {:induction false} DecLeading(v: nat)
    requires v > 0
    ensures DecLow(v, DecLen(v))[0] != ZERO
  {
    if v >= 10 {
      DecLeading(v / 10);
    } else {
      assert DecLen(v) == 1 + DecLen(0);
      assert DecLow(v, 1) == DecLow(v / 10, 0) + [DecDigit(v)];
    }
  }

  lemma {:induction false} HexLeading(v: nat)
    requires v > 0
    ensures HexLow(v, HexLen(v))[0] != ZERO
  {
    if v >= 16 {
      HexLeading(v / 16);
    } else {
      assert HexLen(v) == 1 + HexLen(0);
      assert HexLow(v, 1) == HexLow(v / 16, 0) + [HexDigit(v % 16)];
    }
  }

  function Power(b: nat, e: nat): nat {
    if e == 0 then 1 else b * Power(b, e - 1)
  }

  lemma {:induction false} DecLenAtMost(v: nat, len: nat)
    requires v < Power(10, len)
    ensures DecLen(v) <= len
  {
    if len > 0 && v > 0 {
      DecLenAtMost(v / 10, len - 1);
    }
  }

  lemma {:induction false} HexLenAtMost(v: nat, len: nat)
    requires v < Power(16, len)
    ensures HexLen(v) <= len
  {
    if len > 0 && v > 0 {
      HexLenAtMost(v / 16, len - 1);
    }
  }

  lemma {:induction false} HexLenMoreThan(v: nat, len: nat)
    requires v >= Power(16, len)
    ensures HexLen(v) > len
  {
    if len > 0 {
      HexLenMoreThan(v / 16, len - 1);
    }
  }

  /** Low nibbles do not see a power beyond them. */
  lemma {:induction false} HexLowPeriodic(v: int, len: nat, e: nat)
    requires len <= e
    ensures HexLow(v, len) == HexLow(v + Power(16, e), len)
    decreases len
  {
    if len > 0 {
      HexLowPeriodic(v / 16, len - 1, e - 1);
      assert (v + Power(16, e)) / 16 == v / 16 + Power(16, e - 1);
    }
  }

  lemma DecLenNegated(v: int)
    ensures DecLen(-v) == DecLen(v)
    decreases if v < 0 then -v else v
  {
    if v != 0 {
      assert CDiv10(-v) == -CDiv10(v);
      DecLenNegated(CDiv10(v));
    }
  }

  lemma Powers()
    ensures Power(10, 10) == 10_000_000_000 && Power(16, 7) == 0x1000_0000 && Power(16, 8) == 0x1_0000_0000
  {
  }

  // ------------------------------------------------------------ what the logger prints

  /** Hexadecimal output reads back as the unsigned value, for every int; it is padded to two
      digits and never further. */
  lemma {:induction false} HexRoundTrip(n: int32)
    ensures ParseHex(Text(n, 16, 11)) == Unsigned(n)
    ensures 2 <= |Text(n, 16, 11)| <= 8
    ensures |Text(n, 16, 11)| > 2 ==> Text(n, 16, 11)[0] != ZERO
  {
    var u := Unsigned(n);
    Powers();
    HexLenAtMost(u, 8);
    var len := |Text(n, 16, 11)|;
    if n < 0 {
      HexLenMoreThan(u, 7);
      HexLowPeriodic(n, 8, 8);
    }
    HexReadsBack(u, len);
    if len > 2 {
      HexLeading(u);
    }
  }

  /** Decimal output of a non-negative int reads back as that int, without leading zeros. */
  lemma {:induction false} DecRoundTrip(n: int32)
    requires n >= 0
    ensures ReadSigned(Text(n, 10, 11)) == Number(n)
    ensures |Text(n, 10, 11)| > 1 ==> Text(n, 10, 11)[0] != ZERO
  {
    if n > 0 {
      Powers();
      DecLenAtMost(n, 10);
      DecReadsBack(n, DecLen(n));
      DecLeading(n);
      NoSign(n, DecLen(n));
    } else {
      assert Text(0, 10, 11)[..0] == [];
    }
  }

  lemma {:induction false} NoSign(v: nat, len: nat)
    ensures forall i :: 0 <= i < len ==> ZERO <= DecLow(v, len)[i] <= ZERO + 9
  {
    if len > 0 {
      NoSign(v / 10, len - 1);
    }
  }

  lemma {:induction false} AllButLastDigit(m: nat, len: nat)
    ensures [MINUS] + DecLow(m / 10, len) == ([MINUS] + DecLow(m, len + 1))[..len + 1]
  {
    assert DecLow(m, len + 1)[..len] == DecLow(m / 10, len);
  }

  /** A negative int has at most ten digits, and without its last one at most nine. */
  lemma {:induction false} NegativeDigits(n: int32)
    requires -0x8000_0000 < n < 0
    ensures 0 < DecLen(n) <= 10 && DecLen((-n) / 10) == DecLen(n) - 1
  {
    DecLenNegated(n);
    assert DecLen(-n) <= 10 by {
      Powers();
      DecLenAtMost(-n, 10);
    }
  }

  /** The text of a negative number: the sign, and all digits but the last, perhaps behind a zero. */
  lemma NegativeText(n: int32) returns (len: nat)
    requires -0x8000_0000 < n < 0
    ensures DecLen((-n) / 10) <= len && 0 < len < 10 && Text(n, 10, 11) == [MINUS] + DecLow((-n) / 10, len)
  {
    hide DecLow, DecLen;
    NegativeDigits(n);
    len := Min(DecLen(n) + 1, 10) - 1;
    AllButLastDigit(-n, len);
  }

  /** The sign costs a negative number its last digit: the text reads as `-(|n| / 10)`. */
  lemma {:induction false} NegativeLosesLastDigit(n: int32)
    requires -0x8000_0000 < n < 0
    ensures ReadSigned(Text(n, 10, 11)) == Number(-((-n) / 10))
  {
    hide Text, DecLow;
    var len := NegativeText(n);
    DecReadsBack((-n) / 10, len);
    assert Text(n, 10, 11)[1..] == DecLow((-n) / 10, len);
  }

  /** The most negative int: its digits come out as the bytes below '0'. */
  lemma {:induction false} MostNegativeIsNoNumber()
    ensures ReadSigned(Text(-0x8000_0000, 10, 11)) == NotANumber
  {
    DecLenOfMostNegative();
    var digits := DecLow(-214748364, 9);
    assert DecLow(-2147483648, 10) == digits + [DecDigit(-2147483648)];
    assert Text(-0x8000_0000, 10, 11) == [MINUS] + digits;
    assert digits == DecLow(-21474836, 8) + [DecDigit(-214748364)];
    assert ([MINUS] + digits)[1..] == digits;
  }

  lemma {:induction false} DecLenOfMostNegative()
    ensures DecLen(-2147483648) == 10
  {
  }

  /** Decimal output denotes the number printed exactly when that number is not negative. */
  lemma {:induction false} DecimalFaithfulIff(n: int32)
    ensures ReadSigned(Text(n, 10, 11)) == Number(n) <==> n >= 0
  {
    if n >= 0 {
      DecRoundTrip(n);
    } else if n == -0x8000_0000 {
      MostNegativeIsNoNumber();
    } else {
      NegativeLosesLastDigit(n);
    }
  }

  // ------------------------------------------------------------ any maximum length

  lemma Distributes(a: nat, b: int, c: int)
    ensures a * (b + c) == a * b + a * c
    ensures b <= c ==> a * b <= a * c
  {
  }

  lemma Associates(a: nat, b: nat, c: int)
    ensures a * (b * c) == a * b * c
  {
  }

  lemma RemainderIs(x: int, m: nat, k: int, r: nat)
    requires x == m * k + r && r < m
    ensures x % m == r
  {
    var q := x / m;
    Distributes(m, k + 1, q);
    Distributes(m, q + 1, k);
    Distributes(m, k, 1);
    Distributes(m, q, 1);
  }

  lemma {:induction false} PowerIsPositive(b: nat, e: nat)
    requires b > 0
    ensures Power(b, e) > 0
  {
    if e > 0 {
      PowerIsPositive(b, e - 1);
    }
  }

  /** Two divisions in a row, put together. */
  lemma TwoDivisions(v: int, b: nat, p: nat, q: int, r: nat, k: int, low: nat)
    requires v == b * q + r && r < b && q == p * k + low && low < p
    ensures v == b * p * k + (b * low + r) && 0 <= b * low + r < b * p
  {
    Distributes(b, p * k, low);
    Associates(b, p, k);
    Distributes(b, low, p - 1);
    Distributes(b, p, -1);
    Distributes(b, 0, low);
  }

  lemma RemainderOfProduct(v: int, b: nat, p: nat)
    requires b > 0 && p > 0
    ensures b * p > 0 && v % (b * p) == b * (v / b % p) + v % b
  {
    var q, r := v / b, v % b;
    var k, low := q / p, q % p;
    TwoDivisions(v, b, p, q, r, k, low);
    RemainderIs(v, b * p, k, b * low + r);
  }

  /** The remainder by one power more, digit by digit. */
  lemma RemainderStep(v: int, b: nat, e: nat)
    requires b > 0 && e > 0
    ensures Power(b, e) > 0 && Power(b, e - 1) > 0
    ensures v % Power(b, e) == b * (v / b % Power(b, e - 1)) + v % b
  {
    PowerIsPositive(b, e - 1);
    RemainderOfProduct(v, b, Power(b, e - 1));
  }

  /** The low-order digits are the number modulo a power of ten. */
  lemma {:induction false} DecLowReads(v: nat, len: nat)
    ensures Power(10, len) > 0 && ParseDec(DecLow(v, len)) == v % Power(10, len)
  {
    if len > 0 {
      DecLowReads(v / 10, len - 1);
      RemainderStep(v, 10, len);
      assert DecLow(v, len)[..len - 1] == DecLow(v / 10, len - 1);
    }
  }

  lemma {:induction false} HexLowReads(v: int, len: nat)
    ensures Power(16, len) > 0 && ParseHex(HexLow(v, len)) == v % Power(16, len)
    decreases len
  {
    if len > 0 {
      HexLowReads(v / 16, len - 1);
      RemainderStep(v, 16, len);
      assert HexLow(v, len)[..len - 1] == HexLow(v / 16, len - 1);
    }
  }

  /** Decimal output of a positive int: the number, or as many low-order digits of it as fit. */
  lemma DecimalOfAnyLength(n: int32, maxLen: nat)
    requires n > 0 && maxLen > 0
    ensures Power(10, maxLen) > 0
    ensures |Text(n, 10, maxLen)| == Min(DecLen(n), maxLen)
    ensures ParseDec(Text(n, 10, maxLen)) == if DecLen(n) <= maxLen then n else n % Power(10, maxLen)
  {
    hide DecLow, ParseDec;
    DecLowReads(n, maxLen);
    if DecLen(n) <= maxLen {
      DecReadsBack(n, DecLen(n));
    }
  }

  lemma {:induction false} SameNibbles(n: int32, len: nat)
    requires len <= 8
    ensures HexLow(n, len) == HexLow(Unsigned(n), len)
  {
    Powers();
    if n < 0 {
      HexLowPeriodic(n, len, 8);
    }
  }

  /** An unsigned 32-bit number has at most eight nibbles. */
  lemma AtMostEightNibbles(n: int32)
    ensures HexLen(Unsigned(n)) <= 8
  {
    Powers();
    HexLenAtMost(Unsigned(n), 8);
  }

  /** Hexadecimal output of any int, likewise, in two digits at least if they fit. */
  lemma HexadecimalOfAnyLength(n: int32, maxLen: nat)
    requires maxLen > 0
    ensures Power(16, maxLen) > 0
    ensures |Text(n, 16, maxLen)| == Min(if HexLen(Unsigned(n)) < 2 then 2 else HexLen(Unsigned(n)), maxLen)
    ensures ParseHex(Text(n, 16, maxLen))
         == if HexLen(Unsigned(n)) <= maxLen then Unsigned(n) else Unsigned(n) % Power(16, maxLen)
  {
    hide HexLow, ParseHex, HexLen, Power;
    var u, len := Unsigned(n), |Text(n, 16, maxLen)|;
    AtMostEightNibbles(n);
    SameNibbles(n, len);
    HexLowReads(u, maxLen);
    if HexLen(u) <= maxLen {
      HexReadsBack(u, len);
    }
  }

  /** A negative int: the sign and the digits of a tenth of it, as many as fit. */
  lemma NegativeOfAnyLength(n: int32, maxLen: nat)
    requires -0x8000_0000 < n < 0 && maxLen > 0
    ensures maxLen <= 2 ==> Text(n, 10, maxLen) == [45]
    ensures maxLen > 2 ==>
              && Power(10, maxLen - 2) > 0
              && ReadSigned(Text(n, 10, maxLen))
              == Number(-(if DecLen(n) + 1 < maxLen then (-n) / 10 else (-n) / 10 % Power(10, maxLen - 2)))
  {
    hide DecLow, ParseDec, DecLen, Power;
    NegativeDigits(n);
    if maxLen > 2 {
      var len := Min(DecLen(n) + 1, maxLen - 1) - 1;
      AllButLastDigit(-n, len);
      DecLowReads((-n) / 10, maxLen - 2);
      if DecLen(n) + 1 < maxLen {
        DecReadsBack((-n) / 10, len);
      }
      assert Text(n, 10, maxLen) == [MINUS] + DecLow((-n) / 10, len);
      assert Text(n, 10, maxLen)[1..] == DecLow((-n) / 10, len);
    }
  }

  /** Nothing to print: no room, zero, or a radix that is not supported. */
  lemma PlainTexts(n: int32, radix: int, maxLen: nat)
    ensures Text(n, radix, 0) == []
    ensures maxLen > 0 && ((radix == 10 && n == 0) || radix !in {10, 16}) ==> Text(n, radix, maxLen) == [48]
  {
  }
}
