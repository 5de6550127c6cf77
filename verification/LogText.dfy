/** Text as the log stores it: fixed-width hexadecimal numbers and cleaned strings. */
module LogText {
  import opened NorFlash

  // ---------------------------------------------------------------- hexadecimal numbers

  const NUL: Byte := 0x00
  const ZERO: Byte := 0x30
  const LOWER_X: Byte := 0x78
  const UPPER_X: Byte := 0x58
  const PLUS: Byte := 0x2B

  /** The sixteen digits '0'..'9', 'A'..'F'. */
  const DIGITS: seq<Byte> := [0x30, 0x31, 0x32, 0x33, 0x34, 0x35, 0x36, 0x37, 0x38, 0x39, 0x41, 0x42, 0x43, 0x44, 0x45, 0x46]

  function Digit(d: nat): Byte
    requires d < 16
  {
    DIGITS[d]
  }

  /** The value of a hexadecimal digit of either case, or -1. */
  function DigitValue(c: Byte): (d: int)
    ensures -1 <= d < 16
  {
    if c == 0x30 then 0 else if c == 0x31 then 1 else if c == 0x32 then 2 else if c == 0x33 then 3
    else if c == 0x34 then 4 else if c == 0x35 then 5 else if c == 0x36 then 6 else if c == 0x37 then 7
    else if c == 0x38 then 8 else if c == 0x39 then 9
    else if c == 0x41 || c == 0x61 then 10 else if c == 0x42 || c == 0x62 then 11 else if c == 0x43 || c == 0x63 then 12
    else if c == 0x44 || c == 0x64 then 13 else if c == 0x45 || c == 0x65 then 14 else if c == 0x46 || c == 0x66 then 15
    else -1
  }

  function Pow16(k: nat): (p: nat)
    ensures p >= 1
  {
    if k == 0 then 1 else 16 * Pow16(k - 1)
  }

  /** The last k hexadecimal digits of n, most significant first. */
  function Hex(n: nat, k: nat): (s: seq<Byte>)
    ensures |s| == k
  {
    if k == 0 then [] else Hex(n / 16, k - 1) + [Digit(n % 16)]
  }

  /** The digits from the front, up to the first character that is none. */
  function ParseDigits(s: seq<Byte>, acc: nat): nat {
    if s == [] || DigitValue(s[0]) < 0 then acc else ParseDigits(s[1..], 16 * acc + DigitValue(s[0]))
  }

  predicate IsSpace(c: Byte) {
    c == 0x20 || 0x09 <= c <= 0x0D
  }

  function SkipSpace(s: seq<Byte>): seq<Byte> {
    if s != [] && IsSpace(s[0]) then SkipSpace(s[1..]) else s
  }

  /** The digits behind an optional "0x". */
  function Magnitude(s: seq<Byte>): nat {
    if |s| >= 2 && s[0] == ZERO && (s[1] == LOWER_X || s[1] == UPPER_X) then ParseDigits(s[2..], 0) else ParseDigits(s, 0)
  }

  /** strtoul in base 16: leading space, a sign, then the digits. What does not fit in 32 bits is the largest number;
      a minus negates in 32 bits. */
  function StrToUl(s: seq<Byte>): (n: nat)
    ensures n < 0x1_0000_0000
  {
    var t := SkipSpace(s);
    var signed := t != [] && (t[0] == PLUS || t[0] == DASH);
    var v := Magnitude(if signed then t[1..] else t);
    if v >= 0x1_0000_0000 then 0xFFFF_FFFF
    else if signed && t[0] == DASH && v > 0 then 0x1_0000_0000 - v
    else v
  }

  /** The digits are those of ASCII, capitals when printed and of either case when read. */
  lemma DigitsOfAscii(d: nat, c: Byte)
    requires d < 16
    ensures Digit(d) as int == if d < 10 then 0x30 + d else 0x41 + (d - 10)
    ensures DigitValue(c) == if 0x30 <= c <= 0x39 then c as int - 0x30
                             else if 0x41 <= c <= 0x46 then c as int - 0x41 + 10
                             else if 0x61 <= c <= 0x66 then c as int - 0x61 + 10
                             else -1
  {
  }

  lemma NulIsNoDigit()
    ensures DigitValue(NUL) < 0
  {
  }

  lemma DigitValues(d: nat)
    requires d < 16
    ensures DigitValue(Digit(d)) == d && Digit(d) != LOWER_X && Digit(d) != UPPER_X && Digit(d) != NUL && Digit(d) != ERASED
    ensures !IsSpace(Digit(d)) && Digit(d) != PLUS && Digit(d) != DASH
  {
  }

  /** acc followed by k zero digits. */
  function Shl(acc: nat, k: nat): nat {
    if k == 0 then acc else 16 * Shl(acc, k - 1)
  }

  lemma {:induction false} ShlZero(k: nat)
    ensures Shl(0, k) == 0
  {
    if k == 0 {
    } else {
      ShlZero(k - 1);
    }
  }

  lemma {:induction false} ParseHex(n: nat, k: nat, rest: seq<Byte>, acc: nat)
    requires n < Pow16(k)
    ensures ParseDigits(Hex(n, k) + rest, acc) == ParseDigits(rest, Shl(acc, k) + n)
    decreases k
  {
    hide DigitValue, Digit;
    if k == 0 {
      assert Hex(n, k) + rest == rest;
    } else {
      var low := [Digit(n % 16)];
      assert Hex(n, k) + rest == Hex(n / 16, k - 1) + (low + rest);
      ParseHex(n / 16, k - 1, low + rest, acc);
      DigitValues(n % 16);
      assert (low + rest)[1..] == rest;
    }
  }

  /** A printed number reads back, bare or behind "0x" and ended by a NUL. */
  lemma HexRoundTrip(n: nat)
    requires n < 0x1_0000_0000
    ensures StrToUl(Hex(n, 8)) == n
    ensures StrToUl([ZERO, LOWER_X] + Hex(n, 8) + [NUL]) == n
  {
    hide DigitValue, Digit, Hex, Pow16, Shl;
    Pow16Of8();
    NulIsNoDigit();
    ShlZero(8);
    var h := Hex(n, 8);
    FirstDigits(n, 8);
    assert Magnitude(h) == n by {
      ParseHex(n, 8, [], 0);
      assert h + [] == h;
    }
    Unsigned(h);
    var s := [ZERO, LOWER_X] + h + [NUL];
    assert Magnitude(s) == n by {
      assert s[2..] == h + [NUL];
      ParseHex(n, 8, [NUL], 0);
    }
    Unsigned(s);
  }

  /** A number is read behind any space, with or without "0x", up to the first character that is no digit; a larger one than
      32 bits as the largest, and one behind a minus as its negative in 32 bits. */
  lemma NumberIsRead(space: seq<Byte>, n: nat, k: nat, rest: seq<Byte>)
    requires (forall i | 0 <= i < |space| :: space[i] == 0x20 || 0x09 <= space[i] <= 0x0D) && k >= 2 && n < Pow16(k)
    requires rest == [] || DigitValue(rest[0]) < 0
    ensures var digits, max := Hex(n, k) + rest, 0xFFFF_FFFF;
            && StrToUl(space + digits) == StrToUl(space + ([ZERO, LOWER_X] + digits)) == StrToUl(space + ([PLUS] + digits))
               == (if n < max then n else max)
            && StrToUl(space + ([DASH] + digits)) == if n == 0 then 0 else if n <= max then max + 1 - n else max
  {
    var digits := Hex(n, k) + rest;
    DigitsAreRead(n, k, rest);
    SpaceSkipped(space, digits);
    SpaceSkipped(space, [ZERO, LOWER_X] + digits);
    SpaceSkipped(space, [PLUS] + digits);
    SpaceSkipped(space, [DASH] + digits);
    assert ([PLUS] + digits)[1..] == digits == ([DASH] + digits)[1..];
  }

  lemma DigitsAreRead(n: nat, k: nat, rest: seq<Byte>)
    requires k >= 2 && n < Pow16(k) && (rest == [] || DigitValue(rest[0]) < 0)
    ensures var s := Hex(n, k) + rest;
            && Magnitude(s) == Magnitude([ZERO, LOWER_X] + s) == n
            && s != [] && !IsSpace(s[0]) && s[0] != PLUS && s[0] != DASH
  {
    hide DigitValue, Hex, Pow16, Shl;
    var s := Hex(n, k) + rest;
    FirstDigits(n, k);
    ShlZero(k);
    ParseHex(n, k, rest, 0);
    assert ([ZERO, LOWER_X] + s)[2..] == s;
  }

  lemma {:induction false} SpaceSkipped(space: seq<Byte>, s: seq<Byte>)
    requires (forall i | 0 <= i < |space| :: IsSpace(space[i])) && s != [] && !IsSpace(s[0])
    ensures StrToUl(space + s) == StrToUl(s) && SkipSpace(space + s) == s
  {
    if space == [] {
      assert space + s == s;
    } else {
      SpaceSkipped(space[1..], s);
      assert (space + s)[1..] == space[1..] + s;
    }
  }

  /** Text that starts with a digit has no space or sign to skip. */
  lemma Unsigned(s: seq<Byte>)
    requires s != [] && !IsSpace(s[0]) && s[0] != PLUS && s[0] != DASH && Magnitude(s) < 0x1_0000_0000
    ensures StrToUl(s) == Magnitude(s)
  {
    hide Magnitude;
  }

  lemma Pow16Of8()
    ensures Pow16(8) == 0x1_0000_0000
  {
    assert Pow16(4) == 16 * 16 * 16 * 16;
    assert Pow16(6) == 256 * Pow16(4);
  }

  /** A printed number starts with digits. */
  lemma {:induction false} FirstDigits(n: nat, k: nat)
    requires k >= 2
    ensures !IsSpace(Hex(n, k)[0]) && Hex(n, k)[0] != PLUS && Hex(n, k)[0] != DASH
    ensures Hex(n, k)[1] != LOWER_X && Hex(n, k)[1] != UPPER_X
    decreases k
  {
    if k == 2 {
      DigitValues(n % 16);
      DigitValues((n / 16) % 16);
      assert Hex(n, 2) == Hex(n / 16, 1) + [Digit(n % 16)] && Hex(n / 16, 1) == Hex(n / 16 / 16, 0) + [Digit((n / 16) % 16)];
    } else {
      FirstDigits(n / 16, k - 1);
    }
  }

  lemma {:induction false} HexIsText(n: nat, k: nat)
    ensures forall i | 0 <= i < k :: Hex(n, k)[i] != NUL && Hex(n, k)[i] != ERASED
    decreases k
  {
    if k == 0 {
    } else {
      HexIsText(n / 16, k - 1);
      DigitValues(n % 16);
    }
  }

  /** n shifted down by k nibbles. */
  function Shr(n: nat, k: nat): nat {
    if k == 0 then n else Shr(n, k - 1) / 16
  }

  /** Prints a 32-bit number as eight digits, shifting its nibbles down from the top. */
  method WriteNum(n: nat) returns (buf: seq<Byte>)
    requires n < 0x1_0000_0000
    ensures buf == Hex(n, 8)
  {
    hide Digit;
    buf := [];
    var sh := 28;
    while sh >= 0
      invariant -4 <= sh <= 28 && sh % 4 == 0
      invariant buf == Hex(Shr(n, sh / 4 + 1), 7 - sh / 4)
      decreases sh + 4
    {
      var d := Shr(n, sh / 4) % 16;
      buf := buf + [Digit(d)];
      sh := sh - 4;
    }
  }

  // ---------------------------------------------------------------- cleaning

  const TAB: Byte := 0x09
  const NEWLINE: Byte := 0x0A
  const COMMA: Byte := 0x2C
  const DASH: Byte := 0x2D
  const GREATER: Byte := 0x3E
  const INVALID_CHAR: Byte := 0x5F

  /** The end of the comment that holds the log in its HTML page. */
  predicate ArrowAt(s: seq<Byte>, i: int) {
    0 <= i && i + 2 < |s| && s[i] == DASH && s[i + 1] == DASH && s[i + 2] == GREATER
  }

  predicate Separator(c: Byte, separators: bool) {
    c == TAB || (separators && (c == COMMA || c == NEWLINE))
  }

  /** Character j must go because of an arrow or separator that starts before position n. */
  predicate DirtyBelow(s: seq<Byte>, j: int, n: int, separators: bool)
    requires 0 <= j < |s|
  {
    || (j < n && (ArrowAt(s, j) || Separator(s[j], separators)))
    || (j - 1 < n && ArrowAt(s, j - 1))
    || (j - 2 < n && ArrowAt(s, j - 2))
  }

  function CleanedBelow(s: seq<Byte>, n: int, separators: bool): (r: seq<Byte>)
    ensures |r| == |s|
    ensures forall j | 0 <= j < |r| :: r[j] == if DirtyBelow(s, j, n, separators) then INVALID_CHAR else s[j]
  {
    seq(|s|, j requires 0 <= j < |s| => if DirtyBelow(s, j, n, separators) then INVALID_CHAR else s[j])
  }

  function Cleaned(s: seq<Byte>, separators: bool): (r: seq<Byte>)
    ensures |r| == |s|
  {
    CleanedBelow(s, |s|, separators)
  }

  /** A cleaned copy of the string, or nothing if it is clean already. */
  method CleanBuffer(s: seq<Byte>, separators: bool) returns (out: seq<Byte>)
    ensures out == [] || out == Cleaned(s, separators)
    ensures out == [] ==> Cleaned(s, separators) == s
  {
    out := [];
    for i := 0 to |s|
      invariant out == [] || out == CleanedBelow(s, i, separators)
      invariant out == [] ==> CleanedBelow(s, i, separators) == s
    {
      out := CleanAt(s, i, separators, out);
    }
  }

  /** One round of the cleaning: the first character to change makes a copy of the string. */
  method CleanAt(s: seq<Byte>, i: nat, separators: bool, before: seq<Byte>) returns (out: seq<Byte>)
    requires i < |s|
    requires before == [] || before == CleanedBelow(s, i, separators)
    requires before == [] ==> CleanedBelow(s, i, separators) == s
    ensures out == [] || out == CleanedBelow(s, i + 1, separators)
    ensures out == [] ==> CleanedBelow(s, i + 1, separators) == s
  {
    hide CleanedBelow;
    ghost var was, goal := CleanedBelow(s, i, separators), CleanedBelow(s, i + 1, separators);
    out := before;
    if i + 2 < |s| && s[i] == DASH && s[i + 1] == DASH && s[i + 2] == GREATER {
      if |out| == 0 {
        out := s;
      }
      out := out[i := INVALID_CHAR];
      out := out[i + 1 := INVALID_CHAR];
      out := out[i + 2 := INVALID_CHAR];
    }
    if s[i] == TAB || (separators && (s[i] == COMMA || s[i] == NEWLINE)) {
      if |out| == 0 {
        out := s;
      }
      out := out[i := INVALID_CHAR];
    }
    if out == [] {
      assert goal == s;
    } else {
      assert out == goal;
    }
  }

  /** The text "-->" at a place. */
  predicate EndsComment(s: seq<Byte>, i: int) {
    0 <= i && i + 3 <= |s| && s[i..i + 3] == [0x2D, 0x2D, 0x3E]
  }

  /** Exactly the bytes of "-->", the tabs and, if asked for, commas and newlines become underscores. */
  lemma CleanedExactly(s: seq<Byte>, separators: bool, j: nat)
    requires j < |s|
    ensures var dirty := || s[j] == 0x09 || (separators && (s[j] == 0x2C || s[j] == 0x0A))
                         || EndsComment(s, j) || EndsComment(s, j - 1) || EndsComment(s, j - 2);
            Cleaned(s, separators)[j] == if dirty then 0x5F else s[j]
  {
    forall i ensures EndsComment(s, i) <==> ArrowAt(s, i) {
      if 0 <= i && i + 3 <= |s| { assert s[i..i + 3] == [s[i], s[i + 1], s[i + 2]]; }
    }
  }

  /** A cleaned string has no arrow, no tab and, if asked for, no separator left. */
  lemma CleanedIsClean(s: seq<Byte>, separators: bool)
    ensures forall i :: !ArrowAt(Cleaned(s, separators), i)
    ensures forall i | 0 <= i < |s| :: !Separator(Cleaned(s, separators)[i], separators)
  {
    var r := Cleaned(s, separators);
    forall i ensures !ArrowAt(r, i) {
      assert ArrowAt(r, i) ==> ArrowAt(s, i);
    }
  }

  lemma CleaningIsIdempotent(s: seq<Byte>, separators: bool)
    ensures Cleaned(Cleaned(s, separators), separators) == Cleaned(s, separators)
  {
    CleanedIsClean(s, separators);
  }

  /** Cleaning brings in no byte but the replacement. */
  lemma CleaningKeepsText(s: seq<Byte>, separators: bool, c: Byte)
    requires c !in s && c != INVALID_CHAR
    ensures c !in Cleaned(s, separators)
  {
  }
}
