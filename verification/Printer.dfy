/** io.c: numbers as text. */
module Printer {
  import opened Bits

  type Int64 = n: int | -0x8000_0000_0000_0000 <= n < 0x8000_0000_0000_0000

  type Radix = r: int | r == 8 || r == 10 || r == 16 witness 8

  const HEX_CHARS := "0123456789abcdef"
  const BUFFER_SIZE := 32

  /** The value of n in 64-bit two's complement. */
  function Wrap64(n: int): Int64 {
    (n + 0x8000_0000_0000_0000) % W64 - 0x8000_0000_0000_0000
  }

  function Pow(r: Radix, k: nat): (p: nat)
    ensures p > 0
  {
    if k == 0 then 1 else MulPositive(r, Pow(r, k - 1))
  }

  function MulPositive(a: nat, b: nat): (p: nat)
    requires a > 0 && b > 0
    ensures p == a * b > 0
  {
    a * b
  }

  /** x after its i lowest digits are dropped. */
  function Shift(x: nat, i: nat, r: Radix): nat {
    if i == 0 then x else Shift(x, i - 1, r) / r
  }

  /** How many digits x has, at least one. */
  function Length(x: nat, r: Radix): (n: nat)
    ensures n > 0
  {
    if x < r then 1 else 1 + Length(x / r, r)
  }

  function Digit(d: nat): char
    requires d < 16
  {
    HEX_CHARS[d]
  }

  /** The k lowest digits of x, the highest of them first. */
  function Low(x: nat, k: nat, r: Radix): (s: string)
    ensures |s| == k
  {
    if k == 0 then "" else Low(x / r, k - 1, r) + [Digit(x % r)]
  }

  // ------------------------------------------------------------- what text means

  function DigitOf(c: char): nat {
    if '0' <= c <= '9' then (c - '0') as nat else if 'a' <= c <= 'f' then 10 + (c - 'a') as nat else 0
  }

  /** The number a digit string denotes. */
  function Value(s: string, r: Radix): nat {
    if s == "" then 0 else r * Value(s[..|s| - 1], r) + DigitOf(s[|s| - 1])
  }

  /** The number a string denotes that may start with a minus sign. */
  function Parse(s: string, r: Radix): int {
    if s != "" && s[0] == '-' then 0 - Value(s[1..], r) as int else Value(s, r)
  }

  lemma DigitRoundTrip(d: nat)
    requires d < 16
    ensures DigitOf(Digit(d)) == d && Digit(d) != '-'
    ensures Digit(d) == '0' <==> d == 0
  {
  }

  lemma LowStep(x: nat, k: nat, r: Radix)
    requires k > 0
    ensures Value(Low(x, k, r), r) == r * Value(Low(x / r, k - 1, r), r) + x % r
    ensures Pow(r, k) == r * Pow(r, k - 1)
    ensures Low(x, k, r)[k - 1] != '-' && forall i :: 0 <= i < k - 1 ==> Low(x, k, r)[i] == Low(x / r, k - 1, r)[i]
  {
    var s := Low(x / r, k - 1, r);
    DigitRoundTrip(x % r);
    assert (s + [Digit(x % r)])[..k - 1] == s;
  }

  lemma LowZero(x: nat, r: Radix)
    ensures Value(Low(x, 0, r), r) == 0 == x % Pow(r, 0)
  {
  }

  lemma OneDigit(x: nat, r: Radix)
    requires x < r
    ensures Length(x, r) == 1 && Pow(r, 1) == r && Low(x, 1, r)[0] == Digit(x)
  {
    DivUnique(x, r, 0, x);
    assert Pow(r, 1) == r * Pow(r, 0);
    assert Low(x, 1, r) == Low(x / r, 0, r) + [Digit(x % r)];
  }

  lemma MoreDigits(x: nat, r: Radix)
    requires x >= r
    ensures Length(x, r) == 1 + Length(x / r, r) && x / r > 0
  {
  }

  /** k digits denote x modulo r^k. */
  lemma {:induction false} LowValue(x: nat, k: nat, r: Radix)
    ensures Value(Low(x, k, r), r) == x % Pow(r, k)
    ensures forall i :: 0 <= i < k ==> Low(x, k, r)[i] != '-'
  {
    hide *;
    if k == 0 {
      LowZero(x, r);
    } else {
      LowStep(x, k, r);
      LowValue(x / r, k - 1, r);
      DivDiv(x, r, Pow(r, k - 1));
    }
  }

  /** Length(x, r) digits hold all of x, and the first of them is not a leading zero. */
  lemma {:induction false} LengthFits(x: nat, r: Radix)
    ensures x < Pow(r, Length(x, r))
    ensures x > 0 ==> Low(x, Length(x, r), r)[0] != '0'
  {
    hide *;
    if x >= r {
      MoreDigits(x, r);
      var q, n := x / r, Length(x / r, r);
      LengthFits(q, r);
      LowStep(x, n + 1, r);
      Scale(x, r, Pow(r, n));
    } else {
      OneDigit(x, r);
      DigitRoundTrip(x);
    }
  }

  lemma Scale(x: nat, r: nat, p: nat)
    requires r > 0 && x / r < p
    ensures x < r * p
  {
    MulMonotone(r, p, x / r + 1);
  }

  // -------------------------------------------------------------- what is printed

  predicate Negative(n: Int64, signed: bool) {
    signed && n < 0
  }

  /** |n| for a signed number, the 64-bit pattern of n otherwise. */
  function Magnitude(n: Int64, signed: bool): Word {
    if Negative(n, signed) then 0 - n as int else n % W64
  }

  function Body(x: nat, width: nat, r: Radix): string {
    Low(x, if width > 0 then width else Length(x, r), r)
  }

  function Printed(width: nat, n: Int64, signed: bool, r: Radix): string {
    (if Negative(n, signed) then "-" else "") + Body(Magnitude(n, signed), width, r)
  }

  lemma Small(x: nat, p: nat)
    requires x < p
    ensures x % p == x
  {
  }

  lemma ZeroText(r: Radix)
    ensures Low(0, Length(0, r), r) == "0"
  {
    OneDigit(0, r);
    assert Low(0, 1, r) == [Low(0, 1, r)[0]];
  }

  /** With width 0 the text denotes the number, for every 64-bit value. */
  lemma PrintedParses(n: Int64, signed: bool, r: Radix)
    ensures Parse(Printed(0, n, signed, r), r) == if signed then n else n % W64
    ensures var s, at := Printed(0, n, signed, r), if signed && n < 0 then 1 else 0;
      |s| > at && (n != 0 ==> s[at] != '0') && (n == 0 ==> s == "0")
  {
    hide Low, Pow, Length, Value;
    if n == 0 {
      ZeroText(r);
    }
    var x := Magnitude(n, signed);
    LowValue(x, Length(x, r), r);
    LengthFits(x, r);
    Small(x, Pow(r, Length(x, r)));
    var s := Printed(0, n, signed, r);
    if Negative(n, signed) {
      assert s[1..] == Body(x, 0, r);
    } else {
      assert s == Body(x, 0, r);
    }
  }

  /** With a width the text is that many digits, denoting |n| modulo radix^width. */
  lemma PrintedWidth(width: nat, n: Int64, signed: bool, r: Radix)
    requires width > 0
    ensures |Printed(width, n, signed, r)| == width + (if signed && n < 0 then 1 else 0)
    ensures var x := (if signed && n < 0 then 0 - n as int else n % W64) % Pow(r, width);
      Parse(Printed(width, n, signed, r), r) == if signed && n < 0 then 0 - x else x
    ensures signed && n < 0 ==> Printed(width, n, signed, r)[0] == '-'
  {
    hide Low, Pow, Value;
    LowValue(Magnitude(n, signed), width, r);
    var s := Printed(width, n, signed, r);
    if Negative(n, signed) {
      assert s[1..] == Body(Magnitude(n, signed), width, r);
    } else {
      assert s == Body(Magnitude(n, signed), width, r);
    }
  }

  // -------------------------------------------------------------------- the loop

  /** Negating the least integer wraps to itself, whose bit pattern is its magnitude. */
  lemma NegateWraps(n: Int64)
    requires n < 0
    ensures Wrap64(0 - n as int) % W64 == 0 - n as int
  {
  }

  lemma {:induction false} ShiftShift(x: nat, i: nat, r: Radix)
    ensures Shift(x / r, i, r) == Shift(x, i + 1, r)
  {
    if i > 0 {
      ShiftShift(x, i - 1, r);
    }
  }

  /** The digits as the buffer holds them, lowest first. */
  lemma {:induction false} LowAt(x: nat, k: nat, r: Radix, i: nat)
    requires i < k
    ensures Low(x, k, r)[k - 1 - i] == Digit(Shift(x, i, r) % r)
  {
    hide *;
    if i == 0 {
      LowLast(x, k, r);
    } else {
      LowStep(x, k, r);
      LowAt(x / r, k - 1, r, i - 1);
      ShiftShift(x, i - 1, r);
    }
  }

  lemma LowLast(x: nat, k: nat, r: Radix)
    requires k > 0
    ensures Low(x, k, r)[k - 1] == Digit(Shift(x, 0, r) % r)
  {
  }

  /** 64 bits are at most 22 digits in any of the radices. */
  function Bound(i: nat): nat {
    if i == 0 then W64 else (Bound(i - 1) + 7) / 8
  }

  lemma {:induction false} ShiftBound(x: Word, i: nat, r: Radix)
    ensures Shift(x, i, r) < Bound(i)
  {
    if i > 0 {
      ShiftBound(x, i - 1, r);
      var y := Shift(x, i - 1, r);
      assert r == 8 || r == 10 || r == 16;
      assert y / r <= y / 8;
    }
  }

  lemma BoundEnds()
    ensures Bound(21) == 2
  {
    assert Bound(4) == 0x10_0000_0000_0000;
    assert Bound(8) == 0x100_0000_0000;
    assert Bound(12) == 0x1000_0000;
    assert Bound(16) == 0x1_0000;
    assert Bound(20) == 0x10;
  }

  lemma {:induction false} LengthIs(x: nat, i: nat, r: Radix)
    requires Shift(x, i, r) < r && (i > 0 ==> Shift(x, i - 1, r) >= r)
    requires forall j: nat :: j < i ==> Shift(x, j, r) >= r
    ensures Length(x, r) == i + 1
  {
    if i > 0 {
      assert Shift(x, 0, r) >= r;
      forall j: nat | j < i
        ensures Shift(x / r, j, r) == Shift(x, j + 1, r)
      {
        ShiftShift(x, j, r);
      }
      LengthIs(x / r, i - 1, r);
    }
  }

  // --------------------------------------------------------------- the printers

  /** The buffer has room for the digits and the sign. */
  predicate Fits(width: nat, n: Int64, signed: bool) {
    width + (if Negative(n, signed) then 1 else 0) <= BUFFER_SIZE
  }

  /** The part both printers share: the characters in reverse order, in buffer[..pos];
      counter is the number of digits. */
  method FillBuffer(buffer: array<char>, width: nat, n: Int64, signed: bool, radix: Radix)
    returns (pos: nat, counter: nat)
    requires buffer.Length == BUFFER_SIZE && forall i :: 0 <= i < BUFFER_SIZE ==> buffer[i] == '0'
    requires Fits(width, n, signed)
    modifies buffer
    ensures pos == |Printed(width, n, signed, radix)| <= BUFFER_SIZE
    ensures forall i :: 0 <= i < pos ==> buffer[i] == Printed(width, n, signed, radix)[pos - 1 - i]
    ensures counter == pos - (if Negative(n, signed) then 1 else 0)
  {
    hide Printed, Body, Low, Shift, Length, Pow, Digit;
    var x: Word;
    if signed && n < 0 {
      NegateWraps(n);
      x := Wrap64(0 - n as int) % W64;
    } else {
      x := n % W64;
    }
    ghost var mag := Magnitude(n, signed);
    assert x == mag;
    pos := FillDigits(buffer, x, radix);
    if width > 0 {
      pos := pos + (width - pos);
    }
    counter := pos;
    BodyLength(mag, width, radix);
    forall i: nat | i < pos
      ensures buffer[i] == Body(mag, width, radix)[pos - 1 - i]
    {
      BodyAt(mag, width, radix, i);
    }
    if signed && n < 0 {
      buffer[pos] := '-';
      pos := pos + 1;
    }
    PrintedIs(width, n, signed, radix);
  }

  /** The digit loop: buffer holds the digits of x, lowest first, and pos is how many. */
  method FillDigits(buffer: array<char>, number: Word, radix: Radix) returns (pos: nat)
    requires buffer.Length == BUFFER_SIZE && forall i :: 0 <= i < BUFFER_SIZE ==> buffer[i] == '0'
    modifies buffer
    ensures pos == Length(number, radix) <= 22
    ensures forall i: nat :: i < BUFFER_SIZE ==> buffer[i] == Digit(Shift(number, i, radix) % radix)
  {
    hide Shift, Length, Digit;
    var x := number;
    pos := 0;
    ShiftStart(number, radix);
    while x >= radix
      invariant x == Shift(number, pos, radix) && pos <= 21
      invariant forall i: nat :: i < pos ==> Shift(number, i, radix) >= radix
      invariant forall i: nat :: i < pos ==> buffer[i] == Digit(Shift(number, i, radix) % radix)
      invariant forall i :: pos <= i < BUFFER_SIZE ==> buffer[i] == '0'
      decreases x
    {
      AtMost21(number, pos, radix);
      ShiftNext(number, pos, radix);
      buffer[pos] := Digit(x % radix);
      pos := pos + 1;
      x := x / radix;
    }
    LengthIs(number, pos, radix);
    buffer[pos] := Digit(x % radix);
    pos := pos + 1;
    forall i: nat | pos <= i < BUFFER_SIZE
      ensures Digit(Shift(number, i, radix) % radix) == '0'
    {
      ShiftZero(number, pos, i, radix);
      ZeroDigit(radix);
    }
  }

  lemma ZeroDigit(r: Radix)
    ensures Digit(0 % r) == '0'
  {
  }

  lemma ShiftStart(x: Word, r: Radix)
    ensures Shift(x, 0, r) == x
  {
  }

  lemma ShiftNext(x: Word, i: nat, r: Radix)
    requires Shift(x, i, r) >= r
    ensures Shift(x, i + 1, r) == Shift(x, i, r) / r < Shift(x, i, r)
  {
  }

  lemma BodyLength(x: nat, width: nat, r: Radix)
    ensures |Body(x, width, r)| == if width > 0 then width else Length(x, r)
  {
  }

  lemma BodyAt(x: nat, width: nat, r: Radix, i: nat)
    requires i < |Body(x, width, r)|
    ensures Body(x, width, r)[|Body(x, width, r)| - 1 - i] == Digit(Shift(x, i, r) % r)
  {
    LowAt(x, |Body(x, width, r)|, r, i);
  }

  lemma PrintedIs(width: nat, n: Int64, signed: bool, r: Radix)
    ensures var b, s := Body(Magnitude(n, signed), width, r), Printed(width, n, signed, r);
      && (Negative(n, signed) ==> |s| == 1 + |b| && s[0] == '-' && forall i :: 0 <= i < |b| ==> s[i + 1] == b[i])
      && (!Negative(n, signed) ==> s == b)
  {
    var b, s := Body(Magnitude(n, signed), width, r), Printed(width, n, signed, r);
    if Negative(n, signed) {
      assert s == "-" + b;
    } else {
      assert s == b;
    }
  }

  lemma AtMost21(x: Word, i: nat, r: Radix)
    requires i <= 21 && Shift(x, i, r) >= r
    ensures i < 21
  {
    ShiftBound(x, i, r);
    BoundEnds();
  }

  /** Above its highest digit a number has zeros. */
  lemma {:induction false} ShiftZero(x: nat, n: nat, i: nat, r: Radix)
    requires n > 0 && i >= n && Shift(x, n - 1, r) < r
    ensures Shift(x, i, r) == 0
  {
    if i > n {
      ShiftZero(x, n, i - 1, r);
    }
  }

  /** print_number: out collects what putc gets. */
  method PrintNumber(width: nat, n: Int64, signed: bool, radix: Radix) returns (out: string, counter: nat)
    requires Fits(width, n, signed)
    ensures out == Printed(width, n, signed, radix)
    ensures counter == |out| - (if Negative(n, signed) then 1 else 0)
  {
    hide Printed, Fits;
    var buffer := new char[BUFFER_SIZE](_ => '0');
    var pos: nat;
    pos, counter := FillBuffer(buffer, width, n, signed, radix);
    ghost var text := Printed(width, n, signed, radix);
    out := "";
    while pos > 0
      invariant pos <= |text| <= BUFFER_SIZE && out == text[..|text| - pos]
      invariant forall i :: 0 <= i < |text| ==> buffer[i] == text[|text| - 1 - i]
    {
      pos := pos - 1;
      assert buffer[pos] == text[|text| - 1 - pos];
      out := out + [buffer[pos]];
    }
  }

  /** print_number_buffer: *buf is dest + at, and advances over the characters written. */
  method PrintNumberBuffer(dest: array<char>, at: nat, width: nat, n: Int64, signed: bool, radix: Radix)
    returns (end: nat, counter: nat)
    requires Fits(width, n, signed) && at + |Printed(width, n, signed, radix)| <= dest.Length
    modifies dest
    ensures end == at + |Printed(width, n, signed, radix)| && dest[at..end] == Printed(width, n, signed, radix)
    ensures forall i :: 0 <= i < dest.Length && !(at <= i < end) ==> dest[i] == old(dest[i])
    ensures counter == end - at - (if Negative(n, signed) then 1 else 0)
  {
    hide Printed, Fits;
    var buffer := new char[BUFFER_SIZE](_ => '0');
    var pos: nat;
    pos, counter := FillBuffer(buffer, width, n, signed, radix);
    ghost var text := Printed(width, n, signed, radix);
    end := at;
    while pos > 0
      invariant pos <= |text| <= BUFFER_SIZE && end == at + |text| - pos && dest[at..end] == text[..|text| - pos]
      invariant forall i :: 0 <= i < |text| ==> buffer[i] == text[|text| - 1 - i]
      invariant forall i :: 0 <= i < dest.Length && !(at <= i < end) ==> dest[i] == old(dest[i])
    {
      pos := pos - 1;
      assert buffer[pos] == text[|text| - 1 - pos];
      dest[end] := buffer[pos];
      end := end + 1;
    }
  }

  /** The buffer has room for every number without a width, and for every width below 32. */
  lemma AlwaysFits(width: nat, n: Int64, signed: bool, r: Radix)
    ensures |Printed(0, n, signed, r)| <= 23
    ensures width <= 31 ==> |Printed(width, n, signed, r)| <= BUFFER_SIZE && Fits(width, n, signed)
    ensures width > 0 ==> (Fits(width, n, signed) <==> |Printed(width, n, signed, r)| <= BUFFER_SIZE)
  {
    LengthBound(Magnitude(n, signed), 0, r);
  }

  lemma {:induction false} LengthBound(x: Word, i: nat, r: Radix)
    requires i <= 21
    ensures Length(Shift(x, i, r), r) <= 22 - i
    decreases 21 - i
  {
    if Shift(x, i, r) >= r {
      AtMost21(x, i, r);
      LengthBound(x, i + 1, r);
    }
  }
}
