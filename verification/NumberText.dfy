/** Numbers as text: `dec2str` and `hex2str` fill a static buffer backwards and reverse it. */
module NumberText {
  import opened Bits
  import opened Options

  const NUL: Byte := 0
  const ZERO: Byte := 0x30       // '0'
  const MINUS: Byte := 0x2D      // '-'
  const LETTER_X: Byte := 0x78   // 'x'
  const BUFFER_SIZE: nat := 80
  const HEX_DIGITS: seq<Byte> :=
    [0x30, 0x31, 0x32, 0x33, 0x34, 0x35, 0x36, 0x37, 0x38, 0x39, 0x41, 0x42, 0x43, 0x44, 0x45, 0x46]

  type Int32 = i: int | -0x8000_0000 <= i < 0x8000_0000
  const INT_MIN: Int32 := -0x8000_0000

  function DigitChar(d: nat): Byte
    requires d < 16
  {
    HEX_DIGITS[d]
  }

  /** The digits of n, least significant first; none for 0. */
  function DigitsBackwards(n: nat, base: nat): seq<Byte>
    requires 2 <= base <= 16
  {
    if n == 0 then [] else [DigitChar(n % base)] + DigitsBackwards(n / base, base)
  }

  function Reversed(s: seq<Byte>): (r: seq<Byte>)
    ensures |r| == |s|
    ensures forall k :: 0 <= k < |s| ==> r[k] == s[|s| - 1 - k]
  {
    if s == [] then [] else Reversed(s[1..]) + [s[0]]
  }

  // ----- reading text back -----

  function DigitValue(c: Byte): Option<nat> {
    if 0x30 <= c <= 0x39 then Some(c - 0x30)
    else if 0x41 <= c <= 0x46 then Some(c - 0x41 + 10)
    else None
  }

  /** The number a digit string denotes, most significant digit first. */
  function ParseDigits(s: seq<Byte>, base: nat): Option<nat>
    requires 2 <= base <= 16
  {
    if s == [] then Some(0)
    else
      match (ParseDigits(s[..|s| - 1], base), DigitValue(s[|s| - 1]))
      case (Some(high), Some(d)) => if d < base then Some(high * base + d) else None
      case _ => None
  }

  function ParseDecimal(s: seq<Byte>): Option<int> {
    if s == [] then None
    else if s[0] == MINUS then
      match ParseDigits(s[1..], 10)
      case Some(n) => if |s| > 1 then Some(0 - n) else None
      case None => None
    else
      match ParseDigits(s, 10)
      case Some(n) => Some(n)
      case None => None
  }

  function ParseHex(s: seq<Byte>): Option<nat> {
    if |s| > 2 && s[0] == ZERO && s[1] == LETTER_X then ParseDigits(s[2..], 16) else None
  }

  // ----- what the two functions write -----

  /** The text `dec2str` leaves in its buffer, before the reversal. */
  function DecBackwards(number: Int32): seq<Byte> {
    if number == 0 then [ZERO]
    else if number > 0 then DigitsBackwards(number, 10)
    else if number == INT_MIN then [MINUS]   // -number overflows back to INT_MIN, so no digit is written
    else DigitsBackwards(-number, 10) + [MINUS]
  }

  function DecText(number: Int32): seq<Byte> {
    Reversed(DecBackwards(number))
  }

  function HexBackwards(number: Word32): seq<Byte> {
    (if number == 0 then [ZERO] else DigitsBackwards(number, 16)) +
    (if number < 0x10 then [ZERO] else []) + [LETTER_X, ZERO]
  }

  function HexText(number: Word32): seq<Byte> {
    Reversed(HexBackwards(number))
  }

  // ----- round trips -----

  lemma DigitCharRoundTrip(d: nat)
    requires d < 16
    ensures DigitValue(DigitChar(d)) == Some(d)
    ensures DigitChar(d) != MINUS && DigitChar(d) != NUL && (DigitChar(d) == ZERO <==> d == 0)
  {
  }

  lemma ReversedStep(s: seq<Byte>)
    requires s != []
    ensures Reversed(s)[..|s| - 1] == Reversed(s[1..]) && Reversed(s)[|s| - 1] == s[0]
  {
  }

  lemma QuotientSmaller(n: nat, base: nat)
    requires n > 0 && base >= 2
    ensures n / base < n && n / base * base + n % base == n
    ensures n < base ==> n / base == 0 && n % base == n
    ensures n >= base ==> n / base > 0
  {
    var q := n / base;
    assert n == base * q + n % base;
    assert base * q >= 2 * q;
  }

  lemma ParseLastDigit(s: seq<Byte>, base: nat, high: nat, d: nat)
    requires 2 <= base <= 16 && s != [] && d < base
    requires ParseDigits(s[..|s| - 1], base) == Some(high) && DigitValue(s[|s| - 1]) == Some(d)
    ensures ParseDigits(s, base) == Some(high * base + d)
  {
  }

  /** Reading the reversed digits gives the number back. */
  lemma {:induction false} DigitsRoundTrip(n: nat, base: nat)
    requires 2 <= base <= 16
    ensures ParseDigits(Reversed(DigitsBackwards(n, base)), base) == Some(n)
    decreases n
  {
    if n == 0 {
      assert Reversed([]) == [];
    } else {
      hide DigitChar, DigitValue, Reversed, ParseDigits;
      var s := DigitsBackwards(n, base);
      QuotientSmaller(n, base);
      ReversedStep(s);
      DigitCharRoundTrip(n % base);
      assert s[1..] == DigitsBackwards(n / base, base);
      DigitsRoundTrip(n / base, base);
      ParseLastDigit(Reversed(s), base, n / base, n % base);
    }
  }

  /** The digits of a positive number are digits, without a leading zero. */
  lemma {:induction false} DigitsShape(n: nat, base: nat)
    requires 2 <= base <= 16 && n > 0
    ensures var s := DigitsBackwards(n, base);
            && s != [] && s[|s| - 1] != ZERO
            && forall k :: 0 <= k < |s| ==> s[k] != NUL && s[k] != MINUS
    decreases n
  {
    hide DigitChar;
    DigitCharRoundTrip(n % base);
    QuotientSmaller(n, base);
    if n >= base {
      DigitsShape(n / base, base);
    }
  }

  function Power(base: nat, k: nat): (r: nat)
    requires base > 0
    ensures r > 0
  {
    if k == 0 then 1 else base * Power(base, k - 1)
  }

  lemma PowerStep(base: nat, k: nat)
    requires base > 0 && k > 0
    ensures Power(base, k) == base * Power(base, k - 1)
  {
  }

  lemma DivideBelow(n: nat, base: nat, p: nat)
    requires base > 0
    ensures n / base < p <==> n < base * p
  {
    if n / base < p {
      assert n / base <= p - 1;
      assert base * (n / base) <= base * (p - 1) == base * p - base;
    } else {
      assert base * (n / base) >= base * p;
    }
  }

  lemma {:induction false} DigitCount(n: nat, base: nat, k: nat)
    requires 2 <= base <= 16
    ensures |DigitsBackwards(n, base)| <= k <==> n < Power(base, k)
    decreases n
  {
    hide DigitChar;
    if n == 0 {
    } else if k == 0 {
    } else {
      QuotientSmaller(n, base);
      DigitCount(n / base, base, k - 1);
      hide Power;
      PowerStep(base, k);
      DivideBelow(n, base, Power(base, k - 1));
    }
  }

  lemma PositiveText(n: nat)
    requires n > 0
    ensures var t := Reversed(DigitsBackwards(n, 10));
            t != [] && t[0] != ZERO && t[0] != MINUS && ParseDigits(t, 10) == Some(n)
  {
    DigitsRoundTrip(n, 10);
    DigitsShape(n, 10);
  }

  lemma {:induction false} ParseLeadingZero(s: seq<Byte>, base: nat)
    requires 2 <= base <= 16
    ensures ParseDigits([ZERO] + s, base) == ParseDigits(s, base)
  {
    if s != [] {
      ParseLeadingZero(s[..|s| - 1], base);
      assert ([ZERO] + s)[..|s|] == [ZERO] + s[..|s| - 1];
    }
  }

  lemma ParseZeros()
    ensures ParseDigits([ZERO, ZERO], 16) == Some(0) && ParseDigits([ZERO], 10) == Some(0)
  {
    ParseLeadingZero([], 10);
    ParseLeadingZero([], 16);
    ParseLeadingZero([ZERO], 16);
    assert [ZERO] + [] == [ZERO] && [ZERO] + [ZERO] == [ZERO, ZERO];
  }

  /** Parsing the text of `dec2str` as a signed decimal gives the number back exactly when the
      number is not the least 32-bit integer; the text has no leading zero except for 0. */
  lemma DecRoundTripIff(number: Int32)
    ensures ParseDecimal(DecText(number)) == Some(number) <==> number != INT_MIN
    ensures number != 0 ==> DecText(number)[if number < 0 && number != INT_MIN then 1 else 0] != ZERO
    ensures number == 0 ==> DecText(number) == [ZERO]
    ensures number == INT_MIN ==> DecText(number) == [MINUS]
  {
    hide DigitsBackwards, Reversed, ParseDigits, DigitValue;
    if number > 0 {
      PositiveText(number);
    } else if number < 0 && number != INT_MIN {
      PositiveText(-number);
      assert DecText(number)[1..] == Reversed(DigitsBackwards(-number, 10));
    } else {
      ParseZeros();
      assert number == 0 ==> DecText(number) == [ZERO];
      assert number != 0 ==> DecText(number) == [MINUS];
    }
  }

  lemma SmallHexDigits(n: nat)
    ensures n == 0 ==> DigitsBackwards(n, 16) == []
    ensures 0 < n < 0x10 ==> |DigitsBackwards(n, 16)| == 1
    ensures n >= 0x10 ==> |DigitsBackwards(n, 16)| >= 2
  {
    if n >= 0x10 {
      assert n / 16 > 0;
    }
  }

  /** The text of `hex2str` is "0x" and at least two digits, and reads back as the number. */
  lemma HexRoundTrip(number: Word32)
    ensures ParseHex(HexText(number)) == Some(number)
    ensures var digits := |DigitsBackwards(number, 16)|;
            |HexText(number)| == 2 + if digits <= 2 then 2 else digits
    ensures HexText(number)[..2] == [ZERO, LETTER_X]
  {
    hide DigitsBackwards, ParseDigits, DigitValue, Reversed;
    var s := DigitsBackwards(number, 16);
    DigitsRoundTrip(number, 16);
    SmallHexDigits(number);
    var t := HexText(number);
    if number == 0 {
      assert t[2..] == [ZERO, ZERO];
      ParseZeros();
    } else if number < 0x10 {
      assert t[2..] == [ZERO] + Reversed(s);
      ParseLeadingZero(Reversed(s), 16);
    } else {
      assert t[2..] == Reversed(s);
    }
  }

  // ----- the texts, character by character -----

  lemma ReversedLast(d: Byte, s: seq<Byte>)
    ensures Reversed([d] + s) == Reversed(s) + [d]
  {
    assert ([d] + s)[1..] == s;
  }

  lemma DigitsStep(n: nat, base: nat)
    requires 2 <= base <= 16 && n > 0
    ensures Reversed(DigitsBackwards(n, base)) == Reversed(DigitsBackwards(n / base, base)) + [DigitChar(n % base)]
  {
    ReversedLast(DigitChar(n % base), DigitsBackwards(n / base, base));
  }

  lemma DigitIs(d: nat)
    requires d < 16
    ensures DigitChar(d) == if d < 10 then 0x30 + d else 0x37 + d
  {
  }

  lemma ReversedOne(c: Byte)
    ensures Reversed([c]) == [c]
  {
  }

  lemma MinusInFront(s: seq<Byte>)
    ensures Reversed(s + [MINUS]) == [MINUS] + Reversed(s)
  {
  }

  lemma NoDigits(base: nat)
    requires 2 <= base <= 16
    ensures DigitsBackwards(0, base) == []
  {
  }

  /** The decimal text: a minus sign in front of a negative number, and the digits 0x30 to 0x39; of
      the least integer only the sign is left. */
  lemma DecTextForms(n: Int32)
    ensures 0 <= n < 10 ==> DecText(n) == [0x30 + n]
    ensures n >= 10 ==> DecText(n) == DecText(n / 10) + [0x30 + n % 10]
    ensures -0x8000_0000 < n < 0 ==> DecText(n) == [0x2D] + DecText(-n)
    ensures n == -0x8000_0000 ==> DecText(n) == [0x2D]
  {
    hide Reversed, DigitsBackwards, DigitChar;
    NoDigits(10);
    assert Reversed([]) == [];
    if n > 0 {
      QuotientSmaller(n, 10);
      DigitsStep(n, 10);
      DigitIs(n % 10);
    } else if n == 0 || n == INT_MIN {
      ReversedOne(if n == 0 then ZERO else MINUS);
    } else {
      MinusInFront(DigitsBackwards(-n, 10));
    }
  }

  lemma SmallHex(n: nat)
    requires n < 0x100
    ensures n < 16 ==> Reversed(DigitsBackwards(n, 16)) == if n == 0 then [] else [DigitChar(n)]
    ensures n >= 16 ==> Reversed(DigitsBackwards(n, 16)) == [DigitChar(n / 16), DigitChar(n % 16)]
    ensures DigitChar(0) == 0x30
  {
    hide Reversed, DigitsBackwards;
    NoDigits(16);
    assert Reversed([]) == [];
    if n > 0 { DigitsStep(n, 16); }
    if n >= 16 { DigitsStep(n / 16, 16); }
  }

  lemma PrefixInFront(n: Word32)
    ensures HexText(n) == [0x30, 0x78] + (if n < 0x10 then [0x30] else []) +
                          if n == 0 then [0x30] else Reversed(DigitsBackwards(n, 16))
  {
    hide DigitsBackwards;
    if n == 0 {
      assert HexBackwards(n) == [ZERO, ZERO, LETTER_X, ZERO];
    }
  }

  /** The hexadecimal text: "0x", at least two digits, and the digits 0x30 to 0x39 and 0x41 to 0x46. */
  lemma HexTextForms(n: Word32)
    ensures var digit := (d: nat) => if d < 10 then 0x30 + d else 0x37 + d;
            && (n < 0x100 ==> HexText(n) == [0x30, 0x78, digit(n / 16), digit(n % 16)])
            && (n >= 0x100 ==> HexText(n) == HexText(n / 16) + [digit(n % 16)])
  {
    hide Reversed, DigitsBackwards, DigitChar;
    DigitIs(n % 16);
    PrefixInFront(n);
    if n >= 0x10 {
      DigitsStep(n, 16);
      PrefixInFront(n / 16);
    }
    if n < 0x100 {
      DigitIs(n / 16);
      SmallHex(n);
    }
  }

  // ----- the two functions on their buffers -----

  /** `-number` in 32-bit two's complement. */
  function Negate(number: Int32): Int32 {
    if number == INT_MIN then INT_MIN else -number
  }

  /** The buffer holds the text and a terminating NUL. */
  ghost predicate HoldsText(buffer: array<Byte>, text: seq<Byte>)
    reads buffer
  {
    |text| < buffer.Length && buffer[..|text|] == text && buffer[|text|] == NUL
  }

  lemma DigitsNext(n: nat, base: nat, done: seq<Byte>)
    requires 2 <= base <= 16 && n > 0
    ensures done + DigitsBackwards(n, base) == done + [DigitChar(n % base)] + DigitsBackwards(n / base, base)
    ensures |DigitsBackwards(n, base)| > 0
  {
  }

  lemma DecDigitsFit(n: nat)
    requires n < 0x8000_0000
    ensures |DigitsBackwards(n, 10)| <= 10
  {
    DigitCount(n, 10, 10);
    assert Power(10, 5) == 100000;
    assert Power(10, 10) == 10000000000;
  }

  lemma HexDigitsFit(n: Word32)
    ensures |DigitsBackwards(n, 16)| <= 8
  {
    DigitCount(n, 16, 8);
    assert Power(16, 4) == 0x1_0000;
    assert Power(16, 8) == TWO_32;
  }

  /** The reversal loop both functions end with, on the text that ends at index last. */
  method ReverseInPlace(buffer: array<Byte>, last: Byte)
    requires last < buffer.Length
    modifies buffer
    ensures buffer[..last + 1] == Reversed(old(buffer[..last + 1]))
    ensures forall k :: last < k < buffer.Length ==> buffer[k] == old(buffer[k])
  {
    var i, j: Byte := last, 0;
    while j < i
      invariant j <= i + 1 && i == last - j
      invariant forall k :: 0 <= k < j || i < k <= last ==> buffer[k] == old(buffer[last - k])
      invariant forall k :: j <= k <= i || last < k < buffer.Length ==> buffer[k] == old(buffer[k])
    {
      var temp := buffer[j];
      buffer[j] := buffer[i];
      buffer[i] := temp;
      j := j + 1;
      i := i - 1;
    }
    ghost var was := old(buffer[..last + 1]);
    assert forall k :: 0 <= k <= last ==> buffer[k] == was[last - k];
  }

  /** The index of the first NUL, or the length. */
  function TextLength(s: seq<Byte>): (n: nat)
    ensures n <= |s| && (forall k :: 0 <= k < n ==> s[k] != 0) && (n < |s| ==> s[n] == 0)
  {
    if s == [] || s[0] == NUL then 0 else 1 + TextLength(s[1..])
  }

  /** `strncpy`: copies up to the NUL or the limit, and does not write the NUL. */
  method Strncpy(dst: array<Byte>, src: seq<Byte>, len: nat)
    requires TextLength(src) < |src| && len <= dst.Length
    modifies dst
    ensures var n := if TextLength(src) < len then TextLength(src) else len;
            forall k :: 0 <= k < dst.Length ==> dst[k] == if k < n then src[k] else old(dst[k])
  {
    var i := 0;
    while src[i] != NUL && i < len
      invariant i <= TextLength(src) && i <= len
      invariant forall k :: 0 <= k < dst.Length ==> dst[k] == if k < i then src[k] else old(dst[k])
      decreases len - i
    {
      dst[i] := src[i];
      i := i + 1;
    }
  }

  lemma LowNibble(n: Word32)
    ensures And(n % 0x100, 0x0F) == n % 16
    ensures Shr(n, 4) == n / 16
    ensures n % 16 < 16 && DigitChar(n % 16) == HEX_DIGITS[n % 16]
  {
    hide And, Shr;
    assert Pow2(4) == 16;
    AndLowMask(n % 0x100, 4);
    ShrDivides(n, 4);
    assert n % 0x100 % 16 == n % 16;
  }

  /** Only for 0 and the least integer are there no digits. */
  lemma SomeDigits(n: nat, base: nat)
    requires 2 <= base <= 16 && n > 0
    ensures |DigitsBackwards(n, base)| > 0
  {
  }

  lemma ShortZero()
    ensures TextLength([ZERO, NUL]) == 1
  {
    assert [ZERO, NUL][1..] == [NUL];
  }

  lemma DecDigit(d: nat)
    requires d < 10
    ensures DigitChar(d) == d + ZERO
  {
  }

  class NumberBuffers {
    const decString: array<Byte>
    const hexString: array<Byte>

    ghost predicate Shaped()
      reads this
    {
      decString.Length == BUFFER_SIZE && hexString.Length == BUFFER_SIZE && decString != hexString
    }

    constructor ()
      ensures Shaped() && fresh(decString) && fresh(hexString)
    {
      decString := new Byte[BUFFER_SIZE];
      hexString := new Byte[BUFFER_SIZE];
    }

    /** The digit loop of `dec2str`. */
    method DecDigits(start: Byte, number: Int32) returns (i: Byte)
      requires Shaped() && start <= 1 && (number > 0 ==> start == 0)
      modifies decString
      ensures start <= i <= 10
      ensures decString[..i] == old(decString[..start]) + if number > 0 then DigitsBackwards(number, 10) else []
    {
      hide DigitsBackwards, DigitChar;
      var n: Int32 := number;
      i := start;
      ghost var all := decString[..start] + if n > 0 then DigitsBackwards(n, 10) else [];
      NoDigits(10);
      if n > 0 { DecDigitsFit(n); }
      while n > 0
        invariant start <= i <= |all| <= 10
        invariant decString[..i] + (if n > 0 then DigitsBackwards(n, 10) else []) == all
        decreases n
      {
        DigitsNext(n, 10, decString[..i]);
        QuotientSmaller(n, 10);
        DecDigit(n % 10);
        decString[i] := (n % 10) + ZERO;
        n := n / 10;
        i := i + 1;
      }
      assert decString[..i] == all;
    }

    /** The end of `dec2str`: adds the sign, terminates and reverses. */
    method FinishDec(start: Byte, negative: bool)
      requires Shaped() && start <= 10 && (start > 0 || negative)
      modifies decString
      ensures HoldsText(decString, Reversed(old(decString[..start]) + if negative then [MINUS] else []))
    {
      hide Reversed;
      var i := start;
      if negative {
        decString[i] := MINUS;
        i := i + 1;
      }
      assert decString[..i] == old(decString[..start]) + if negative then [MINUS] else [];
      decString[i] := NUL;
      i := i - 1;
      ReverseInPlace(decString, i);
    }

    /** `dec2str`. The cursor is 8 bits wide; -number wraps for the least integer. */
    method Dec2Str(number: Int32)
      requires Shaped()
      modifies decString
      ensures HoldsText(decString, DecText(number))
      ensures |DecText(number)| < 80 && decString[..|DecText(number)|] == DecText(number)
      ensures decString[|DecText(number)|] == 0
    {
      hide DigitsBackwards, Reversed, DigitChar;
      var i: Byte := 0;
      var negative := false;
      var n: Int32 := number;
      NoDigits(10);
      if n == 0 {
        decString[i] := ZERO;
        i := i + 1;
      } else if n < 0 {
        negative := true;
        n := Negate(n);
      }
      ghost var start := decString[..i];
      i := DecDigits(i, n);
      assert decString[..i] == start + if n > 0 then DigitsBackwards(n, 10) else [];
      if n > 0 { SomeDigits(n, 10); }
      FinishDec(i, negative);
    }

    /** The end of `hex2str`: pads, writes the prefix backwards, terminates and reverses. */
    method FinishHex(start: Byte, pad: bool)
      requires Shaped() && 0 < start <= 8
      modifies hexString
      ensures HoldsText(hexString, Reversed(old(hexString[..start]) + (if pad then [ZERO] else []) + [LETTER_X, ZERO]))
    {
      hide Reversed;
      var i := start;
      if pad {
        hexString[i] := ZERO;
        i := i + 1;
      }
      ghost var padded := hexString[..i];
      assert padded == old(hexString[..start]) + if pad then [ZERO] else [];
      hexString[i] := LETTER_X;
      i := i + 1;
      hexString[i] := ZERO;
      i := i + 1;
      assert hexString[..i] == padded + [LETTER_X, ZERO];
      hexString[i] := NUL;
      i := i - 1;
      ReverseInPlace(hexString, i);
    }

    /** `hex2str`. */
    method Hex2Str(number: Word32)
      requires Shaped()
      modifies hexString
      ensures HoldsText(hexString, HexText(number))
      ensures |HexText(number)| < 80 && hexString[..|HexText(number)|] == HexText(number)
      ensures hexString[|HexText(number)|] == 0
    {
      hide DigitsBackwards, Reversed, DigitChar, And, Shr;
      var i: Byte := 0;
      var pad := false;
      var n: Word32 := number;
      NoDigits(16);
      if n == 0 {
        ShortZero();
        Strncpy(hexString, [ZERO, NUL], 2);
        i := 1;
      }
      if n < 0x10 {
        pad := true;
      }
      ghost var all := if n == 0 then [ZERO] else DigitsBackwards(n, 16);
      HexDigitsFit(n);
      if n > 0 { SomeDigits(n, 16); }
      assert hexString[..i] + DigitsBackwards(n, 16) == all;
      while n > 0
        invariant i <= |all| <= 8 && |all| > 0
        invariant hexString[..i] + DigitsBackwards(n, 16) == all
        decreases n
      {
        DigitsNext(n, 16, hexString[..i]);
        QuotientSmaller(n, 16);
        LowNibble(n);
        hexString[i] := HEX_DIGITS[And(n % 0x100, 0x0F)];
        n := Shr(n, 4);
        i := i + 1;
      }
      assert hexString[..i] == all;
      FinishHex(i, pad);
    }
  }
}
