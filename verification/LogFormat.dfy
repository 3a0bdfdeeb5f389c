/** When `log` prints what a printf-like renderer prints. */
module LogFormat {
  import opened Bits
  import opened NumberText
  import opened Log

  function Magnitude(n: int): nat {
    if n < 0 then -n else n
  }

  /** The decimal text of every 32-bit integer, the least one included. */
  function Decimal(n: Int32): seq<Byte> {
    if n == 0 then [ZERO]
    else if n > 0 then Reversed(DigitsBackwards(n, 10))
    else [MINUS] + Reversed(DigitsBackwards(Magnitude(n), 10))
  }

  /** The text the reference renderer gives one argument. */
  function Rendered(conversion: Byte, arg: Arg): seq<Byte>
    requires Fits(conversion, arg)
  {
    match arg
    case Str(text) => text
    case Num(value) =>
      if conversion == CONV_D then Decimal(value)
      else if conversion == CONV_X then HexText(Unsigned(value))
      else if CharOf(value) == NUL then [] else [CharOf(value)]
  }

  /** A format text: no NUL, and every '%' is followed by a conversion letter. */
  predicate IsFormat(f: seq<Byte>) {
    f == [] ||
    (if f[0] == PERCENT then |f| > 1 && IsConversion(f[1]) && IsFormat(f[2..])
     else f[0] != NUL && IsFormat(f[1..]))
  }

  /** The arguments fit the conversions of the format, in order. */
  predicate Match(f: seq<Byte>, args: seq<Arg>)
    requires IsFormat(f)
  {
    if f == [] then args == []
    else if f[0] == PERCENT then args != [] && Fits(f[1], args[0]) && Match(f[2..], args[1..])
    else Match(f[1..], args)
  }

  function Render(f: seq<Byte>, args: seq<Arg>): seq<Byte>
    requires IsFormat(f) && Match(f, args)
  {
    if f == [] then []
    else if f[0] == PERCENT then Rendered(f[1], args[0]) + Render(f[2..], args[1..])
    else [f[0]] + Render(f[1..], args)
  }

  /** Behind every conversion comes a character that is neither '%' nor the end. */
  predicate Spaced(f: seq<Byte>)
    requires IsFormat(f)
  {
    if f == [] then true
    else if f[0] == PERCENT then |f| > 2 && f[2] != PERCENT && Spaced(f[2..])
    else Spaced(f[1..])
  }

  /** No `%d` has the least integer, the one value `dec2str` cannot render. */
  predicate NoDecMin(f: seq<Byte>, args: seq<Arg>)
    requires IsFormat(f) && Match(f, args)
  {
    if f == [] then true
    else if f[0] == PERCENT then !(f[1] == CONV_D && args[0] == Num(INT_MIN)) && NoDecMin(f[2..], args[1..])
    else NoDecMin(f[1..], args)
  }

  /** One argument for every conversion, whose text does not start with '%'. */
  function Samples(f: seq<Byte>): (args: seq<Arg>)
    requires IsFormat(f)
    ensures Match(f, args) && NoDecMin(f, args)
  {
    if f == [] then []
    else if f[0] == PERCENT then [if f[1] == CONV_S then Str([LETTER_A]) else Num(LETTER_A)] + Samples(f[2..])
    else Samples(f[1..])
  }

  /** Memory that starts with the format and its NUL. */
  ghost predicate Starts(mem: seq<Byte>, f: seq<Byte>) {
    3 * |f| < |mem| && |f| < |mem| && mem[..|f|] == f && mem[|f|] == NUL
  }

  lemma LeastText()
    ensures |DecText(INT_MIN)| == 1 && |Decimal(INT_MIN)| > 1
  {
  }

  lemma SignInFront(s: seq<Byte>)
    ensures Reversed(s + [MINUS]) == [MINUS] + Reversed(s)
  {
  }

  lemma DecimalText(n: Int32)
    ensures if n == INT_MIN then |DecText(n)| < |Decimal(n)| else DecText(n) == Decimal(n)
  {
    hide DigitsBackwards, Reversed;
    if n == INT_MIN {
      LeastText();
    } else if n < 0 {
      SignInFront(DigitsBackwards(Magnitude(n), 10));
    } else if n == 0 {
      assert Reversed([ZERO]) == [ZERO];
    }
  }

  /** `log` writes the rendering of an argument, or less when `%d` meets the least integer. */
  lemma WrittenIsRendered(conversion: Byte, args: seq<Arg>, k: nat)
    requires k < |args| && Fits(conversion, args[k])
    ensures if conversion == CONV_D && args[k] == Num(INT_MIN)
            then |Written(conversion, args, k)| < |Rendered(conversion, args[k])|
            else Written(conversion, args, k) == Rendered(conversion, args[k])
  {
    match args[k] {
      case Str(_) =>
      case Num(value) =>
        DecimalText(value);
    }
  }

  /** A format, its arguments and its rendering behind an ordinary character. */
  lemma AtCharacter(f: seq<Byte>, ptr: nat, args: seq<Arg>, k: nat)
    requires ptr < |f| && f[ptr] != PERCENT && IsFormat(f[ptr..]) && k <= |args| && Match(f[ptr..], args[k..])
    ensures f[ptr] != NUL && IsFormat(f[ptr + 1..]) && Match(f[ptr + 1..], args[k..])
    ensures Spaced(f[ptr..]) <==> Spaced(f[ptr + 1..])
    ensures Render(f[ptr..], args[k..]) == [f[ptr]] + Render(f[ptr + 1..], args[k..])
    ensures NoDecMin(f[ptr..], args[k..]) <==> NoDecMin(f[ptr + 1..], args[k..])
    ensures Samples(f[ptr..]) == Samples(f[ptr + 1..])
  {
    assert f[ptr..][1..] == f[ptr + 1..];
  }

  /** The same behind a conversion. */
  lemma AtConversion(f: seq<Byte>, ptr: nat, args: seq<Arg>, k: nat)
    requires ptr < |f| && f[ptr] == PERCENT && IsFormat(f[ptr..]) && k <= |args| && Match(f[ptr..], args[k..])
    ensures ptr + 2 <= |f| && IsConversion(f[ptr + 1]) && IsFormat(f[ptr + 2..])
    ensures k < |args| && Fits(f[ptr + 1], args[k]) && Match(f[ptr + 2..], args[k + 1..])
    ensures Spaced(f[ptr..]) <==> ptr + 2 < |f| && f[ptr + 2] != PERCENT && Spaced(f[ptr + 2..])
    ensures Render(f[ptr..], args[k..]) == Rendered(f[ptr + 1], args[k]) + Render(f[ptr + 2..], args[k + 1..])
    ensures NoDecMin(f[ptr..], args[k..]) <==>
              !(f[ptr + 1] == CONV_D && args[k] == Num(INT_MIN)) && NoDecMin(f[ptr + 2..], args[k + 1..])
    ensures args[k..] == Samples(f[ptr..]) ==> args[k + 1..] == Samples(f[ptr + 2..])
  {
    assert f[ptr..][2..] == f[ptr + 2..] && args[k..][1..] == args[k + 1..];
    assert args[k..][0] == args[k];
    if args[k..] == Samples(f[ptr..]) {
      assert Samples(f[ptr..])[1..] == Samples(f[ptr + 2..]);
    }
  }

  lemma AtEnd(f: seq<Byte>, args: seq<Arg>, k: nat)
    requires k <= |args| && Match(f[|f|..], args[k..])
    ensures Render(f[|f|..], args[k..]) == [] && Spaced(f[|f|..]) && NoDecMin(f[|f|..], args[k..])
  {
  }

  /** From the middle of a spaced format on, `log` writes what the renderer writes exactly when
      no `%d` has the least integer, and less otherwise. */
  lemma {:induction false} OutputRenders(mem: seq<Byte>, f: seq<Byte>, args: seq<Arg>, ptr: nat, pos: nat, k: nat)
    requires Starts(mem, f) && pos <= ptr <= |f| && ptr <= 3 * pos && k <= |args|
    requires IsFormat(f[ptr..]) && Match(f[ptr..], args[k..]) && Spaced(f[ptr..])
    ensures if NoDecMin(f[ptr..], args[k..])
            then Output(mem, args, |f|, ptr, pos, k) == Render(f[ptr..], args[k..])
            else |Output(mem, args, |f|, ptr, pos, k)| < |Render(f[ptr..], args[k..])|
    decreases |f| - ptr
  {
    hide Output, Rendered, Written, IsFormat, Spaced, Match, Render, Samples, Fits, NoDecMin;
    OutputStep(mem, args, |f|, ptr, pos, k);
    if ptr == |f| {
      AtEnd(f, args, k);
    } else if f[ptr] == PERCENT {
      AtConversion(f, ptr, args, k);
      WrittenIsRendered(f[ptr + 1], args, k);
      AtCharacter(f, ptr + 2, args, k + 1);
      OutputRenders(mem, f, args, ptr + 3, pos + 1, k + 1);
    } else {
      AtCharacter(f, ptr, args, k);
      OutputRenders(mem, f, args, ptr + 1, pos + 1, k);
    }
  }

  // ----- the formats that go wrong -----

  lemma SampleStart(f: seq<Byte>)
    requires f != [] && f[0] == PERCENT && IsFormat(f)
    ensures Render(f, Samples(f)) != [] && Render(f, Samples(f))[0] != PERCENT
    ensures Samples(f)[1..] == Samples(f[2..])
  {
    var n: Int32 := LETTER_A;
    if f[1] == CONV_D {
      DigitsShape(n, 10);
      assert n % 10 == 5 && n / 10 == 6;
    } else if f[1] == CONV_X {
      HexRoundTrip(Unsigned(n));
    }
  }

  /** The format, its NUL, and something behind it. */
  ghost predicate StartsAndGoesOn(mem: seq<Byte>, f: seq<Byte>) {
    Starts(mem, f) && |f| + 1 < |mem| && mem[|f| + 1] == LETTER_A
  }

  lemma Diverge(text: seq<Byte>, a: seq<Byte>, b: seq<Byte>)
    requires a != b
    ensures text + a != text + b
  {
    assert a == (text + a)[|text|..] && b == (text + b)[|text|..];
  }

  /** A conversion followed by '%' prints that '%', and one at the end runs past the NUL. */
  lemma {:induction false} OutputStrays(mem: seq<Byte>, f: seq<Byte>, args: seq<Arg>, ptr: nat, pos: nat, k: nat)
    requires StartsAndGoesOn(mem, f) && pos <= ptr <= |f| && ptr <= 3 * pos && k <= |args|
    requires IsFormat(f[ptr..]) && Match(f[ptr..], args[k..]) && args[k..] == Samples(f[ptr..]) && !Spaced(f[ptr..])
    ensures Output(mem, args, |f|, ptr, pos, k) != Render(f[ptr..], args[k..])
    decreases |f| - ptr
  {
    hide Output, Rendered, Written, IsFormat, Spaced, Match, Render, Samples, Fits, NoDecMin;
    OutputStep(mem, args, |f|, ptr, pos, k);
    if ptr == |f| {
      AtEnd(f, args, k);
    } else if f[ptr] != PERCENT {
      AtCharacter(f, ptr, args, k);
      OutputStrays(mem, f, args, ptr + 1, pos + 1, k);
      Diverge([f[ptr]], Output(mem, args, |f|, ptr + 1, pos + 1, k), Render(f[ptr + 1..], args[k..]));
    } else {
      AtConversion(f, ptr, args, k);
      WrittenIsRendered(f[ptr + 1], args, k);
      var text := Rendered(f[ptr + 1], args[k]);
      var later := Output(mem, args, |f|, ptr + 3, pos + 1, k + 1);
      if ptr + 2 == |f| {
        AtEnd(f, args, k + 1);
        OutputStep(mem, args, |f|, ptr + 3, pos + 1, k + 1);
        assert mem[ptr + 3] == LETTER_A && later != [];
      } else if f[ptr + 2] == PERCENT {
        SampleStart(f[ptr + 2..]);
        Diverge(text, [PERCENT] + later, Render(f[ptr + 2..], args[k + 1..]));
      } else {
        AtCharacter(f, ptr + 2, args, k + 1);
        OutputStrays(mem, f, args, ptr + 3, pos + 1, k + 1);
        Diverge(text + [f[ptr + 2]], later, Render(f[ptr + 3..], args[k + 1..]));
      }
    }
  }

  /** `log` prints what the renderer prints, whatever memory lies behind the format and for all
      fitting arguments it can render, exactly when behind every conversion comes a character
      other than '%' and the end. On such a format it prints it exactly for those arguments. */
  lemma LogRendersIff(f: seq<Byte>)
    requires IsFormat(f)
    ensures (forall mem, args :: Starts(mem, f) && Match(f, args) && NoDecMin(f, args) ==>
               Output(mem, args, |f|, 0, 0, 0) == Render(f, args))
       <==> Spaced(f)
    ensures Spaced(f) ==>
              forall mem, args :: Starts(mem, f) && Match(f, args) ==>
                (Output(mem, args, |f|, 0, 0, 0) == Render(f, args) <==> NoDecMin(f, args))
  {
    hide Output, Render, Samples, Spaced, NoDecMin, Match, IsFormat;
    assert f[0..] == f;
    if Spaced(f) {
      forall mem, args | Starts(mem, f) && Match(f, args)
        ensures Output(mem, args, |f|, 0, 0, 0) == Render(f, args) <==> NoDecMin(f, args)
      {
        assert args[0..] == args;
        OutputRenders(mem, f, args, 0, 0, 0);
      }
    } else {
      var args := Samples(f);
      var mem: seq<Byte> := f + [NUL, LETTER_A] + seq(3 * |f|, _ => NUL);
      assert args[0..] == args;
      assert mem[..|f|] == f;
      OutputStrays(mem, f, args, 0, 0, 0);
      assert Starts(mem, f);
    }
  }
}
