/** `log`: a format interpreter with two cursors, and the printf-like renderer it is meant to be. */
module Log {
  import opened Bits
  import opened NumberText
  import opened Options

  const PERCENT: Byte := 0x25
  const CONV_S: Byte := 0x73
  const CONV_D: Byte := 0x64
  const CONV_X: Byte := 0x78
  const CONV_C: Byte := 0x63
  const LETTER_A: Byte := 0x41

  /** A variadic argument: a string without its NUL, or an int. */
  datatype Arg = Str(text: seq<Byte>) | Num(value: Int32)

  /** An int passed to an unsigned 32-bit parameter. */
  function Unsigned(value: Int32): Word32 {
    if value < 0 then value + TWO_32 else value
  }

  /** An int converted to char. */
  function CharOf(value: Int32): Byte {
    value % 0x100
  }

  predicate IsConversion(c: Byte) {
    c == CONV_S || c == CONV_D || c == CONV_X || c == CONV_C
  }

  predicate Fits(conversion: Byte, arg: Arg) {
    match arg
    case Str(text) => conversion == CONV_S && NUL !in text
    case Num(_) => conversion == CONV_D || conversion == CONV_X || conversion == CONV_C
  }

  /** What one conversion of `log` writes; a missing or unfit argument writes nothing here. */
  function Written(conversion: Byte, args: seq<Arg>, k: nat): seq<Byte> {
    if k >= |args| || !Fits(conversion, args[k]) then []
    else
      match args[k]
      case Str(text) => text
      case Num(value) =>
        if conversion == CONV_D then DecText(value)
        else if conversion == CONV_X then HexText(Unsigned(value))
        else if CharOf(value) == NUL then [] else [CharOf(value)]
  }

  /** What `log` writes from ptr on, with pos characters counted and k arguments consumed. */
  function Output(mem: seq<Byte>, args: seq<Arg>, length: nat, ptr: nat, pos: nat, k: nat): seq<Byte>
    requires 3 * length < |mem| && ptr <= 3 * pos && pos <= length
    decreases length - pos
  {
    if mem[ptr] == NUL || pos >= length then []
    else
      var conversion := mem[ptr] == PERCENT;
      var next := if conversion then ptr + 2 else ptr;
      (if conversion then Written(mem[ptr + 1], args, k) else []) +
      (if mem[next] == NUL then [] else [mem[next]]) +
      Output(mem, args, length, next + 1, pos + 1, if conversion && IsConversion(mem[ptr + 1]) then k + 1 else k)
  }

  method Strlen(str: array<Byte>) returns (n: nat)
    requires TextLength(str[..]) < str.Length
    ensures n == TextLength(str[..])
    ensures n < str.Length && str[n] == 0 && forall k :: 0 <= k < n ==> str[k] != 0
  {
    n := 0;
    while str[n] != NUL
      invariant n <= TextLength(str[..])
      decreases str.Length - n
    {
      n := n + 1;
    }
  }

  lemma TextLengthOf(s: seq<Byte>, text: seq<Byte>)
    requires |text| < |s| && s[..|text|] == text && s[|text|] == NUL && NUL !in text
    ensures TextLength(s) == |text|
  {
    assert forall k :: 0 <= k < |text| ==> s[k] == text[k];
  }

  lemma NoNulInDec(n: Int32)
    ensures NUL !in DecText(n)
  {
    hide DigitsBackwards, Reversed;
    if n > 0 { DigitsShape(n, 10); }
    if n < 0 && n != INT_MIN { DigitsShape(-n, 10); }
    assert NUL !in DecBackwards(n);
  }

  lemma NoNulInHex(n: Word32)
    ensures NUL !in HexText(n)
  {
    hide DigitsBackwards, Reversed;
    if n > 0 { DigitsShape(n, 16); }
    assert NUL !in HexBackwards(n);
  }

  /** One turn of the loop. */
  lemma OutputStep(mem: seq<Byte>, args: seq<Arg>, length: nat, ptr: nat, pos: nat, k: nat)
    requires 3 * length < |mem| && ptr <= 3 * pos && pos <= length
    ensures mem[ptr] == NUL || pos >= length ==> Output(mem, args, length, ptr, pos, k) == []
    ensures mem[ptr] != NUL && pos < length ==>
              var conversion := mem[ptr] == PERCENT;
              var next := if conversion then ptr + 2 else ptr;
              Output(mem, args, length, ptr, pos, k) ==
                (if conversion then Written(mem[ptr + 1], args, k) else []) +
                (if mem[next] == NUL then [] else [mem[next]]) +
                Output(mem, args, length, next + 1, pos + 1,
                       if conversion && IsConversion(mem[ptr + 1]) then k + 1 else k)
  {
  }

  /** The unsigned number `%x` prints. */
  lemma UnsignedWraps(v: Int32)
    ensures (Unsigned(v) - v) % 0x1_0000_0000 == 0
  {
  }

  /** One turn of the loop, said of the characters: what each conversion writes for a fitting
      argument, that it consumes the argument, and that the character behind it follows. */
  lemma TurnWrites(mem: seq<Byte>, args: seq<Arg>, length: nat, ptr: nat, pos: nat, k: nat)
    requires 3 * length < |mem| && ptr <= 3 * pos && pos < length
    ensures mem[ptr] == 0 ==> Output(mem, args, length, ptr, pos, k) == []
    ensures mem[ptr] != 0 && mem[ptr] != 0x25 ==>
              Output(mem, args, length, ptr, pos, k) ==
                [mem[ptr]] + Output(mem, args, length, ptr + 1, pos + 1, k)
    ensures mem[ptr] == 0x25 && k < |args| ==>
              var rest := (if mem[ptr + 2] == 0 then [] else [mem[ptr + 2]]) +
                          Output(mem, args, length, ptr + 3, pos + 1, k + 1);
              var all := Output(mem, args, length, ptr, pos, k);
              match args[k]
              case Str(text) =>
                mem[ptr + 1] == 0x73 && 0 !in text ==> all == text + rest
              case Num(v) =>
                && (mem[ptr + 1] == 0x64 ==> all == DecText(v) + rest)
                && (mem[ptr + 1] == 0x78 ==>
                      exists n: Word32 :: (n - v) % 0x1_0000_0000 == 0 && ParseHex(HexText(n)) == Some(n) &&
                                          all == HexText(n) + rest)
                && (mem[ptr + 1] == 0x63 && v % 0x100 == 0 ==> all == rest)
                && (mem[ptr + 1] == 0x63 && v % 0x100 != 0 ==> all == [v % 0x100] + rest)
  {
    hide Output, DecText, HexText, ParseHex, Unsigned;
    OutputStep(mem, args, length, ptr, pos, k);
    if k < |args| && args[k].Num? {
      var n := Unsigned(args[k].value);
      UnsignedWraps(args[k].value);
      HexRoundTrip(n);
    }
  }

  class Logger {
    const numbers: NumberBuffers
    var output: seq<Byte>      // everything passed to term_write

    constructor ()
      ensures fresh(numbers) && fresh(numbers.decString) && fresh(numbers.hexString) && numbers.Shaped() && output == []
    {
      numbers := new NumberBuffers();
      output := [];
    }

    /** `kwrite` of a NUL-terminated buffer. */
    method Kwrite(str: array<Byte>, ghost text: seq<Byte>)
      requires HoldsText(str, text) && NUL !in text
      modifies this`output
      ensures output == old(output) + text
    {
      TextLengthOf(str[..], text);
      var n := Strlen(str);
      output := output + str[..n];
    }

    /** Writes one character; a NUL is an empty string. */
    method KwriteChar(c: Byte)
      modifies this`output
      ensures output == old(output) + if c == NUL then [] else [c]
    {
      if c != NUL {
        output := output + [c];
      }
    }

    /** The switch of `log`: writes the next argument and consumes it. */
    method Convert(conversion: Byte, args: seq<Arg>, k: nat) returns (next: nat)
      requires numbers.Shaped()
      modifies this`output, numbers.decString, numbers.hexString
      ensures output == old(output) + Written(conversion, args, k)
      ensures next == if IsConversion(conversion) then k + 1 else k
    {
      next := if IsConversion(conversion) then k + 1 else k;
      if k >= |args| || !Fits(conversion, args[k]) { return; }
      if conversion == CONV_S {
        output := output + args[k].text;
      } else if conversion == CONV_D {
        numbers.Dec2Str(args[k].value);
        NoNulInDec(args[k].value);
        Kwrite(numbers.decString, DecText(args[k].value));
      } else if conversion == CONV_X {
        numbers.Hex2Str(Unsigned(args[k].value));
        NoNulInHex(Unsigned(args[k].value));
        Kwrite(numbers.hexString, HexText(Unsigned(args[k].value)));
      } else {
        KwriteChar(CharOf(args[k].value));
      }
    }

    /** `log`, on the memory that starts at the format. */
    method Log(fmt: array<Byte>, args: seq<Arg>)
      requires numbers.Shaped() && fmt != numbers.decString && fmt != numbers.hexString
      requires 3 * TextLength(fmt[..]) < fmt.Length
      modifies this`output, numbers.decString, numbers.hexString
      ensures output == old(output) + Output(fmt[..], args, TextLength(fmt[..]), 0, 0, 0)
    {
      hide Output, Written, TextLength;
      ghost var mem, length := fmt[..], TextLength(fmt[..]);
      ghost var all := output + Output(mem, args, length, 0, 0, 0);
      var ptr: nat, pos: nat, k: nat := 0, 0, 0;
      while true
        invariant pos <= length && ptr <= 3 * pos && fmt[..] == mem && numbers.Shaped()
        invariant output + Output(mem, args, length, ptr, pos, k) == all
        decreases length - pos
      {
        OutputStep(mem, args, length, ptr, pos, k);
        if fmt[ptr] == NUL { break; }
        var n := Strlen(fmt);
        if pos >= n { break; }
        if fmt[ptr] == PERCENT {
          ptr := ptr + 1;
          var conversion := fmt[ptr];
          ptr := ptr + 1;
          k := Convert(conversion, args, k);
        }
        KwriteChar(fmt[ptr]);
        ptr := ptr + 1;
        pos := pos + 1;
      }
    }
  }
}
