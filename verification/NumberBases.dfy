/**
  `cast`'s numbers with a base: a 256-bit word, a sign flag and a base to print in; base detection
  from the text, parsing and printing. Two's complement and the 64-bit probe of `detect` are explicit.
 */
module NumberBases {
  import opened Options

  const TWO_255: int := 0x8000000000000000000000000000000000000000000000000000000000000000
  const TWO_256: int := 0x10000000000000000000000000000000000000000000000000000000000000000
  const U64_MAX: nat := 0xFFFF_FFFF_FFFF_FFFF

  datatype Base = Binary | Octal | Decimal | Hexadecimal

  predicate IsRadix(r: int) {
    r == 2 || r == 8 || r == 10 || r == 16
  }

  function Radix(b: Base): (r: nat)
    ensures IsRadix(r)
  {
    match b case Binary => 2 case Octal => 8 case Decimal => 10 case Hexadecimal => 16
  }

  function Prefix(b: Base): string {
    match b case Binary => "0b" case Octal => "0o" case Decimal => "" case Hexadecimal => "0x"
  }

  // ---------------------------------------------------------------- positional notation

  function DigitChar(d: nat): char
    requires d < 16
  {
    if d < 10 then '0' + d as char else 'a' + (d - 10) as char
  }

  /** `char::to_digit`, for radices up to 36. */
  function DigitValue(c: char): Option<nat> {
    if '0' <= c <= '9' then Some((c - '0') as nat)
    else if 'a' <= c <= 'z' then Some((c - 'a') as nat + 10)
    else if 'A' <= c <= 'Z' then Some((c - 'A') as nat + 10)
    else None
  }

  /** One more digit at the end: `high * r + d`. */
  function Append(high: nat, r: nat, d: nat): (n: nat)
    requires IsRadix(r)
    ensures n == high * r + d
  {
    d + if r == 2 then 2 * high else if r == 8 then 8 * high else if r == 10 then 10 * high else 16 * high
  }

  /** All digits but the last: `n / r`. */
  function High(n: nat, r: nat): nat
    requires IsRadix(r)
  {
    if r == 2 then n / 2 else if r == 8 then n / 8 else if r == 10 then n / 10 else n / 16
  }

  /** The last digit: `n % r`. */
  function Low(n: nat, r: nat): (d: nat)
    requires IsRadix(r)
    ensures d < r
  {
    if r == 2 then n % 2 else if r == 8 then n % 8 else if r == 10 then n % 10 else n % 16
  }

  /** The digits of a number without leading zeros; none for zero. */
  function Digits(n: nat, r: nat): string
    requires IsRadix(r)
  {
    if n == 0 then "" else Digits(High(n, r), r) + [DigitChar(Low(n, r))]
  }

  /** How `U256` prints itself. */
  function Printed(n: nat, r: nat): string
    requires IsRadix(r)
  {
    if n == 0 then "0" else Digits(n, r)
  }

  /** `U256::from_str_radix`: underscores are skipped, the empty text is zero, overflow is an error. */
  function ParseU256(s: string, r: nat): (v: Option<nat>)
    requires IsRadix(r)
    ensures v.Some? ==> v.value < TWO_256
  {
    if s == "" then Some(0)
    else
      var c := s[|s| - 1];
      match ParseU256(s[..|s| - 1], r)
      case None => None
      case Some(high) =>
        if c == '_' then Some(high)
        else
          match DigitValue(c)
          case None => None
          case Some(d) => if d < r && Append(high, r, d) < TWO_256 then Some(Append(high, r, d)) else None
  }

  datatype IntError = Empty | InvalidDigit | PosOverflow
  datatype U64Result = U64(n: nat) | Failed(error: IntError)

  /** The digit loop of `u64::from_str_radix`: the first bad digit or overflow decides. */
  function ProbeDigits(s: string, r: nat): U64Result
    requires IsRadix(r)
  {
    if s == "" then U64(0)
    else
      match ProbeDigits(s[..|s| - 1], r)
      case Failed(e) => Failed(e)
      case U64(high) =>
        match DigitValue(s[|s| - 1])
        case None => Failed(InvalidDigit)
        case Some(d) =>
          if d >= r then Failed(InvalidDigit)
          else if Append(high, r, d) > U64_MAX then Failed(PosOverflow)
          else U64(Append(high, r, d))
  }

  function Probe(s: string, r: nat): U64Result
    requires IsRadix(r)
  {
    if s == "" then Failed(Empty)
    else if s == "+" || s == "-" then Failed(InvalidDigit)
    else if s[0] == '+' then ProbeDigits(s[1..], r)
    else ProbeDigits(s, r)
  }

  // ---------------------------------------------------------------- detection, parsing, printing

  predicate Accepts(probe: U64Result) {
    probe.U64? || probe.error == PosOverflow
  }

  /** `Base::detect` */
  function Detect(s: string): Option<Base> {
    if s != "" && (s[0] == '+' || s[0] == '-') then Detect(s[1..])
    else if "0b" <= s then if Accepts(Probe(s[2..], 2)) then Some(Binary) else None
    else if "0o" <= s then if Accepts(Probe(s[2..], 8)) then Some(Octal) else None
    else if "0x" <= s then if Accepts(Probe(s[2..], 16)) then Some(Hexadecimal) else None
    else if ParseU256(s, 10).Some? then Some(Decimal)
    else if ParseU256(s, 16).Some? then Some(Hexadecimal)
    else None
  }

  datatype NumberWithBase = NumberWithBase(number: nat, isNonnegative: bool, base: Base) {
    predicate Valid() {
      number < TWO_256
    }
  }

  predicate HasPrefix(s: string) {
    && |s| >= 2 && s[0] == '0'
    && (s[1] == 'x' || s[1] == 'X' || s[1] == 'o' || s[1] == 'O' || s[1] == 'b' || s[1] == 'B')
  }

  /** `_parse_uint`: any of the prefixes is dropped, whatever the base. */
  function ParseDigits(s: string, b: Base): (v: Option<nat>)
    ensures v.Some? ==> v.value < TWO_256
  {
    ParseU256(if HasPrefix(s) then s[2..] else s, Radix(b))
  }

  /** Two's complement: all bits flipped, plus one, wrapping. */
  function Negated(n: nat): (r: nat)
    requires n < TWO_256
    ensures r < TWO_256
  {
    var flipped := TWO_256 - 1 - n;
    if flipped + 1 == TWO_256 then 0 else flipped + 1
  }

  predicate IsNegative(s: string) {
    s != "" && s[0] == '-'
  }

  /** The text after its sign. */
  function Unsigned(s: string): string {
    if s != "" && (s[0] == '+' || s[0] == '-') then s[1..] else s
  }

  /** `parse_int`, with the base given or detected. */
  function ParseInt(s: string, base: Option<Base>): (r: Option<NumberWithBase>)
    ensures r.Some? ==> r.value.Valid()
  {
    match (if base.Some? then base else Detect(s))
    case None => None
    case Some(b) =>
      var negative := IsNegative(s);
      match ParseDigits(Unsigned(s), b)
      case None => None
      case Some(n) => Some(NumberWithBase(if negative then Negated(n) else n, !negative, b))
  }

  /** `parse_uint` */
  function ParseUint(s: string, base: Option<Base>): Option<NumberWithBase> {
    match (if base.Some? then base else Detect(s))
    case None => None
    case Some(b) =>
      match ParseDigits(s, b)
      case None => None
      case Some(n) => Some(NumberWithBase(n, true, b))
  }

  function TrimZeros(s: string): string {
    if s != "" && s[0] == '0' then TrimZeros(s[1..]) else s
  }

  /** The magnitude that `format` prints: for a negative decimal, that of the two's complement. */
  function Magnitude(n: NumberWithBase): nat
    requires n.Valid()
  {
    if n.base == Decimal && !n.isNonnegative && n.number >= TWO_255 then TWO_256 - n.number else n.number
  }

  /** `format` */
  function Format(n: NumberWithBase): string
    requires n.Valid()
  {
    var s := Printed(Magnitude(n), Radix(n.base));
    if s != "" && s[0] == '0' then TrimZeros(s) else s
  }

  /** `{:?}` and, with the prefix, `{:#?}`; only decimals get a sign. */
  function Show(n: NumberWithBase, alternate: bool): string
    requires n.Valid()
  {
    var prefix := if alternate then Prefix(n.base) else "";
    if n.number == 0 then prefix + "0"
    else (if n.base == Decimal && !n.isNonnegative then "-" else "") + prefix + Format(n)
  }

  /** `From<I256>` and `From<U256>`: the number as an integer in [-2^255, 2^256). */
  function FromInt(z: int, base: Base): (n: NumberWithBase)
    requires -TWO_255 <= z < TWO_256
    ensures n.Valid()
  {
    NumberWithBase(if z < 0 then TWO_256 + z else z, z >= 0, base)
  }

  /** `SimpleCast::to_base` */
  function ToBase(value: string, baseIn: Option<Base>, baseOut: Base): Option<string> {
    match (if baseIn.Some? then baseIn else Detect(value))
    case None => None
    case Some(b) =>
      if b == baseOut then Some(value)
      else
        match ParseInt(value, Some(b))
        case None => None
        case Some(n) => Some(Show(n.(base := baseOut), true))
  }

  // ---------------------------------------------------------------- digits read back

  /** Characters that digits are made of. */
  predicate Plain(s: string) {
    forall i :: 0 <= i < |s| ==> DigitValue(s[i]).Some? && s[i] != '_' && s[i] != '+' && s[i] != '-'
  }

  lemma DigitRoundTrip(d: nat)
    requires d < 16
    ensures DigitValue(DigitChar(d)) == Some(d) && DigitChar(d) != '_'
    ensures DigitChar(d) != '+' && DigitChar(d) != '-' && (DigitChar(d) == '0' <==> d == 0)
  {
  }

  lemma {:induction false} DigitsShape(n: nat, r: nat)
    requires IsRadix(r) && n > 0
    ensures Digits(n, r) != "" && Digits(n, r)[0] != '0' && Plain(Digits(n, r))
  {
    Split(n, r);
    var high, low := High(n, r), Low(n, r);
    DigitRoundTrip(low);
    assert Digits(n, r) == Digits(high, r) + [DigitChar(low)];
    if high > 0 {
      DigitsShape(high, r);
    } else {
      assert Digits(0, r) == "";
    }
  }

  lemma Split(n: nat, r: nat)
    requires IsRadix(r)
    ensures Append(High(n, r), r, Low(n, r)) == n && High(n, r) <= n
    ensures High(n, r) == 0 ==> Low(n, r) == n
  {
  }

  lemma ParseSnoc(t: string, c: char, r: nat, high: nat, d: nat)
    requires IsRadix(r) && ParseU256(t, r) == Some(high) && DigitValue(c) == Some(d) && c != '_'
    requires d < r && Append(high, r, d) < TWO_256
    ensures ParseU256(t + [c], r) == Some(Append(high, r, d))
  {
    assert (t + [c])[..|t|] == t;
  }

  lemma ProbeSnoc(t: string, c: char, r: nat, d: nat)
    requires IsRadix(r) && Accepts(ProbeDigits(t, r)) && DigitValue(c) == Some(d) && d < r
    ensures Accepts(ProbeDigits(t + [c], r))
  {
    assert (t + [c])[..|t|] == t;
  }

  lemma {:induction false} DigitsParse(n: nat, r: nat)
    requires IsRadix(r) && n < TWO_256
    ensures ParseU256(Digits(n, r), r) == Some(n)
  {
    if n > 0 {
      Split(n, r);
      var high, low := High(n, r), Low(n, r);
      DigitRoundTrip(low);
      DigitsParse(high, r);
      ParseSnoc(Digits(high, r), DigitChar(low), r, high, low);
    }
  }

  /** The 64-bit probe never sees a bad digit, whether or not the number overflows it. */
  lemma {:induction false} DigitsProbe(n: nat, r: nat)
    requires IsRadix(r)
    ensures Accepts(ProbeDigits(Digits(n, r), r))
  {
    if n > 0 {
      Split(n, r);
      var high, low := High(n, r), Low(n, r);
      DigitRoundTrip(low);
      DigitsProbe(high, r);
      ProbeSnoc(Digits(high, r), DigitChar(low), r, low);
    }
  }

  lemma ZeroParses(s: string, r: nat)
    requires IsRadix(r) && |s| == 1 && s[0] == '0'
    ensures ParseU256(s, r) == Some(0) && Accepts(Probe(s, r)) && Plain(s)
  {
    var none := s[..0];
    assert s == none + ['0'];
    assert ParseU256(none, r) == Some(0) && ProbeDigits(none, r) == U64(0);
    assert Append(0, r, 0) == 0;
    ParseSnoc(none, '0', r, 0, 0);
    ProbeSnoc(none, '0', r, 0);
  }

  lemma PrintedFacts(n: nat, r: nat)
    requires IsRadix(r) && n < TWO_256
    ensures ParseU256(Printed(n, r), r) == Some(n) && Accepts(Probe(Printed(n, r), r))
    ensures Printed(n, r) != "" && Plain(Printed(n, r))
    ensures !HasPrefix(Printed(n, r)) && (n > 0 ==> Printed(n, r)[0] != '0')
  {
    if n > 0 {
      DigitsShape(n, r);
      DigitsParse(n, r);
      DigitsProbe(n, r);
    } else {
      ZeroParses(Printed(n, r), r);
    }
  }

  lemma FormatIsPrinted(n: NumberWithBase)
    requires n.Valid() && Magnitude(n) > 0
    ensures Format(n) == Printed(Magnitude(n), Radix(n.base))
  {
    PrintedFacts(Magnitude(n), Radix(n.base));
  }

  lemma DetectPrefixed(s: string, b: Base)
    requires b != Decimal && Accepts(Probe(s, Radix(b)))
    ensures Detect(Prefix(b) + s) == Some(b)
  {
    var text := Prefix(b) + s;
    assert text[2..] == s && text[0] == '0' && text[1] == Prefix(b)[1];
    match b {
      case Binary => assert "0b" <= text;
      case Octal => assert "0o" <= text && !("0b" <= text);
      case Hexadecimal => assert "0x" <= text && !("0b" <= text) && !("0o" <= text);
    }
  }

  /** Text that starts with no sign and no prefix is detected as decimal when its digits allow. */
  lemma DetectDecimal(s: string)
    requires s != "" && s[0] != '+' && s[0] != '-' && (|s| == 1 || s[0] != '0')
    requires ParseU256(s, 10).Some?
    ensures Detect(s) == Some(Decimal)
  {
  }

  lemma DetectPrinted(m: nat, b: Base)
    requires m < TWO_256
    ensures Detect(Prefix(b) + Printed(m, Radix(b))) == Some(b)
  {
    var s := Printed(m, Radix(b));
    PrintedFacts(m, Radix(b));
    if b == Decimal {
      assert Prefix(b) + s == s;
      DetectDecimal(s);
    } else {
      DetectPrefixed(s, b);
    }
  }

  lemma ParsePrefixed(s: string, b: Base)
    requires b != Decimal
    ensures ParseDigits(Prefix(b) + s, b) == ParseU256(s, Radix(b))
  {
    var text := Prefix(b) + s;
    assert text[0] == '0' && text[1] == Prefix(b)[1] && text[2..] == s;
    assert HasPrefix(text);
  }

  lemma ParsePrinted(m: nat, b: Base)
    requires m < TWO_256
    ensures ParseDigits(Prefix(b) + Printed(m, Radix(b)), b) == Some(m)
  {
    var s := Printed(m, Radix(b));
    PrintedFacts(m, Radix(b));
    if b == Decimal {
      assert Prefix(b) + s == s;
    } else {
      ParsePrefixed(s, b);
    }
  }

  /** Parsing a signed, prefixed magnitude with base detection. */
  lemma ParseSigned(m: nat, b: Base, negative: bool)
    requires m < TWO_256
    ensures ParseInt((if negative then "-" else "") + Prefix(b) + Printed(m, Radix(b)), None)
         == Some(NumberWithBase(if negative then Negated(m) else m, !negative, b))
  {
    var sign, prefix, digits := if negative then "-" else "", Prefix(b), Printed(m, Radix(b));
    assert sign + prefix + digits == sign + (prefix + digits);
    DetectPrinted(m, b);
    ParsePrinted(m, b);
    BodyStarts(m, b);
    ParseUnsigned(prefix + digits, b, m, negative);
  }

  lemma BodyStarts(m: nat, b: Base)
    requires m < TWO_256
    ensures var body := Prefix(b) + Printed(m, Radix(b)); body != "" && body[0] != '+' && body[0] != '-'
  {
    var digits := Printed(m, Radix(b));
    PrintedFacts(m, Radix(b));
    if b == Decimal {
      assert Prefix(b) + digits == digits;
    } else {
      assert (Prefix(b) + digits)[0] == '0';
    }
  }

  lemma ParseUnsigned(body: string, b: Base, m: nat, negative: bool)
    requires body != "" && body[0] != '+' && body[0] != '-'
    requires Detect(body) == Some(b) && ParseDigits(body, b) == Some(m)
    ensures ParseInt((if negative then "-" else "") + body, None)
         == Some(NumberWithBase(if negative then Negated(m) else m, !negative, b))
  {
    var s := (if negative then "-" else "") + body;
    if negative {
      assert s[1..] == body;
      ParseNegative(s, b, m);
    } else {
      assert s == body;
    }
  }

  lemma ParseNegative(s: string, b: Base, m: nat)
    requires s != "" && s[0] == '-'
    requires Detect(s[1..]) == Some(b) && ParseDigits(s[1..], b) == Some(m)
    ensures ParseInt(s, None) == Some(NumberWithBase(Negated(m), false, b))
  {
    assert Detect(s) == Detect(s[1..]);
  }

  // ---------------------------------------------------------------- the round trips

  /** What parsing makes of the printed form of any number with base. */
  function Reparsed(n: NumberWithBase): NumberWithBase
    requires n.Valid()
  {
    var negative := n.base == Decimal && !n.isNonnegative && n.number != 0;
    NumberWithBase(if negative then Negated(Magnitude(n)) else n.number, !negative, n.base)
  }

  lemma ShowParses(n: NumberWithBase)
    requires n.Valid()
    ensures ParseInt(Show(n, true), None) == Some(Reparsed(n))
  {
    if n.number == 0 {
      ParseSigned(0, n.base, false);
      assert "" + Prefix(n.base) + "0" == Prefix(n.base) + "0";
    } else {
      FormatIsPrinted(n);
      ParseSigned(Magnitude(n), n.base, n.base == Decimal && !n.isNonnegative);
    }
  }

  /**
    Printing with prefix and parsing with detection returns base and word if and only if the sign
    flag is not set against the word: only a decimal flagged negative whose word is a positive
    two's-complement number comes back as something else.
   */
  lemma ShowParsesBack(n: NumberWithBase)
    requires n.Valid()
    ensures ParseInt(Show(n, true), None).Some?
    ensures var back := ParseInt(Show(n, true), None).value;
      && back.base == n.base
      && (back.number == n.number <==>
            n.base != Decimal || n.isNonnegative || n.number == 0 || n.number >= TWO_255)
  {
    ShowParses(n);
  }

  /** Every integer in [-2^255, 2^256) survives in every base, in decimal with its sign. */
  lemma IntegerRoundTrip(z: int, b: Base)
    requires -TWO_255 <= z < TWO_256
    ensures ParseInt(Show(FromInt(z, b), true), None)
         == Some(FromInt(z, b).(isNonnegative := b != Decimal || z >= 0))
  {
    ShowParses(FromInt(z, b));
  }

  /** The unprefixed `format` text parses under its own base to the printed magnitude: no leading zero
      is left that could be taken for a prefix. */
  lemma FormatParses(n: NumberWithBase)
    requires n.Valid()
    ensures ParseUint(Format(n), Some(n.base)) == Some(NumberWithBase(Magnitude(n), true, n.base))
  {
    var s := Printed(Magnitude(n), Radix(n.base));
    PrintedFacts(Magnitude(n), Radix(n.base));
    if Magnitude(n) == 0 {
      assert "0"[1..] == "";
      assert TrimZeros("0") == TrimZeros("") == "";
      assert ParseU256("", Radix(n.base)) == Some(0);
    }
  }

  /** What parses has nothing but digits of the radix and underscores in front. */
  lemma {:induction false} ParsedDigits(s: string, r: nat, i: nat)
    requires IsRadix(r) && ParseU256(s, r).Some? && i < |s|
    ensures s[i] == '_' || (DigitValue(s[i]).Some? && DigitValue(s[i]).value < r)
  {
    if i < |s| - 1 {
      ParsedDigits(s[..|s| - 1], r, i);
    }
  }

  /** Dropping the first two characters of a hexadecimal text, the second of which counts. */
  lemma {:induction false} DroppedDigits(s: string)
    requires |s| >= 2 && s[0] == '0' && (s[1] == 'b' || s[1] == 'B') && ParseU256(s, 16).Some?
    ensures ParseU256(s[2..], 16).Some? && ParseU256(s[2..], 16).value < ParseU256(s, 16).value
  {
    var front := s[..|s| - 1];
    if |s| == 2 {
      assert front == [s[0]] && front[..0] == "" && s[2..] == "";
      ZeroParses(front, 16);
    } else {
      DroppedDigits(front);
      assert front[2..] == s[2..][..|s| - 3];
      assert s[2..][|s| - 3] == s[|s| - 1];
    }
  }

  /**
    `_parse_uint` drops a prefix whatever the base. For a text that is a number in the given base this
    goes wrong exactly under base sixteen when the text starts with "0b" or "0B": there, two digits are
    taken for a prefix.
   */
  lemma FalsePrefixIff(s: string, b: Base)
    requires ParseU256(s, Radix(b)).Some?
    ensures ParseDigits(s, b) == ParseU256(s, Radix(b)) <==> !(b == Hexadecimal && ("0b" <= s || "0B" <= s))
  {
    if HasPrefix(s) {
      ParsedDigits(s, Radix(b), 1);
      assert b == Hexadecimal && (s[1] == 'b' || s[1] == 'B');
      assert "0b" <= s || "0B" <= s;
      DroppedDigits(s);
    }
  }

  /** Such a text: under an explicit base sixteen, "0b1" is read as 0x1 and not as 0xb1. */
  lemma FalsePrefix()
    ensures ParseDigits("0b1", Hexadecimal) == Some(0x1) && ParseU256("0b1", 16) == Some(0xb1)
  {
    ZeroParses("0", 16);
    ParseSnoc("0", 'b', 16, 0, 11);
    assert "0" + ['b'] == "0b";
    ParseSnoc("0b", '1', 16, 0xb, 1);
    assert "0b" + ['1'] == "0b1";
    assert "0b1"[2..] == "" + ['1'];
    ParseSnoc("", '1', 16, 0, 1);
  }

  /**
    Converting between different bases keeps the word, as read back with detection, if and only if
    the target is not decimal or the input is not a negated number above 2^255.
   */
  lemma ToBaseKeepsWord(value: string, baseIn: Option<Base>, baseOut: Base)
    requires ToBase(value, baseIn, baseOut).Some?
    requires (if baseIn.Some? then baseIn else Detect(value)) != Some(baseOut)
    ensures var b := if baseIn.Some? then baseIn else Detect(value);
      var n, back := ParseInt(value, b), ParseInt(ToBase(value, baseIn, baseOut).value, None);
      && n.Some? && back.Some? && back.value.base == baseOut
      && var magnitude := ParseDigits(Unsigned(value), b.value);
         && magnitude.Some?
         && (back.value.number == n.value.number <==>
               !(baseOut == Decimal && IsNegative(value) && magnitude.value > TWO_255))
  {
    var b := if baseIn.Some? then baseIn else Detect(value);
    var n := ParseInt(value, b).value;
    ShowParsesBack(n.(base := baseOut));
  }

  /** An input whose word changes: the negation of 2^256 - 1 is the word 1; printed in decimal it is
      "-1", whose word is 2^256 - 1. */
  lemma NegatedMaxChanges()
    ensures var value := "-" + Prefix(Hexadecimal) + Printed(TWO_256 - 1, 16);
      && ParseInt(value, None) == Some(NumberWithBase(1, false, Hexadecimal))
      && ToBase(value, None, Decimal).Some?
      && ParseInt(ToBase(value, None, Decimal).value, None) == Some(NumberWithBase(TWO_256 - 1, false, Decimal))
  {
    var value := "-" + Prefix(Hexadecimal) + Printed(TWO_256 - 1, 16);
    ParseSigned(TWO_256 - 1, Hexadecimal, true);
    ShowParses(NumberWithBase(1, false, Decimal));
  }

  // ---------------------------------------------------------------- what is detected, and converted to what

  /** The digits and the letters of either case, and no other character, have a value. */
  lemma DigitValueIff(c: char, d: nat)
    ensures DigitValue(c) == Some(d) <==>
      || (d < 10 && c as int == '0' as int + d)
      || (10 <= d < 36 && (c as int == 'a' as int + d - 10 || c as int == 'A' as int + d - 10))
  {
  }

  predicate IsDigit(c: char, r: nat) {
    DigitValue(c).Some? && DigitValue(c).value < r
  }

  /** Digits of the radix, and underscores anywhere. */
  predicate Numeral(s: string, r: nat) {
    forall i :: 0 <= i < |s| ==> s[i] == '_' || IsDigit(s[i], r)
  }

  /** The value of a numeral, read from the left with nothing cut off. */
  function Value(s: string, r: nat, high: nat): nat {
    if s == "" then high
    else if s[0] != '_' && DigitValue(s[0]).Some? then Value(s[1..], r, high * r + DigitValue(s[0]).value)
    else Value(s[1..], r, high)
  }

  /** A numeral for a 256-bit word. */
  predicate IsWord(s: string, r: nat) {
    Numeral(s, r) && Value(s, r, 0) < TWO_256
  }

  lemma {:induction false} ValueSnoc(s: string, c: char, r: nat, high: nat)
    ensures Value(s + [c], r, high) ==
      if c != '_' && DigitValue(c).Some? then Value(s, r, high) * r + DigitValue(c).value else Value(s, r, high)
  {
    if s == "" {
      assert s + [c] == [c];
      assert [c][1..] == "";
    } else {
      assert (s + [c])[1..] == s[1..] + [c];
      var counts := s[0] != '_' && DigitValue(s[0]).Some?;
      ValueSnoc(s[1..], c, r, if counts then high * r + DigitValue(s[0]).value else high);
    }
  }

  lemma ValueLast(s: string, r: nat)
    requires s != ""
    ensures var front, c := s[..|s| - 1], s[|s| - 1];
      var high := Value(front, r, 0);
      && Value(s, r, 0) == (if c != '_' && DigitValue(c).Some? then high * r + DigitValue(c).value else high)
      && (Numeral(s, r) <==> Numeral(front, r) && (c == '_' || IsDigit(c, r)))
  {
    var front, c := s[..|s| - 1], s[|s| - 1];
    assert s == front + [c];
    ValueSnoc(front, c, r, 0);
  }

  /** `from_str_radix` succeeds exactly on the numerals of 256-bit words, and gives their value. */
  lemma {:induction false} ParseIff(s: string, r: nat)
    requires IsRadix(r)
    ensures ParseU256(s, r) == if IsWord(s, r) then Some(Value(s, r, 0)) else None
  {
    if s != "" {
      ParseIff(s[..|s| - 1], r);
      ValueLast(s, r);
      ParseStep(s, r);
    }
  }

  lemma ParseStep(s: string, r: nat)
    requires IsRadix(r) && s != ""
    ensures var front, c := s[..|s| - 1], s[|s| - 1];
      ParseU256(s, r) ==
        match ParseU256(front, r)
        case None => None
        case Some(high) =>
          if c == '_' then Some(high)
          else if IsDigit(c, r) && high * r + DigitValue(c).value < TWO_256 then Some(high * r + DigitValue(c).value)
          else None
  {
  }

  /** How many digits of the radix are in front; an underscore is none. */
  function Lead(s: string, r: nat): (k: nat)
    ensures k <= |s| && forall i :: 0 <= i < k ==> IsDigit(s[i], r) && s[i] != '_'
    ensures k < |s| ==> !IsDigit(s[k], r)
  {
    if s == "" || !IsDigit(s[0], r) then 0 else 1 + Lead(s[1..], r)
  }

  lemma {:induction false} LeadSnoc(s: string, c: char, r: nat)
    ensures Lead(s + [c], r) ==
      if Lead(s, r) < |s| then Lead(s, r) else if IsDigit(c, r) then |s| + 1 else |s|
  {
    if s == "" {
      assert s + [c] == [c] && [c][1..] == "";
    } else {
      assert (s + [c])[1..] == s[1..] + [c];
      LeadSnoc(s[1..], c, r);
    }
  }

  /** The outcome of the probe: digits to the end, or a bad digit, unless it overflows before. */
  function Outcome(s: string, r: nat): U64Result {
    var v := Value(s[..Lead(s, r)], r, 0);
    if v > U64_MAX then Failed(PosOverflow) else if Lead(s, r) < |s| then Failed(InvalidDigit) else U64(v)
  }

  lemma {:induction false} ProbeOutcome(s: string, r: nat)
    requires IsRadix(r)
    ensures ProbeDigits(s, r) == Outcome(s, r)
  {
    if s != "" {
      var front, c := s[..|s| - 1], s[|s| - 1];
      ProbeOutcome(front, r);
      assert s == front + [c];
      if Lead(front, r) == |front| && IsDigit(c, r) {
        OutcomeDigit(front, c, r);
      } else {
        OutcomeOther(front, c, r);
      }
    }
  }

  lemma OutcomeDigit(front: string, c: char, r: nat)
    requires IsRadix(r) && Lead(front, r) == |front| && IsDigit(c, r)
    ensures var high := Value(front, r, 0);
      var v := Append(high, r, DigitValue(c).value);
      && v >= high
      && Outcome(front, r) == (if high > U64_MAX then Failed(PosOverflow) else U64(high))
      && Outcome(front + [c], r) == (if v > U64_MAX then Failed(PosOverflow) else U64(v))
  {
    LeadSnoc(front, c, r);
    ValueSnoc(front, c, r, 0);
    OutcomeWhole(front, r);
    OutcomeWhole(front + [c], r);
  }

  lemma OutcomeWhole(s: string, r: nat)
    requires Lead(s, r) == |s|
    ensures Outcome(s, r) == if Value(s, r, 0) > U64_MAX then Failed(PosOverflow) else U64(Value(s, r, 0))
  {
    assert s[..|s|] == s;
  }

  lemma OutcomeOther(front: string, c: char, r: nat)
    requires !(Lead(front, r) == |front| && IsDigit(c, r))
    ensures Outcome(front + [c], r) == if Outcome(front, r).U64? then Failed(InvalidDigit) else Outcome(front, r)
    ensures Outcome(front, r).U64? ==> !IsDigit(c, r)
  {
    LeadSnoc(front, c, r);
    assert (front + [c])[..Lead(front, r)] == front[..Lead(front, r)];
  }

  /** The 64-bit probe accepts a text exactly if it sees, after at most one plus sign, digits to the end, or
      so many digits that it overflows before it sees anything else. */
  predicate Probed(s: string, r: nat) {
    var digits := if s != "" && s[0] == '+' then s[1..] else s;
    digits != "" && (Lead(digits, r) == |digits| || Value(digits[..Lead(digits, r)], r, 0) > U64_MAX)
  }

  lemma ProbeIff(s: string, r: nat)
    requires IsRadix(r)
    ensures Accepts(Probe(s, r)) <==> Probed(s, r)
  {
    ProbeOutcome(if s != "" && s[0] == '+' then s[1..] else s, r);
  }

  /** The text after all its signs. */
  function StripSigns(s: string): (t: string)
    ensures t == "" || !(t[0] in "+-")
    ensures |t| <= |s| && t == s[|s| - |t|..] && forall i :: 0 <= i < |s| - |t| ==> s[i] in "+-"
  {
    if s == "" || !(s[0] in "+-") then s
    else
      var t := StripSigns(s[1..]);
      assert t == s[|s| - |t|..] && forall i :: 1 <= i < |s| - |t| ==> s[i] == s[1..][i - 1];
      t
  }

  predicate Prefixed(s: string) {
    "0b" <= s || "0o" <= s || "0x" <= s
  }

  lemma {:induction false} DetectStripped(s: string)
    ensures Detect(s) == Detect(StripSigns(s))
  {
    if s != "" && s[0] in "+-" {
      DetectStripped(s[1..]);
    }
  }

  lemma DetectUnprefixed(t: string)
    requires (t == "" || !(t[0] in "+-")) && !Prefixed(t)
    ensures Detect(t) == if IsWord(t, 10) then Some(Decimal) else if IsWord(t, 16) then Some(Hexadecimal) else None
  {
    ParseIff(t, 10);
    ParseIff(t, 16);
  }

  lemma DetectProbed(t: string, b: Base)
    requires b != Decimal && Prefix(b) <= t
    ensures Detect(t) == if Probed(t[2..], Radix(b)) then Some(b) else None
  {
    assert t[0] == '0' && t[1] == Prefix(b)[1];
    ProbeIff(t[2..], Radix(b));
  }

  /** Which base is to be detected of a text without sign. */
  predicate Verdict(t: string, found: Option<Base>) {
    && (found == Some(Binary) <==> "0b" <= t && Probed(t[2..], 2))
    && (found == Some(Octal) <==> "0o" <= t && Probed(t[2..], 8))
    && (found == Some(Decimal) <==> !Prefixed(t) && IsWord(t, 10))
    && (found == Some(Hexadecimal) <==>
          if Prefixed(t) then "0x" <= t && Probed(t[2..], 16) else !IsWord(t, 10) && IsWord(t, 16))
  }

  lemma VerdictUnprefixed(t: string)
    requires (t == "" || !(t[0] in "+-")) && !Prefixed(t)
    ensures Verdict(t, Detect(t))
  {
    DetectUnprefixed(t);
  }

  lemma VerdictProbed(t: string, b: Base)
    requires b != Decimal && Prefix(b) <= t
    ensures Verdict(t, Detect(t))
  {
    DetectProbed(t, b);
    assert t[1] == Prefix(b)[1];
  }

  /**
    Which base is detected, for every text. Signs do not matter. A prefix decides, if the probe accepts what
    follows it; without one, a numeral is decimal if it can be, and hexadecimal otherwise.
   */
  lemma DetectIff(s: string)
    ensures Verdict(StripSigns(s), Detect(s))
  {
    var t := StripSigns(s);
    DetectStripped(s);
    if "0b" <= t {
      VerdictProbed(t, Binary);
    } else if "0o" <= t {
      VerdictProbed(t, Octal);
    } else if "0x" <= t {
      VerdictProbed(t, Hexadecimal);
    } else {
      VerdictUnprefixed(t);
    }
  }

  /** The digits after one prefix of either case. */
  function DropPrefix(u: string): string {
    if |u| >= 2 && u[..2] in {"0x", "0X", "0o", "0O", "0b", "0B"} then u[2..] else u
  }

  /** The digits after one sign and one prefix. */
  function Core(value: string): string {
    DropPrefix(if value != "" && value[0] in "+-" then value[1..] else value)
  }

  lemma DigitsIff(u: string, b: Base)
    ensures ParseDigits(u, b) ==
      if IsWord(DropPrefix(u), Radix(b)) then Some(Value(DropPrefix(u), Radix(b), 0)) else None
  {
    assert |u| >= 2 ==> u[..2] == [u[0], u[1]];
    assert HasPrefix(u) <==> |u| >= 2 && u[..2] in {"0x", "0X", "0o", "0O", "0b", "0B"};
    ParseIff(DropPrefix(u), Radix(b));
  }

  /** What `parse_uint` makes of every text: the base given or detected, and the word of the digits. */
  lemma ParseUintIff(s: string, base: Option<Base>)
    ensures var b := if base.Some? then base else Detect(s);
      ParseUint(s, base) ==
        if b.None? || !IsWord(DropPrefix(s), Radix(b.value)) then None
        else Some(NumberWithBase(Value(DropPrefix(s), Radix(b.value), 0), true, b.value))
  {
    var b := if base.Some? then base else Detect(s);
    if b.Some? {
      DigitsIff(s, b.value);
    }
  }

  /** What `parse_int` makes of every text: after a minus sign, the two's complement of the word. */
  lemma ParseIntIff(s: string, base: Option<Base>)
    ensures var b := if base.Some? then base else Detect(s);
      ParseInt(s, base) ==
        if b.None? || !IsWord(Core(s), Radix(b.value)) then None
        else Some(Signed(Value(Core(s), Radix(b.value), 0), s != "" && s[0] == '-', b.value))
  {
    var b := if base.Some? then base else Detect(s);
    if b.Some? {
      ParseIntIn(s, b.value);
    }
  }

  lemma ParseIntIn(s: string, b: Base)
    ensures ParseInt(s, Some(b)) ==
      if !IsWord(Core(s), Radix(b)) then None
      else Some(Signed(Value(Core(s), Radix(b), 0), s != "" && s[0] == '-', b))
  {
    DigitsIff(Unsigned(s), b);
    assert Core(s) == DropPrefix(Unsigned(s));
  }

  function Signed(v: nat, negative: bool, b: Base): (n: NumberWithBase)
    requires v < TWO_256
    ensures n.Valid()
  {
    NumberWithBase(if negative && v > 0 then TWO_256 - v else v, !negative, b)
  }

  /**
    When a conversion succeeds, and to what text. To the base the text is in already, the text is returned as
    it is. Otherwise its digits must be a numeral of a 256-bit word in its base; a minus sign takes the two's
    complement, which is printed as a negative number in decimal and as the word in the other bases.
   */
  lemma ToBaseIff(value: string, baseIn: Option<Base>, baseOut: Base)
    ensures var from := if baseIn.Some? then baseIn else Detect(value);
      ToBase(value, baseIn, baseOut) ==
        if from.None? then None
        else if from == Some(baseOut) then Some(value)
        else if !IsWord(Core(value), Radix(from.value)) then None
        else Some(Converted(Value(Core(value), Radix(from.value), 0), value != "" && value[0] == '-', baseOut))
  {
    var from := if baseIn.Some? then baseIn else Detect(value);
    if from.Some? && from.value != baseOut {
      ParseIntIff(value, from);
      if IsWord(Core(value), Radix(from.value)) {
        ShowConverted(Value(Core(value), Radix(from.value), 0), IsNegative(value), baseOut);
      }
    }
  }

  /** A number below 2^256, perhaps negated, in another base. */
  function Converted(v: nat, negative: bool, b: Base): string
    requires v < TWO_256
  {
    if b == Decimal && negative && v > 0 then "-" + Printed(if v <= TWO_255 then v else TWO_256 - v, 10)
    else Prefix(b) + Printed(if negative && v > 0 then TWO_256 - v else v, Radix(b))
  }

  lemma ShowConverted(v: nat, negative: bool, b: Base)
    requires v < TWO_256
    ensures Show(Signed(v, negative, b), true) == Converted(v, negative, b)
  {
    var n := Signed(v, negative, b);
    if n.number != 0 {
      FormatIsPrinted(n);
      assert "-" + "" == "-" && "" + Prefix(b) == Prefix(b);
    }
  }

  // ---------------------------------------------------------------- printed digits

  /** What is printed: lower-case digits of the radix, with the number as value. */
  lemma PrintedValue(n: nat, r: nat)
    requires IsRadix(r) && n < TWO_256
    ensures var s := Printed(n, r);
      && s != "" && (s[0] == '0' ==> n == 0 && s == "0")
      && Value(s, r, 0) == n && forall i :: 0 <= i < |s| ==> LowerDigit(s[i], r)
  {
    PrintedFacts(n, r);
    ParseIff(Printed(n, r), r);
    if n > 0 {
      DigitsLower(n, r);
    }
  }

  predicate LowerDigit(c: char, r: nat) {
    IsDigit(c, r) && !('A' <= c <= 'Z')
  }

  lemma {:induction false} DigitsLower(n: nat, r: nat)
    requires IsRadix(r)
    ensures forall i :: 0 <= i < |Digits(n, r)| ==> LowerDigit(Digits(n, r)[i], r)
  {
    if n > 0 {
      Split(n, r);
      DigitsLower(High(n, r), r);
      DigitRoundTrip(Low(n, r));
    }
  }

  predicate DecimalDigits(s: string) {
    forall i :: 0 <= i < |s| ==> '0' <= s[i] <= '9'
  }

  /** Read in decimal, digits are worth no more than read in hexadecimal. */
  lemma {:induction false} DecimalIsLess(s: string)
    requires DecimalDigits(s)
    ensures Value(s, 10, 0) <= Value(s, 16, 0)
  {
    if s != "" {
      DecimalIsLess(s[..|s| - 1]);
      ValueLast(s, 10);
      ValueLast(s, 16);
    }
  }

  /**
    Hexadecimal digits without their prefix are recognised exactly if there is a letter among them: then the
    number converts to decimal; otherwise the digits pass for decimal ones and come back as they are.
   */
  lemma UnprefixedHex(n: nat)
    requires n < TWO_256
    ensures var s := Printed(n, 16);
      && Detect(s) == Some(if DecimalDigits(s) then Decimal else Hexadecimal)
      && ToBase(s, None, Decimal) == Some(if DecimalDigits(s) then s else Printed(n, 10))
  {
    var s := Printed(n, 16);
    PrintedValue(n, 16);
    PrintedFacts(n, 16);
    NoSignNoPrefix(s);
    DecimalNumeral(s);
    DetectUnprefixed(s);
    ToBaseIff(s, None, Decimal);
    assert "" + Printed(n, 10) == Printed(n, 10);
  }

  lemma DecimalNumeral(s: string)
    requires forall i :: 0 <= i < |s| ==> LowerDigit(s[i], 16)
    requires Value(s, 16, 0) < TWO_256
    ensures IsWord(s, 16) && (IsWord(s, 10) <==> DecimalDigits(s))
  {
    if DecimalDigits(s) {
      DecimalIsLess(s);
    }
  }

  lemma NoSignNoPrefix(s: string)
    requires s != "" && Plain(s) && (s[0] == '0' ==> s == "0")
    ensures !(s[0] in "+-") && !Prefixed(s) && Core(s) == s
  {
    assert |s| >= 2 ==> s[..2][0] == s[0];
  }
}
