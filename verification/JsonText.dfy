/**
  The JSON reader behind `cast to-rlp`: serde_json with arbitrary-precision numbers, which keeps a
  number as its text. Objects and escapes in strings are outside the modelled fragment. Every document
  of the fragment, however it is spaced, is read back, exactly if it is not nested too deeply.
 */
module JsonText {

  datatype Value = Null | Bool(b: bool) | Number(text: string) | Str(s: string) | Arr(values: seq<Value>) | Object

  /** `Parsed` with the text left over, `Malformed` for what is not JSON or nested too deeply, and
      `Unmodelled` outside the fragment. */
  datatype Parse<+T> = Parsed(value: T, rest: string) | Malformed | Unmodelled

  /** serde_json refuses arrays nested this deep. */
  const RECURSION_LIMIT: nat := 128

  // ---------------------------------------------------------------- white space, strings, literals

  predicate Space(c: char) {
    c == ' ' || c == '\t' || c == '\n' || c == '\r'
  }

  function SkipSpace(s: string): (r: string)
    ensures |r| <= |s|
    ensures s == "" || !Space(s[0]) ==> r == s
  {
    if s != "" && Space(s[0]) then SkipSpace(s[1..]) else s
  }

  predicate PlainChar(c: char) {
    c != '"' && c != '\\' && c >= ' '
  }

  predicate PlainText(s: string) {
    forall i :: 0 <= i < |s| ==> PlainChar(s[i])
  }

  /** The characters up to the closing quote. */
  function ReadString(s: string): (r: Parse<string>)
    ensures r.Parsed? ==> |r.rest| < |s|
  {
    if s == "" then Malformed
    else if s[0] == '"' then Parsed("", s[1..])
    else if s[0] == '\\' then Unmodelled
    else if s[0] < ' ' then Malformed
    else
      match ReadString(s[1..])
      case Parsed(more, rest) => Parsed([s[0]] + more, rest)
      case Malformed => Malformed
      case Unmodelled => Unmodelled
  }

  function ReadLiteral(s: string, literal: string, v: Value): (r: Parse<Value>)
    requires literal != ""
    ensures r.Parsed? ==> |r.rest| < |s|
  {
    if literal <= s then Parsed(v, s[|literal|..]) else Malformed
  }

  // ---------------------------------------------------------------- numbers

  predicate Digit(c: char) {
    '0' <= c <= '9'
  }

  predicate AllDigits(s: string) {
    forall i :: 0 <= i < |s| ==> Digit(s[i])
  }

  predicate Starts(s: string, chars: string) {
    s != "" && s[0] in chars
  }

  /** Digits without a leading zero. */
  predicate IntegerPart(s: string) {
    s != "" && AllDigits(s) && (s[0] == '0' ==> |s| == 1)
  }

  /** Nothing, or a point and digits. */
  predicate FractionPart(s: string) {
    s == "" || (s[0] == '.' && |s| > 1 && AllDigits(s[1..]))
  }

  /** Nothing, or an `e` of either case, perhaps a sign, and digits. */
  predicate ExponentPart(s: string) {
    s == "" || (s[0] in "eE" && |s| > 1
                && var d := if s[1] in "+-" then s[2..] else s[1..]; d != "" && AllDigits(d))
  }

  predicate NumberParts(sign: string, integer: string, fraction: string, exponent: string) {
    && (sign == "" || sign == "-") && IntegerPart(integer)
    && FractionPart(fraction) && ExponentPart(exponent)
  }

  /** The grammar of JSON numbers, section 6 of RFC 8259. */
  ghost predicate IsNumber(s: string) {
    exists sign, integer, fraction, exponent ::
      NumberParts(sign, integer, fraction, exponent) && s == sign + integer + fraction + exponent
  }

  /** The digits at the front, and the rest. */
  function TakeDigits(s: string): (r: (string, string))
    ensures s == r.0 + r.1 && AllDigits(r.0) && (r.1 == "" || !Digit(r.1[0]))
  {
    if s == "" || !Digit(s[0]) then ("", s)
    else
      var (digits, rest) := TakeDigits(s[1..]);
      ([s[0]] + digits, rest)
  }

  function ReadInteger(s: string): (r: Parse<string>)
    ensures r.Parsed? ==> |r.rest| < |s|
  {
    var (digits, rest) := TakeDigits(s);
    if digits == "" || (digits[0] == '0' && |digits| > 1) then Malformed else Parsed(digits, rest)
  }

  function ReadFraction(s: string): (r: Parse<string>)
    ensures r.Parsed? ==> |r.rest| <= |s|
  {
    if !Starts(s, ".") then Parsed("", s)
    else
      var (digits, rest) := TakeDigits(s[1..]);
      if digits == "" then Malformed else Parsed(s[..1] + digits, rest)
  }

  function ReadExponent(s: string): (r: Parse<string>)
    ensures r.Parsed? ==> |r.rest| <= |s|
  {
    if !Starts(s, "eE") then Parsed("", s)
    else
      var a := if Starts(s[1..], "+-") then 2 else 1;
      var (digits, rest) := TakeDigits(s[a..]);
      if digits == "" then Malformed else Parsed(s[..a] + digits, rest)
  }

  function ReadNumber(s: string): (r: Parse<Value>)
    ensures r.Parsed? ==> r.value.Number? && |r.rest| < |s|
  {
    var sign := if Starts(s, "-") then "-" else "";
    match ReadInteger(s[|sign|..])
    case Parsed(integer, rest) =>
      (match ReadFraction(rest)
       case Parsed(fraction, rest') =>
         (match ReadExponent(rest')
          case Parsed(exponent, rest'') => Parsed(Number(sign + integer + fraction + exponent), rest'')
          case _ => Malformed)
       case _ => Malformed)
    case _ => Malformed
  }

  // ---------------------------------------------------------------- values

  /** One value, with the nesting budget that is left. */
  function ReadValue(text: string, budget: nat): (r: Parse<Value>)
    ensures r.Parsed? ==> |r.rest| < |text|
    decreases |text|, 0
  {
    var s := SkipSpace(text);
    if s == "" then Malformed
    else if s[0] == '"' then
      match ReadString(s[1..])
      case Parsed(t, rest) => Parsed(Str(t), rest)
      case Malformed => Malformed
      case Unmodelled => Unmodelled
    else if s[0] == '[' then
      if budget <= 1 then Malformed
      else
        match ReadArray(s[1..], budget - 1)
        case Parsed(values, rest) => Parsed(Arr(values), rest)
        case Malformed => Malformed
        case Unmodelled => Unmodelled
    else if s[0] == 'n' then ReadLiteral(s, "null", Null)
    else if s[0] == 't' then ReadLiteral(s, "true", Bool(true))
    else if s[0] == 'f' then ReadLiteral(s, "false", Bool(false))
    else if s[0] == '-' || Digit(s[0]) then ReadNumber(s)
    else if s[0] == '{' then Unmodelled
    else Malformed
  }

  function ReadArray(text: string, budget: nat): (r: Parse<seq<Value>>)
    ensures r.Parsed? ==> |r.rest| < |text|
    decreases |text|, 2
  {
    var s := SkipSpace(text);
    if s != "" && s[0] == ']' then Parsed([], s[1..]) else ReadElements(text, budget)
  }

  function ReadElements(text: string, budget: nat): (r: Parse<seq<Value>>)
    ensures r.Parsed? ==> |r.rest| < |text|
    decreases |text|, 1
  {
    match ReadValue(text, budget)
    case Malformed => Malformed
    case Unmodelled => Unmodelled
    case Parsed(v, rest) =>
      match ReadTail(rest, budget)
      case Malformed => Malformed
      case Unmodelled => Unmodelled
      case Parsed(vs, rest') => Parsed([v] + vs, rest')
  }

  function ReadTail(text: string, budget: nat): (r: Parse<seq<Value>>)
    ensures r.Parsed? ==> |r.rest| < |text|
    decreases |text|, 0
  {
    var s := SkipSpace(text);
    if s == "" then Malformed
    else if s[0] == ']' then Parsed([], s[1..])
    else if s[0] == ',' then ReadElements(s[1..], budget)
    else Malformed
  }

  /** `serde_json::from_str`: one value and nothing but white space after it. */
  function ReadJson(text: string): Parse<Value> {
    match ReadValue(text, RECURSION_LIMIT)
    case Malformed => Malformed
    case Unmodelled => Unmodelled
    case Parsed(v, rest) => if SkipSpace(rest) == "" then Parsed(v, "") else Malformed
  }

  // ---------------------------------------------------------------- the reader knows numbers

  lemma {:induction false} DigitsOf(digits: string, rest: string)
    requires AllDigits(digits) && (rest == "" || !Digit(rest[0]))
    ensures TakeDigits(digits + rest) == (digits, rest)
  {
    if digits == "" {
      assert digits + rest == rest;
    } else {
      assert (digits + rest)[1..] == digits[1..] + rest;
      DigitsOf(digits[1..], rest);
      assert [digits[0]] + digits[1..] == digits;
    }
  }

  /** What follows a number must not go on with it. */
  predicate Stops(rest: string) {
    rest == "" || !(Digit(rest[0]) || rest[0] in ".eE")
  }

  lemma FractionOf(fraction: string, rest: string)
    requires FractionPart(fraction) && (rest == "" || !(Digit(rest[0]) || rest[0] == '.'))
    ensures ReadFraction(fraction + rest) == Parsed(fraction, rest)
  {
    var s := fraction + rest;
    if fraction == "" {
      assert s == rest;
    } else {
      assert s[1..] == fraction[1..] + rest;
      DigitsOf(fraction[1..], rest);
      assert s[..1] + fraction[1..] == fraction;
    }
  }

  lemma ExponentOf(exponent: string, rest: string)
    requires ExponentPart(exponent) && Stops(rest)
    ensures ReadExponent(exponent + rest) == Parsed(exponent, rest)
  {
    var s := exponent + rest;
    if exponent == "" {
      assert s == rest;
    } else {
      var a := if exponent[1] in "+-" then 2 else 1;
      assert s[0] == exponent[0] && s[1..][0] == exponent[1];
      assert s[a..] == exponent[a..] + rest;
      DigitsOf(exponent[a..], rest);
      assert s[..a] + exponent[a..] == exponent;
    }
  }

  lemma NumberOf(sign: string, integer: string, fraction: string, exponent: string, rest: string)
    requires NumberParts(sign, integer, fraction, exponent) && Stops(rest)
    ensures ReadNumber(sign + (integer + (fraction + (exponent + rest))))
         == Parsed(Number(sign + integer + fraction + exponent), rest)
  {
    var tail := fraction + (exponent + rest);
    assert tail == "" || !Digit(tail[0]);
    DigitsOf(integer, tail);
    FractionOf(fraction, exponent + rest);
    ExponentOf(exponent, rest);
    NumberJoins(sign, integer, integer + tail, fraction, exponent, rest);
  }

  lemma NumberJoins(sign: string, integer: string, s: string, fraction: string, exponent: string, rest: string)
    requires sign == "" || sign == "-"
    requires integer != "" && Digit(integer[0]) && integer <= s
    requires ReadInteger(s).Parsed? && ReadInteger(s).value == integer
    requires ReadFraction(ReadInteger(s).rest).Parsed? && ReadFraction(ReadInteger(s).rest).value == fraction
    requires ReadExponent(ReadFraction(ReadInteger(s).rest).rest) == Parsed(exponent, rest)
    ensures ReadNumber(sign + s) == Parsed(Number(sign + integer + fraction + exponent), rest)
  {
    assert (sign + s)[|sign|..] == s;
    assert (sign + s)[0] == if sign == "" then integer[0] else '-';
  }

  lemma IntegerRead(s: string)
    ensures var r := ReadInteger(s); r.Parsed? ==> s == r.value + r.rest && IntegerPart(r.value)
  {
  }

  lemma FractionRead(s: string)
    ensures var r := ReadFraction(s); r.Parsed? ==> s == r.value + r.rest && FractionPart(r.value)
  {
    if Starts(s, ".") {
      var (digits, rest) := TakeDigits(s[1..]);
      assert (s[..1] + digits)[1..] == digits;
      assert s == s[..1] + (digits + rest);
    }
  }

  lemma ExponentRead(s: string)
    ensures var r := ReadExponent(s); r.Parsed? ==> s == r.value + r.rest && ExponentPart(r.value)
  {
    if Starts(s, "eE") {
      var a := if Starts(s[1..], "+-") then 2 else 1;
      var (digits, rest) := TakeDigits(s[a..]);
      assert s == s[..a] + (digits + rest) && s[..a] + digits + rest == s[..a] + (digits + rest);
      if digits != "" {
        MarkedDigits(s[..a], digits);
      }
    }
  }

  lemma MarkedDigits(mark: string, digits: string)
    requires digits != "" && AllDigits(digits) && 1 <= |mark| <= 2 && mark[0] in "eE"
    requires |mark| == 2 ==> mark[1] in "+-"
    ensures ExponentPart(mark + digits)
  {
    var taken := mark + digits;
    assert taken[0] == mark[0] && taken[|mark|..] == digits;
    assert taken[1] == if |mark| == 2 then mark[1] else digits[0];
  }

  /** What is read as a number is one, and it is what stood in front of the rest: with `NumberWhole`,
      the reader accepts exactly the grammar. */
  lemma NumberRead(s: string)
    requires ReadNumber(s).Parsed?
    ensures IsNumber(ReadNumber(s).value.text) && s == ReadNumber(s).value.text + ReadNumber(s).rest
  {
    var sign := if Starts(s, "-") then "-" else "";
    var integer := ReadInteger(s[|sign|..]);
    var fraction := ReadFraction(integer.rest);
    var exponent := ReadExponent(fraction.rest);
    IntegerRead(s[|sign|..]);
    FractionRead(integer.rest);
    ExponentRead(fraction.rest);
    assert NumberParts(sign, integer.value, fraction.value, exponent.value);
    Regroup(sign, integer.value, fraction.value, exponent.value, exponent.rest);
    assert s == sign + s[|sign|..];
  }

  lemma Regroup(a: string, b: string, c: string, d: string, rest: string)
    ensures a + b + c + d + rest == a + (b + (c + (d + rest)))
  {
  }

  lemma NumberStart(text: string)
    requires IsNumber(text)
    ensures text != "" && (text[0] == '-' || Digit(text[0]))
  {
  }

  lemma NumberWhole(text: string, rest: string)
    requires IsNumber(text) && Stops(rest)
    ensures ReadNumber(text + rest) == Parsed(Number(text), rest)
  {
    var sign, integer, fraction, exponent :|
      NumberParts(sign, integer, fraction, exponent) && text == sign + integer + fraction + exponent;
    NumberOf(sign, integer, fraction, exponent, rest);
    Regroup(sign, integer, fraction, exponent, rest);
  }

  // ---------------------------------------------------------------- documents and their texts

  predicate Blank(s: string) {
    forall i :: 0 <= i < |s| ==> Space(s[i])
  }

  /** A value with the white space around it; `inner` is that of an empty list. */
  datatype Doc = Scalar(before: string, value: Value, after: string)
    | List(before: string, inner: string, docs: seq<Doc>, after: string)

  ghost predicate WellFormedScalar(v: Value) {
    match v
    case Null => true
    case Bool(_) => true
    case Number(text) => IsNumber(text)
    case Str(s) => PlainText(s)
    case _ => false
  }

  ghost predicate WellFormed(doc: Doc) {
    && Blank(doc.before) && Blank(doc.after)
    && match doc
       case Scalar(_, value, _) => WellFormedScalar(value)
       case List(_, inner, docs, _) => Blank(inner) && forall k :: 0 <= k < |docs| ==> WellFormed(docs[k])
  }

  function ScalarText(v: Value): string {
    match v
    case Null => "null"
    case Bool(b) => if b then "true" else "false"
    case Number(text) => text
    case Str(s) => "\"" + s + "\""
    case _ => ""
  }

  /** The document as text, without the white space in front. */
  function Body(doc: Doc): string
    decreases doc, 1
  {
    match doc
    case Scalar(_, value, after) => ScalarText(value) + after
    case List(_, inner, docs, after) => "[" + PrintAll(inner, docs) + after
  }

  function Print(doc: Doc): string
    decreases doc, 2
  {
    doc.before + Body(doc)
  }

  function PrintAll(inner: string, docs: seq<Doc>): string
    decreases docs, 3
  {
    if docs == [] then inner + "]" else Print(docs[0]) + PrintTail(docs[1..])
  }

  function PrintTail(docs: seq<Doc>): string
    decreases docs, 0
  {
    if docs == [] then "]" else "," + Print(docs[0]) + PrintTail(docs[1..])
  }

  function Max(a: nat, b: nat): nat {
    if a < b then b else a
  }

  function Depth(doc: Doc): nat
    decreases doc, 1
  {
    match doc case Scalar(_, _, _) => 0 case List(_, _, docs, _) => 1 + DepthAll(docs)
  }

  function DepthAll(docs: seq<Doc>): nat
    decreases docs, 0
  {
    if docs == [] then 0 else Max(Depth(docs[0]), DepthAll(docs[1..]))
  }

  function ValueOf(doc: Doc): Value
    decreases doc, 1
  {
    match doc case Scalar(_, value, _) => value case List(_, _, docs, _) => Arr(ValuesOf(docs))
  }

  function ValuesOf(docs: seq<Doc>): seq<Value>
    decreases docs, 0
  {
    if docs == [] then [] else [ValueOf(docs[0])] + ValuesOf(docs[1..])
  }

  // ---------------------------------------------------------------- reading documents

  lemma {:induction false} SkipBlank(blank: string, s: string)
    requires Blank(blank)
    ensures SkipSpace(blank + s) == SkipSpace(s)
  {
    if blank == "" {
      assert blank + s == s;
    } else {
      assert (blank + s)[1..] == blank[1..] + s;
      SkipBlank(blank[1..], s);
    }
  }

  lemma ValueAfterBlank(blank: string, s: string, budget: nat)
    requires Blank(blank)
    ensures ReadValue(blank + s, budget) == ReadValue(s, budget)
  {
    SkipBlank(blank, s);
  }

  lemma {:induction false} ReadPlain(s: string, rest: string)
    requires PlainText(s)
    ensures ReadString(s + "\"" + rest) == Parsed(s, rest)
  {
    if s == "" {
      assert s + "\"" + rest == "\"" + rest;
    } else {
      assert (s + "\"" + rest)[1..] == s[1..] + "\"" + rest;
      ReadPlain(s[1..], rest);
      assert [s[0]] + s[1..] == s;
    }
  }

  lemma ReadQuoted(s: string, rest: string, budget: nat)
    requires PlainText(s)
    ensures ReadValue("\"" + s + "\"" + rest, budget) == Parsed(Str(s), rest)
  {
    var text := "\"" + s + "\"" + rest;
    assert text[1..] == s + "\"" + rest;
    ReadPlain(s, rest);
  }

  lemma ReadNumberValue(text: string, rest: string, budget: nat)
    requires IsNumber(text) && Stops(rest)
    ensures ReadValue(text + rest, budget) == Parsed(Number(text), rest)
  {
    NumberStart(text);
    NumberWhole(text, rest);
    ReadDigits(text + rest, budget);
  }

  lemma ReadDigits(s: string, budget: nat)
    requires s != "" && (s[0] == '-' || Digit(s[0]))
    ensures ReadValue(s, budget) == ReadNumber(s)
  {
  }

  lemma ReadLiteralValue(literal: string, v: Value, rest: string, budget: nat)
    requires (literal, v) in {("null", Null), ("true", Bool(true)), ("false", Bool(false))}
    ensures ReadValue(literal + rest, budget) == Parsed(v, rest)
  {
    var s := literal + rest;
    assert s[0] == literal[0] && literal <= s && s[|literal|..] == rest;
  }

  lemma ReadScalar(v: Value, rest: string, budget: nat)
    requires WellFormedScalar(v) && (v.Number? ==> Stops(rest))
    ensures ReadValue(ScalarText(v) + rest, budget) == Parsed(v, rest)
  {
    match v {
      case Number(text) =>
        ReadNumberValue(text, rest, budget);
      case Str(s) =>
        ReadQuoted(s, rest, budget);
      case _ =>
        ReadLiteralValue(ScalarText(v), v, rest, budget);
    }
  }

  /** White space, or what follows in a list or at the end of the text, ends a number. */
  predicate Follows(doc: Doc, rest: string) {
    doc.Scalar? && doc.value.Number? ==> Stops(doc.after + rest)
  }

  /** Every document is read from its text, exactly if the nesting budget covers it. */
  lemma {:induction false} ReadDoc(doc: Doc, rest: string, budget: nat)
    requires WellFormed(doc) && Follows(doc, rest) && budget >= 1
    ensures ReadValue(Print(doc) + rest, budget) ==
      if Depth(doc) < budget then Parsed(ValueOf(doc), doc.after + rest) else Malformed
    decreases doc, 2
  {
    ReadBody(doc, rest, budget);
    assert Print(doc) + rest == doc.before + (Body(doc) + rest);
    ValueAfterBlank(doc.before, Body(doc) + rest, budget);
  }

  lemma {:induction false} ReadBody(doc: Doc, rest: string, budget: nat)
    requires WellFormed(doc) && Follows(doc, rest) && budget >= 1
    ensures ReadValue(Body(doc) + rest, budget) ==
      if Depth(doc) < budget then Parsed(ValueOf(doc), doc.after + rest) else Malformed
    decreases doc, 1
  {
    match doc {
      case Scalar(_, value, after) =>
        ReadScalar(value, after + rest, budget);
        assert Body(doc) + rest == ScalarText(value) + (after + rest);
      case List(_, inner, docs, after) =>
        if budget > 1 {
          ReadList(inner, docs, after + rest, budget - 1);
        }
        ReadBracket(PrintAll(inner, docs) + (after + rest), budget);
        assert Body(doc) + rest == "[" + (PrintAll(inner, docs) + (after + rest));
    }
  }

  lemma ReadBracket(text: string, budget: nat)
    ensures ReadValue("[" + text, budget) ==
      if budget <= 1 then Malformed
      else match ReadArray(text, budget - 1)
           case Parsed(values, rest) => Parsed(Arr(values), rest)
           case Malformed => Malformed
           case Unmodelled => Unmodelled
  {
    assert ("[" + text)[1..] == text;
  }

  lemma {:induction false} ReadList(inner: string, docs: seq<Doc>, rest: string, budget: nat)
    requires Blank(inner) && (forall k :: 0 <= k < |docs| ==> WellFormed(docs[k])) && budget >= 1
    ensures ReadArray(PrintAll(inner, docs) + rest, budget) ==
      if DepthAll(docs) < budget then Parsed(ValuesOf(docs), rest) else Malformed
    decreases docs, 3
  {
    var text := PrintAll(inner, docs) + rest;
    if docs == [] {
      assert text == inner + ("]" + rest);
      SkipBlank(inner, "]" + rest);
      assert ("]" + rest)[1..] == rest;
    } else {
      assert text == Print(docs[0]) + (PrintTail(docs[1..]) + rest);
      NotClosing(docs[0], PrintTail(docs[1..]) + rest);
      ReadDocs(docs, rest, budget);
    }
  }

  lemma BodyStarts(doc: Doc)
    requires WellFormed(doc)
    ensures Body(doc) != "" && !Space(Body(doc)[0]) && Body(doc)[0] != ']'
  {
    if doc.Scalar? && doc.value.Number? {
      NumberStart(doc.value.text);
    }
  }

  /** A document does not start with a closing bracket. */
  lemma NotClosing(doc: Doc, rest: string)
    requires WellFormed(doc)
    ensures var s := SkipSpace(Print(doc) + rest); s != "" && s[0] != ']'
  {
    BodyStarts(doc);
    AfterBlank(doc.before, Body(doc), rest);
  }

  lemma AfterBlank(blank: string, body: string, rest: string)
    requires Blank(blank) && body != "" && !Space(body[0])
    ensures SkipSpace(blank + body + rest) == body + rest
  {
    SkipBlank(blank, body + rest);
    assert blank + body + rest == blank + (body + rest);
  }

  lemma {:induction false} ReadDocs(docs: seq<Doc>, rest: string, budget: nat)
    requires (forall k :: 0 <= k < |docs| ==> WellFormed(docs[k])) && budget >= 1 && docs != []
    ensures ReadElements(Print(docs[0]) + (PrintTail(docs[1..]) + rest), budget) ==
      if DepthAll(docs) < budget then Parsed(ValuesOf(docs), rest) else Malformed
    decreases docs, 0
  {
    var tail := PrintTail(docs[1..]) + rest;
    TailFollows(docs[0], docs[1..], rest);
    ReadDoc(docs[0], tail, budget);
    if Depth(docs[0]) < budget {
      ReadDocTail(docs[0].after, docs[1..], rest, budget);
    }
  }

  lemma TailFollows(doc: Doc, docs: seq<Doc>, rest: string)
    requires WellFormed(doc)
    ensures Follows(doc, PrintTail(docs) + rest)
  {
    var tail := PrintTail(docs) + rest;
    assert tail[0] == ']' || tail[0] == ',';
    assert doc.after != "" ==> Space((doc.after + tail)[0]);
  }

  lemma TailCloses(blank: string, rest: string, budget: nat)
    requires Blank(blank)
    ensures ReadTail(blank + ("]" + rest), budget) == Parsed([], rest)
  {
    SkipBlank(blank, "]" + rest);
    assert ("]" + rest)[1..] == rest;
  }

  lemma TailGoesOn(blank: string, text: string, budget: nat)
    requires Blank(blank)
    ensures ReadTail(blank + ("," + text), budget) == ReadElements(text, budget)
  {
    SkipBlank(blank, "," + text);
    assert ("," + text)[1..] == text;
  }

  lemma {:induction false} ReadDocTail(blank: string, docs: seq<Doc>, rest: string, budget: nat)
    requires Blank(blank) && (forall k :: 0 <= k < |docs| ==> WellFormed(docs[k])) && budget >= 1
    ensures ReadTail(blank + (PrintTail(docs) + rest), budget) ==
      if DepthAll(docs) < budget then Parsed(ValuesOf(docs), rest) else Malformed
    decreases docs, 1
  {
    TailText(docs, rest);
    if docs == [] {
      TailCloses(blank, rest, budget);
    } else {
      TailGoesOn(blank, Print(docs[0]) + (PrintTail(docs[1..]) + rest), budget);
      ReadDocs(docs, rest, budget);
    }
  }

  lemma TailText(docs: seq<Doc>, rest: string)
    ensures PrintTail(docs) + rest ==
      if docs == [] then "]" + rest else "," + (Print(docs[0]) + (PrintTail(docs[1..]) + rest))
  {
    if docs != [] {
      Regroup(",", Print(docs[0]), PrintTail(docs[1..]), "", rest);
      assert "" + rest == rest && "," + Print(docs[0]) + PrintTail(docs[1..]) + "" == PrintTail(docs);
    }
  }

  /** A whole text. */
  lemma JsonOfDoc(doc: Doc)
    requires WellFormed(doc)
    ensures ReadJson(Print(doc)) == if Depth(doc) < RECURSION_LIMIT then Parsed(ValueOf(doc), "") else Malformed
  {
    assert Print(doc) + "" == Print(doc) && doc.after + "" == doc.after;
    assert doc.after != "" ==> Space(doc.after[0]);
    ReadDoc(doc, "", RECURSION_LIMIT);
    SkipBlank(doc.after, "");
  }
}
