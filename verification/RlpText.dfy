/**
  The text form of RLP items: `cast from-rlp` prints an item as JSON with hex strings, `cast to-rlp`
  reads JSON (falling back to a bare string) and encodes. Going through text and back gives the
  hex of the consumed bytes, exactly for items the JSON reader does not consider too deep; and what
  every JSON document and every hex text is encoded to is stated on the text itself.
 */
module RlpText {
  import opened Options
  import opened Rlp
  import opened JsonText

  // ---------------------------------------------------------------- hex

  function HexDigit(n: int): char
    requires 0 <= n < 16
  {
    if n < 10 then '0' + n as char else 'a' + (n - 10) as char
  }

  function HexValue(c: char): (r: Option<int>)
    ensures r.Some? ==> 0 <= r.value < 16
  {
    if '0' <= c <= '9' then Some((c - '0') as int)
    else if 'a' <= c <= 'f' then Some((c - 'a') as int + 10)
    else if 'A' <= c <= 'F' then Some((c - 'A') as int + 10)
    else None
  }

  function HexEncode(bytes: seq<byte>): string {
    if bytes == [] then ""
    else [HexDigit(bytes[0] / 16), HexDigit(bytes[0] % 16)] + HexEncode(bytes[1..])
  }

  function HexDigits(s: string): Option<seq<byte>> {
    if s == "" then Some([])
    else if |s| == 1 then None
    else
      match (HexValue(s[0]), HexValue(s[1]), HexDigits(s[2..]))
      case (Some(hi), Some(lo), Some(rest)) => Some([hi * 16 + lo] + rest)
      case _ => None
  }

  /** `hex::decode`: an even number of digits of either case, with or without `0x`. */
  function HexDecode(s: string): Option<seq<byte>> {
    HexDigits(if "0x" <= s then s[2..] else s)
  }

  lemma HexDigitValue(n: int)
    requires 0 <= n < 16
    ensures HexValue(HexDigit(n)) == Some(n)
    ensures HexDigit(n) != 'x' && HexDigit(n) != '"' && HexDigit(n) != '\\' && HexDigit(n) >= ' '
  {
  }

  lemma {:induction false} HexRoundTrip(bytes: seq<byte>)
    ensures HexDigits(HexEncode(bytes)) == Some(bytes)
    ensures PlainText(HexEncode(bytes))
  {
    if bytes != [] {
      var hi, lo, rest := bytes[0] / 16, bytes[0] % 16, HexEncode(bytes[1..]);
      HexRoundTrip(bytes[1..]);
      HexDigitValue(hi);
      HexDigitValue(lo);
      HexPair([HexDigit(hi), HexDigit(lo)] + rest, hi, lo, rest, bytes[1..]);
      JoinedByte(bytes, hi, lo);
    }
  }

  lemma JoinedByte(bytes: seq<byte>, hi: int, lo: int)
    requires bytes != [] && hi == bytes[0] / 16 && lo == bytes[0] % 16
    ensures [hi * 16 + lo] + bytes[1..] == bytes
  {
  }

  lemma HexPair(s: string, hi: int, lo: int, rest: string, bytes: seq<byte>)
    requires 0 <= hi < 16 && 0 <= lo < 16 && |s| >= 2 && s[2..] == rest
    requires HexValue(s[0]) == Some(hi) && HexValue(s[1]) == Some(lo) && HexDigits(rest) == Some(bytes)
    ensures HexDigits(s) == Some([hi * 16 + lo] + bytes)
  {
  }

  const DIGITS: string := "0123456789abcdef"
  const CAPITALS: string := "0123456789ABCDEF"

  /** The digits of either case, and no other character, have their place as value. */
  lemma HexValueIff(c: char, v: int)
    ensures HexValue(c) == Some(v) <==> 0 <= v < 16 && (c == DIGITS[v] || c == CAPITALS[v])
  {
  }

  predicate HexText(s: string) {
    forall i :: 0 <= i < |s| ==> HexValue(s[i]).Some?
  }

  lemma HexTextSplit(s: string)
    requires |s| >= 2
    ensures HexText(s) <==> HexValue(s[0]).Some? && HexValue(s[1]).Some? && HexText(s[2..])
  {
    if HexValue(s[0]).Some? && HexValue(s[1]).Some? && HexText(s[2..]) {
      forall i | 0 <= i < |s| ensures HexValue(s[i]).Some? {
        assert i >= 2 ==> s[i] == s[2..][i - 2];
      }
    }
  }

  /** `hex::decode` accepts exactly an even number of hex digits. */
  lemma {:induction false} HexDigitsIff(s: string)
    ensures HexDigits(s).Some? <==> |s| % 2 == 0 && HexText(s)
    ensures HexDigits(s).Some? ==> |s| == 2 * |HexDigits(s).value|
  {
    if |s| >= 2 {
      HexDigitsIff(s[2..]);
      HexTextSplit(s);
    }
  }

  /** Byte `i` is its two digits. */
  lemma {:induction false} HexByteAt(s: string, i: nat)
    requires HexDigits(s).Some? && i < |HexDigits(s).value| && |s| == 2 * |HexDigits(s).value|
    ensures HexValue(s[2 * i]).Some? && HexValue(s[2 * i + 1]).Some?
    ensures HexDigits(s).value[i] == HexValue(s[2 * i]).value * 16 + HexValue(s[2 * i + 1]).value
  {
    if i > 0 {
      HexByteAt(s[2..], i - 1);
      assert s[2..][2 * (i - 1)] == s[2 * i] && s[2..][2 * (i - 1) + 1] == s[2 * i + 1];
    }
  }

  /** `hex::encode` prints lower-case digits, two a byte. */
  lemma {:induction false} HexEncodeAt(bytes: seq<byte>, i: nat)
    requires i < |bytes|
    ensures |HexEncode(bytes)| == 2 * |bytes|
    ensures HexEncode(bytes)[2 * i] == DIGITS[bytes[i] / 16] && HexEncode(bytes)[2 * i + 1] == DIGITS[bytes[i] % 16]
  {
    HexEncodeLength(bytes);
    HexEncodeLength(bytes[1..]);
    if i > 0 {
      HexEncodeAt(bytes[1..], i - 1);
    }
  }

  lemma {:induction false} HexEncodeLength(bytes: seq<byte>)
    ensures |HexEncode(bytes)| == 2 * |bytes|
  {
    if bytes != [] {
      HexEncodeLength(bytes[1..]);
    }
  }

  // ---------------------------------------------------------------- printing

  /** `Display` */
  function Show(item: Item): string
    decreases item, 1
  {
    match item
    case Data(bytes) => "\"0x" + HexEncode(bytes) + "\""
    case Array(items) => "[" + ShowArray(items)
  }

  function ShowArray(items: seq<Item>): string
    decreases items, 1
  {
    if items == [] then "]" else Show(items[0]) + ShowTail(items[1..])
  }

  function ShowTail(items: seq<Item>): string
    decreases items, 0
  {
    if items == [] then "]" else "," + Show(items[0]) + ShowTail(items[1..])
  }

  /** `Display::fmt`, writing piece by piece. */
  method Display(item: Item, out: string) returns (r: string)
    ensures r == out + Show(item)
    decreases item
  {
    match item {
      case Data(bytes) =>
        r := out + "\"0x" + HexEncode(bytes) + "\"";
      case Array(items) =>
        r := out + "[";
        ghost var shown := out + Show(item);
        assert r + Pending(items, 0) == shown;
        for i := 0 to |items|
          invariant r + Pending(items, i) == shown
        {
          ghost var before, piece := r, (if i > 0 then "," else "") + Show(items[i]);
          PendingStep(items, i);
          if i > 0 {
            r := r + ",";
          }
          r := Display(items[i], r);
          assert r == before + piece;
          assert before + (piece + Pending(items, i + 1)) == before + piece + Pending(items, i + 1);
        }
        r := r + "]";
    }
  }

  /** What is still to be written before element `i`. */
  function Pending(items: seq<Item>, i: nat): string
    requires i <= |items|
  {
    if i == 0 then ShowArray(items) else ShowTail(items[i..])
  }

  lemma PendingStep(items: seq<Item>, i: nat)
    requires i < |items|
    ensures Pending(items, i) == (if i > 0 then "," else "") + Show(items[i]) + Pending(items, i + 1)
  {
    assert items[i..][0] == items[i] && items[i..][1..] == items[i + 1..];
  }

  /** The elements in order, with commas and nothing else between them. */
  function Joined(items: seq<Item>, n: nat): string
    requires n <= |items|
  {
    if n == 0 then "" else Joined(items, n - 1) + (if n > 1 then "," else "") + Show(items[n - 1])
  }

  lemma {:induction false} JoinedIsShown(items: seq<Item>, n: nat)
    requires n <= |items|
    ensures ShowArray(items) == Joined(items, n) + Pending(items, n)
  {
    if n == 0 {
      assert "" + ShowArray(items) == ShowArray(items);
    } else {
      JoinedIsShown(items, n - 1);
      JoinedStep(items, n);
    }
  }

  lemma JoinedStep(items: seq<Item>, n: nat)
    requires 0 < n <= |items|
    ensures Joined(items, n - 1) + Pending(items, n - 1) == Joined(items, n) + Pending(items, n)
  {
    PendingStep(items, n - 1);
    Interleave(Joined(items, n - 1), if n > 1 then "," else "", Show(items[n - 1]), Pending(items, n));
  }

  lemma Interleave(a: string, b: string, c: string, d: string)
    ensures a + (b + c + d) == a + b + c + d
  {
  }

  /** What `Display` writes. */
  lemma ShowText(item: Item)
    ensures Show(item) ==
      match item
      case Data(bytes) => "\"0x" + HexEncode(bytes) + "\""
      case Array(items) => "[" + Joined(items, |items|) + "]"
  {
    if item.Array? {
      JoinedIsShown(item.items, |item.items|);
      assert item.items[|item.items|..] == [];
      assert "[" + (Joined(item.items, |item.items|) + "]") == "[" + Joined(item.items, |item.items|) + "]";
    }
  }

  // ---------------------------------------------------------------- from JSON to items

  const WORD_LIMIT: nat := 0x1_0000000000000000_0000000000000000_0000000000000000_0000000000000000

  /** The value of a text of decimal digits. */
  function Decimal(s: string): nat
    requires AllDigits(s)
  {
    if s == "" then 0 else 10 * Decimal(s[..|s| - 1]) + (s[|s| - 1] - '0') as int
  }

  /** `parse::<U256>` of the text of a JSON number: signs, fractions and exponents are refused. */
  function ParseWord(s: string): Option<nat> {
    if AllDigits(s) && Decimal(s) < WORD_LIMIT then Some(Decimal(s)) else None
  }

  /** `value_to_item` */
  function ValueToItem(v: Value): Option<Item>
    decreases v, 1
  {
    match v
    case Null => Some(Data([]))
    case Bool(_) => None
    case Number(text) => (match ParseWord(text) case Some(n) => Some(Data(ToBytes(n))) case None => None)
    case Str(s) => (match HexDecode(s) case Some(bytes) => Some(Data(bytes)) case None => None)
    case Arr(values) => (match ValuesToItems(values) case Some(items) => Some(Array(items)) case None => None)
    case Object => None
  }

  function ValuesToItems(values: seq<Value>): Option<seq<Item>>
    decreases values, 0
  {
    if values == [] then Some([])
    else
      match (ValueToItem(values[0]), ValuesToItems(values[1..]))
      case (Some(item), Some(items)) => Some([item] + items)
      case _ => None
  }

  datatype Cast = Text(text: string) | Failed | OutsideModel

  /** `SimpleCast::from_rlp` without `as_int`. */
  function FromRlp(value: string): Cast {
    match HexDecode(value)
    case None => Failed
    case Some(bytes) => (match Decode(bytes) case Ok((item, _)) => Text(Show(item)) case Err(_) => Failed)
  }

  /** `SimpleCast::to_rlp` */
  function ToRlp(value: string): Cast {
    match ReadJson(value)
    case Unmodelled => OutsideModel
    case Malformed => EncodeValue(Str(value))
    case Parsed(v, _) => EncodeValue(v)
  }

  function EncodeValue(v: Value): Cast {
    match ValueToItem(v)
    case None => Failed
    case Some(item) => if Fits(item) then Text("0x" + HexEncode(Encode(item))) else OutsideModel
  }

  // ---------------------------------------------------------------- what a document is encoded to

  /** The item a document stands for: nothing is the empty string, a boolean is refused, a number is its
      big-endian bytes, a string is hex, a list needs all its elements. */
  function Meaning(doc: Doc): Option<Item>
    decreases doc, 1
  {
    match doc
    case Scalar(_, value, _) =>
      (match value
       case Null => Some(Data([]))
       case Number(text) =>
         if AllDigits(text) && Decimal(text) < WORD_LIMIT then Some(Data(ToBytes(Decimal(text)))) else None
       case Str(s) => (match HexDecode(s) case Some(bytes) => Some(Data(bytes)) case None => None)
       case _ => None)
    case List(_, _, docs, _) =>
      (match Meanings(docs) case Some(items) => Some(Array(items)) case None => None)
  }

  function Meanings(docs: seq<Doc>): (r: Option<seq<Item>>)
    ensures r.None? <==> exists k :: 0 <= k < |docs| && Meaning(docs[k]).None?
    ensures r.Some? ==> |r.value| == |docs| && forall k :: 0 <= k < |docs| ==> Meaning(docs[k]) == Some(r.value[k])
    decreases docs, 0
  {
    if exists k :: 0 <= k < |docs| && Meaning(docs[k]).None? then None
    else Some(seq(|docs|, k requires 0 <= k < |docs| => Meaning(docs[k]).value))
  }

  lemma MeaningsCons(docs: seq<Doc>)
    requires docs != []
    ensures Meanings(docs) ==
      match (Meaning(docs[0]), Meanings(docs[1..]))
      case (Some(item), Some(items)) => Some([item] + items)
      case _ => None
  {
    MeaningsNone(docs);
    if Meanings(docs).Some? {
      var items, rest := Meanings(docs).value, Meanings(docs[1..]).value;
      assert Meaning(docs[0]) == Some(items[0]);
      forall k | 0 <= k < |rest| ensures items[k + 1] == rest[k] {
        assert docs[1..][k] == docs[k + 1];
      }
      assert items == [items[0]] + rest;
    }
  }

  lemma MeaningsNone(docs: seq<Doc>)
    requires docs != []
    ensures Meanings(docs).None? <==> Meaning(docs[0]).None? || Meanings(docs[1..]).None?
  {
    var rest := docs[1..];
    if Meanings(rest).None? {
      var k :| 0 <= k < |rest| && Meaning(rest[k]).None?;
      assert docs[k + 1] == rest[k];
    } else {
      assert forall k :: 1 <= k < |docs| ==> docs[k] == rest[k - 1];
    }
  }

  lemma {:induction false} MeaningIsItem(doc: Doc)
    requires WellFormed(doc)
    ensures ValueToItem(ValueOf(doc)) == Meaning(doc)
    decreases doc, 1
  {
    if doc.List? {
      MeaningsAreItems(doc.docs);
    }
  }

  lemma {:induction false} MeaningsAreItems(docs: seq<Doc>)
    requires forall k :: 0 <= k < |docs| ==> WellFormed(docs[k])
    ensures ValuesToItems(ValuesOf(docs)) == Meanings(docs)
    decreases docs, 0
  {
    if docs == [] {
      assert Meanings(docs).value == [];
    } else {
      MeaningIsItem(docs[0]);
      MeaningsAreItems(docs[1..]);
      MeaningsCons(docs);
      assert ValuesOf(docs)[1..] == ValuesOf(docs[1..]);
    }
  }

  lemma BracketIsNotHex(blank: string, rest: string)
    requires Blank(blank)
    ensures HexDecode(blank + "[" + rest).None?
  {
    var s := blank + "[" + rest;
    assert blank != "" ==> s[0] == blank[0];
    assert s[|blank|] == '[';
    HexDigitsIff(s);
  }

  /** The encoding in hex, if the item's lengths are 64-bit words. */
  function Encoded(item: Item): Cast {
    if Fits(item) then Text("0x" + HexEncode(Encode(item))) else OutsideModel
  }

  lemma JsonToRlp(text: string, v: Value)
    requires ReadJson(text) == Parsed(v, "")
    ensures ToRlp(text) == match ValueToItem(v) case Some(item) => Encoded(item) case None => Failed
  {
  }

  lemma StringToRlp(text: string)
    requires ReadJson(text) == Malformed
    ensures ToRlp(text) == match HexDecode(text) case Some(bytes) => Encoded(Data(bytes)) case None => Failed
  {
  }

  /**
    What `to_rlp` makes of every JSON document, however it is spaced: the encoding of the item it stands
    for. It fails for a document that stands for none, and for one nested as deep as the reader's limit:
    then the text is taken for a hex string, which it is not.
   */
  lemma DocToRlp(doc: Doc)
    requires WellFormed(doc)
    ensures ToRlp(Print(doc)) ==
      if Depth(doc) < RECURSION_LIMIT && Meaning(doc).Some? then Encoded(Meaning(doc).value) else Failed
  {
    JsonOfDoc(doc);
    MeaningIsItem(doc);
    if Depth(doc) < RECURSION_LIMIT {
      JsonToRlp(Print(doc), ValueOf(doc));
    } else {
      ListIsNotHex(doc);
      StringToRlp(Print(doc));
    }
  }

  lemma ListIsNotHex(doc: Doc)
    requires doc.List? && Blank(doc.before)
    ensures HexDecode(Print(doc)).None?
  {
    var rest := PrintAll(doc.inner, doc.docs) + doc.after;
    BracketIsNotHex(doc.before, rest);
    assert Print(doc) == doc.before + "[" + rest;
  }

  // ---------------------------------------------------------------- what a hex text is encoded to

  /** A bare hex text is a JSON value only if it is a number. */
  lemma HexTextJson(text: string)
    requires HexText(text)
    ensures ReadJson(text) == if IsNumber(text) then Parsed(Number(text), "") else Malformed
  {
    if IsNumber(text) {
      assert text + "" == text;
      ReadNumberValue(text, "", RECURSION_LIMIT);
    } else if text != "" && Digit(text[0]) {
      ReadDigits(text, RECURSION_LIMIT);
      if ReadNumber(text).Parsed? {
        NumberRead(text);
        TrailsOn(text, ReadNumber(text).value.text, ReadNumber(text).rest);
      }
    } else if text != "" {
      NotALiteral(text);
    }
  }

  lemma TrailsOn(text: string, front: string, rest: string)
    requires HexText(text) && text == front + rest && text != front
    ensures SkipSpace(rest) == rest != ""
  {
    assert rest == "" ==> front + rest == front;
    assert rest[0] == text[|front|];
  }

  lemma NotALiteral(text: string)
    requires HexText(text) && text != "" && !Digit(text[0])
    ensures ReadValue(text, RECURSION_LIMIT) == Malformed
  {
    if |text| > 2 {
      NotFalse(text);
    }
  }

  lemma NotFalse(text: string)
    requires |text| > 2 && text[2] != 'l'
    ensures !("false" <= text)
  {
  }

  lemma PrefixIsNotJson(text: string)
    ensures ReadJson("0x" + text) == Malformed
  {
    var s := "0x" + text;
    assert s == "" + ("0" + ("" + ("" + s[1..])));
    assert NumberParts("", "0", "", "");
    NumberOf("", "0", "", "", s[1..]);
    ReadDigits(s, RECURSION_LIMIT);
    assert s[1..][0] == 'x';
  }

  /**
    What `to_rlp` makes of every hex text. After `0x` it is the bytes of the text, as a bare string. Without
    the prefix it is too, unless the text happens to be a JSON number: then it is the number, in decimal,
    and it fails if it has an exponent or is 2^256 or more.
   */
  lemma HexTextToRlp(text: string, bytes: seq<byte>)
    requires HexDigits(text) == Some(bytes)
    ensures ToRlp("0x" + text) == Encoded(Data(bytes))
    ensures !IsNumber(text) ==> ToRlp(text) == Encoded(Data(bytes))
    ensures IsNumber(text) ==>
      ToRlp(text) ==
        if AllDigits(text) && Decimal(text) < WORD_LIMIT then Encoded(Data(ToBytes(Decimal(text)))) else Failed
  {
    HexDigitsIff(text);
    HexTextJson(text);
    PrefixIsNotJson(text);
    StringToRlp("0x" + text);
    assert ("0x" + text)[2..] == text;
    if IsNumber(text) {
      JsonToRlp(text, Number(text));
    } else {
      StringToRlp(text);
      NotPrefixed(text);
    }
  }

  lemma NotPrefixed(text: string)
    requires HexText(text)
    ensures HexDecode(text) == HexDigits(text)
  {
    if |text| > 1 {
      assert text[1] != 'x';
    }
  }

  lemma EncodedInjective(a: Item, b: Item)
    requires Fits(a) && Fits(b) && Encoded(a) == Encoded(b)
    ensures a == b
  {
    var x, y := HexEncode(Encode(a)), HexEncode(Encode(b));
    assert ("0x" + x)[2..] == x && ("0x" + y)[2..] == y;
    HexRoundTrip(Encode(a));
    HexRoundTrip(Encode(b));
    EncodingPrefixFree(a, b);
  }

  /** Read in decimal, digits are worth no more than read in hex, and less if there are two of them. */
  lemma {:induction false} DecimalBelowHex(text: string, bytes: seq<byte>, n: nat)
    requires AllDigits(text) && HexDigits(text) == Some(bytes) && |text| == 2 * |bytes| && n <= |bytes|
    ensures AllDigits(text[..2 * n]) && Decimal(text[..2 * n]) <= FromBytes(bytes[..n])
    ensures n > 0 && text[0] != '0' ==> Decimal(text[..2 * n]) < FromBytes(bytes[..n])
  {
    if n > 0 {
      DecimalBelowHex(text, bytes, n - 1);
      HexByteAt(text, n - 1);
      assert forall i :: 0 <= i < 2 * n ==> text[..2 * n][i] == text[i];
      OneMorePair(text, bytes, n - 1);
      assert 2 * n == 2 * (n - 1) + 2;
    }
  }

  lemma OneMorePair(text: string, bytes: seq<byte>, n: nat)
    requires AllDigits(text) && n < |bytes| && |text| == 2 * |bytes|
    requires AllDigits(text[..2 * n]) && AllDigits(text[..2 * n + 2])
    ensures FromBytes(bytes[..n + 1]) == 256 * FromBytes(bytes[..n]) + bytes[n]
    ensures Decimal(text[..2 * n + 2]) ==
      100 * Decimal(text[..2 * n]) + 10 * (text[2 * n] - '0') as int + (text[2 * n + 1] - '0') as int
  {
    TwoDigits(text[..2 * n + 2]);
    assert text[..2 * n + 2][..2 * n] == text[..2 * n];
    assert bytes[..n + 1][..n] == bytes[..n];
  }

  lemma TwoDigits(s: string)
    requires |s| >= 2 && AllDigits(s)
    ensures Decimal(s) ==
      100 * Decimal(s[..|s| - 2]) + 10 * (s[|s| - 2] - '0') as int + (s[|s| - 1] - '0') as int
  {
    var front := s[..|s| - 1];
    assert front[..|front| - 1] == s[..|s| - 2] && front[|front| - 1] == s[|s| - 2];
  }

  /** So the prefix makes a difference exactly for the hex texts that are JSON numbers. */
  lemma PrefixMattersIff(text: string, bytes: seq<byte>)
    requires HexDigits(text) == Some(bytes) && Fits(Data(bytes))
    ensures ToRlp("0x" + text) == ToRlp(text) <==> !IsNumber(text)
  {
    HexTextToRlp(text, bytes);
    if IsNumber(text) && ToRlp("0x" + text) == ToRlp(text) {
      var n := Decimal(text);
      assert Fits(Data(ToBytes(n)));
      EncodedInjective(Data(bytes), Data(ToBytes(n)));
      HexDigitsIff(text);
      NumberLeads(text);
      assert text[..|text|] == text && bytes[..|bytes|] == bytes;
      DecimalBelowHex(text, bytes, |bytes|);
      FromToBytes(n);
    }
  }

  /** A number of several digits and nothing else has no leading zero. */
  lemma NumberLeads(text: string)
    requires IsNumber(text) && AllDigits(text)
    ensures text != "" && (|text| > 1 ==> text[0] != '0')
  {
    var sign, integer, fraction, exponent :|
      NumberParts(sign, integer, fraction, exponent) && text == sign + integer + fraction + exponent;
    assert text == "" + sign + (integer + fraction + exponent);
    NoDigits("", sign, integer + fraction + exponent);
    NoDigits(sign + integer, fraction, exponent);
    assert text == sign + integer + fraction + exponent + "";
    NoDigits(sign + integer + fraction, exponent, "");
    assert text == integer;
  }

  lemma NoDigits(a: string, b: string, c: string)
    requires AllDigits(a + b + c) && (b == "" || !Digit(b[0]))
    ensures b == ""
  {
    PartDigits(a, b, c);
  }

  lemma PartDigits(a: string, b: string, c: string)
    requires AllDigits(a + b + c)
    ensures AllDigits(b)
  {
    assert forall i :: 0 <= i < |b| ==> b[i] == (a + b + c)[|a| + i];
  }

  /** Inputs: two decimal digits are one byte after the prefix, and a number below eighty without it. */
  lemma PrefixMatters(a: int, b: int, text: string)
    requires 1 <= a < 8 && 0 <= b < 10 && text == [HexDigit(a), HexDigit(b)]
    ensures ToRlp("0x" + text) == Encoded(Data([16 * a + b])) && ToRlp(text) == Encoded(Data([10 * a + b]))
  {
    TwoDigitNumber(a, b, text);
    HexTextToRlp(text, [16 * a + b]);
  }

  lemma TwoDigitNumber(a: int, b: int, text: string)
    requires 1 <= a < 8 && 0 <= b < 10 && text == [HexDigit(a), HexDigit(b)]
    ensures HexDigits(text) == Some([16 * a + b])
    ensures IsNumber(text) && AllDigits(text) && Decimal(text) == 10 * a + b
    ensures ToBytes(Decimal(text)) == [10 * a + b]
  {
    HexDigitValue(a);
    HexDigitValue(b);
    HexPair(text, a, b, "", []);
    assert [a * 16 + b] + [] == [16 * a + b];
    assert NumberParts("", text, "", "") && "" + text + "" + "" == text;
    TwoDigits(text);
    assert text[..0] == "";
    assert ToBytes(0) == [];
  }

  /** Every text that is no JSON at all is a bare string: without an even number of hex digits it fails. */
  lemma BareStringToRlp(text: string)
    requires ReadJson(text) == Malformed
    ensures var digits := if "0x" <= text then text[2..] else text;
      && (ToRlp(text) == Failed <==> !(|digits| % 2 == 0 && HexText(digits)))
      && (ToRlp(text) != Failed ==> ToRlp(text) == Encoded(Data(HexDigits(digits).value)))
  {
    HexDigitsIff(if "0x" <= text then text[2..] else text);
    StringToRlp(text);
  }

  // ---------------------------------------------------------------- reading back what was printed

  function Nesting(item: Item): nat
    decreases item, 1
  {
    match item case Data(_) => 0 case Array(items) => 1 + NestingAll(items)
  }

  function NestingAll(items: seq<Item>): nat
    decreases items, 0
  {
    if items == [] then 0 else Max(Nesting(items[0]), NestingAll(items[1..]))
  }

  /** A printed item as a document. */
  function DocOf(item: Item): Doc
    decreases item, 1
  {
    match item
    case Data(bytes) => Scalar("", Str("0x" + HexEncode(bytes)), "")
    case Array(items) => List("", "", DocsOf(items), "")
  }

  function DocsOf(items: seq<Item>): seq<Doc>
    decreases items, 0
  {
    if items == [] then [] else [DocOf(items[0])] + DocsOf(items[1..])
  }

  lemma DataIsDoc(bytes: seq<byte>)
    ensures WellFormed(DocOf(Data(bytes))) && Print(DocOf(Data(bytes))) == Show(Data(bytes))
    ensures Meaning(DocOf(Data(bytes))) == Some(Data(bytes))
  {
    HexRoundTrip(bytes);
    PrefixedHex(HexEncode(bytes));
  }

  lemma PrefixedHex(hex: string)
    ensures "" + ("\"" + ("0x" + hex) + "\"" + "") == "\"0x" + hex + "\""
    ensures HexDecode("0x" + hex) == HexDigits(hex)
    ensures PlainText(hex) ==> PlainText("0x" + hex)
  {
    assert ("0x" + hex)[2..] == hex;
    assert "\"" + "0x" == "\"0x";
  }

  lemma {:induction false} ShownIsDoc(item: Item)
    ensures WellFormed(DocOf(item)) && Print(DocOf(item)) == Show(item)
    ensures Depth(DocOf(item)) == Nesting(item) && Meaning(DocOf(item)) == Some(item)
    decreases item, 1
  {
    match item {
      case Data(bytes) =>
        DataIsDoc(bytes);
      case Array(items) =>
        ShownAreDocs(items);
        assert Print(DocOf(item)) == "[" + PrintAll("", DocsOf(items));
        if items != [] {
          assert DocsOf(items)[1..] == DocsOf(items[1..]);
        }
    }
  }

  lemma {:induction false} ShownAreDocs(items: seq<Item>)
    ensures forall k :: 0 <= k < |DocsOf(items)| ==> WellFormed(DocsOf(items)[k])
    ensures PrintTail(DocsOf(items)) == ShowTail(items) && PrintAll("", DocsOf(items)) == ShowArray(items)
    ensures DepthAll(DocsOf(items)) == NestingAll(items) && Meanings(DocsOf(items)) == Some(items)
    decreases items, 0
  {
    var docs := DocsOf(items);
    if items == [] {
      assert "" + "]" == "]" && Meanings(docs).value == [];
    } else {
      assert docs[0] == DocOf(items[0]) && docs[1..] == DocsOf(items[1..]);
      ShownIsDoc(items[0]);
      ShownAreDocs(items[1..]);
      MeaningsCons(docs);
      assert [items[0]] + items[1..] == items;
    }
  }

  /** The reader gives the printed item back exactly if the nesting budget covers it. */
  lemma ReadShown(item: Item, rest: string, budget: nat)
    requires budget >= 1
    ensures ReadValue(Show(item) + rest, budget) ==
      if Nesting(item) < budget then Parsed(ValueOf(DocOf(item)), rest) else Malformed
  {
    ShownIsDoc(item);
    ReadDoc(DocOf(item), rest, budget);
    assert "" + rest == rest;
  }

  /** Printed and read back: the encoding of the item, unless it is too deep for the reader. */
  lemma ShowToRlp(item: Item)
    requires Fits(item)
    ensures ToRlp(Show(item)) ==
      if Nesting(item) < RECURSION_LIMIT then Text("0x" + HexEncode(Encode(item))) else Failed
  {
    ShownIsDoc(item);
    DocToRlp(DocOf(item));
  }

  /** `from_rlp` succeeds exactly on the hex of an encoding, whatever follows it, and prints the item. */
  lemma FromRlpIff(value: string, text: string)
    ensures FromRlp(value) == Text(text) <==>
      exists item, rest :: Fits(item) && HexDecode(value) == Some(Encode(item) + rest) && text == Show(item)
    ensures FromRlp(value) != Failed <==>
      exists item, rest :: Fits(item) && HexDecode(value) == Some(Encode(item) + rest)
  {
    forall item, rest | Fits(item) && HexDecode(value) == Some(Encode(item) + rest)
      ensures FromRlp(value) == Text(Show(item))
    {
      DecodeEncode(item, rest);
    }
    if FromRlp(value) != Failed {
      DecodeCanonical(HexDecode(value).value);
    }
  }

  /**
    For every text that `from_rlp` accepts: feeding its output to `to_rlp` gives the hex of the bytes
    that were consumed, if and only if the item is not nested as deep as the reader's limit;
    otherwise `to_rlp` fails.
   */
  lemma TextRoundTrip(value: string)
    requires FromRlp(value).Text?
    ensures var bytes := HexDecode(value).value;
      var (item, rest) := Decode(bytes).value;
      ToRlp(FromRlp(value).text) ==
        if Nesting(item) < RECURSION_LIMIT then Text("0x" + HexEncode(bytes[..|bytes| - |rest|])) else Failed
  {
    var bytes := HexDecode(value).value;
    var (item, rest) := Decode(bytes).value;
    DecodeCanonical(bytes);
    assert bytes[..|bytes| - |rest|] == Encode(item);
    ShowToRlp(item);
  }

  function Nest(n: nat): Item {
    if n == 0 then Array([]) else Array([Nest(n - 1)])
  }

  lemma {:induction false} NestReaches(n: nat)
    requires n <= RECURSION_LIMIT
    ensures Nesting(Nest(n)) == n + 1 && EncodedLength(Nest(n)) <= 1 + 9 * n && Fits(Nest(n))
  {
    if n > 0 {
      NestReaches(n - 1);
      WrapFits(Nest(n - 1));
    }
  }

  lemma WrapFits(inner: Item)
    requires Fits(inner) && EncodedLength(inner) < LENGTH_LIMIT
    ensures Fits(Array([inner])) && Nesting(Array([inner])) == Nesting(inner) + 1
    ensures EncodedLength(Array([inner])) <= EncodedLength(inner) + 9
  {
    assert [inner][1..] == [];
    assert NestingAll([]) == 0 && PayloadLength([]) == 0 && FitAll([]);
    assert NestingAll([inner]) == Nesting(inner) && PayloadLength([inner]) == EncodedLength(inner);
    LengthFits(EncodedLength(inner));
  }

  /** So the text round trip does fail for inputs that decode, from 128 nested lists on. */
  lemma DeepItemIsRefused(n: nat)
    requires RECURSION_LIMIT - 1 <= n <= RECURSION_LIMIT
    ensures Fits(Nest(n))
    ensures FromRlp("0x" + HexEncode(Encode(Nest(n)))) == Text(Show(Nest(n)))
    ensures ToRlp(Show(Nest(n))) == Failed
  {
    NestReaches(n);
    var bytes := Encode(Nest(n));
    HexRoundTrip(bytes);
    assert ("0x" + HexEncode(bytes))[2..] == HexEncode(bytes);
    DecodeEncode(Nest(n), []);
    assert bytes + [] == bytes;
    ShowToRlp(Nest(n));
  }
}
