/**
  RLP, Appendix B of the Ethereum Yellow Paper: `Item::encode`, and `Item::decode` with its nested
  consuming loop. Decoding accepts exactly the encodings, so the format is canonical and prefix-free.
 */
module Rlp {

  type byte = x: int | 0 <= x < 256

  datatype Error = InputTooShort | NonCanonicalSingleByte | NonCanonicalSize | LeadingZero
  datatype Result<+T> = Ok(value: T) | Err(error: Error)

  datatype Item = Data(bytes: seq<byte>) | Array(items: seq<Item>)
  datatype Header = Header(list: bool, payloadLength: nat)

  /** Lengths are 64-bit words. */
  const LENGTH_LIMIT: nat := 0x1_0000_0000_0000_0000

  // ---------------------------------------------------------------- big-endian lengths

  function ToBytes(n: nat): (r: seq<byte>)
    ensures n > 0 ==> r != [] && r[0] != 0
    ensures n == 0 ==> r == []
  {
    if n == 0 then [] else ToBytes(n / 256) + [n % 256]
  }

  function FromBytes(s: seq<byte>): nat {
    if s == [] then 0 else FromBytes(s[..|s| - 1]) * 256 + s[|s| - 1]
  }

  function Pow256(k: nat): nat {
    if k == 0 then 1 else 256 * Pow256(k - 1)
  }

  lemma {:induction false} FromToBytes(n: nat)
    ensures FromBytes(ToBytes(n)) == n
  {
    if n > 0 {
      FromToBytes(n / 256);
      assert ToBytes(n)[..|ToBytes(n)| - 1] == ToBytes(n / 256);
    }
  }

  /** A byte string without leading zero is the minimal form of its value. */
  lemma {:induction false} ToFromBytes(s: seq<byte>)
    requires s == [] || s[0] != 0
    ensures ToBytes(FromBytes(s)) == s
  {
    if s != [] {
      var front := s[..|s| - 1];
      ToFromBytes(front);
      assert s == front + [s[|s| - 1]];
      if front == [] {
        assert FromBytes(front) == 0;
      } else {
        assert front[0] == s[0];
        assert FromBytes(front) != 0;
      }
      assert FromBytes(s) / 256 == FromBytes(front) && FromBytes(s) % 256 == s[|s| - 1];
    }
  }

  lemma {:induction false} ToBytesLength(n: nat, k: nat)
    ensures n < Pow256(k) <==> |ToBytes(n)| <= k
  {
    if k == 0 {
    } else if n > 0 {
      ToBytesLength(n / 256, k - 1);
    } else {
      ToBytesLength(0, k - 1);
    }
  }

  lemma LengthFits(n: nat)
    ensures n < LENGTH_LIMIT <==> |ToBytes(n)| <= 8
  {
    ToBytesLength(n, 8);
    assert Pow256(8) == 256 * (256 * Pow256(6)) == 65536 * Pow256(6);
    assert Pow256(6) == 256 * (256 * Pow256(4)) == 65536 * Pow256(4);
    assert Pow256(4) == 256 * (256 * Pow256(2)) == 65536 * Pow256(2);
    assert Pow256(2) == 256 * (256 * Pow256(0)) == 65536;
  }

  // ---------------------------------------------------------------- encoding

  function HeaderLength(n: nat): nat {
    if n < 56 then 1 else 1 + |ToBytes(n)|
  }

  /** A single byte below 0x80 is its own encoding; everything else gets a header. */
  predicate Bare(bytes: seq<byte>) {
    |bytes| == 1 && bytes[0] < 0x80
  }

  function EncodedLength(item: Item): nat
    decreases item, 1
  {
    match item
    case Data(bytes) => if Bare(bytes) then 1 else HeaderLength(|bytes|) + |bytes|
    case Array(items) => HeaderLength(PayloadLength(items)) + PayloadLength(items)
  }

  function PayloadLength(items: seq<Item>): nat
    decreases items, 0
  {
    if items == [] then 0 else EncodedLength(items[0]) + PayloadLength(items[1..])
  }

  /** Every length in the item fits the length field. */
  predicate Fits(item: Item)
    decreases item, 1
  {
    match item
    case Data(bytes) => |bytes| < LENGTH_LIMIT
    case Array(items) => PayloadLength(items) < LENGTH_LIMIT && FitAll(items)
  }

  predicate FitAll(items: seq<Item>)
    decreases items, 0
  {
    items == [] || (Fits(items[0]) && FitAll(items[1..]))
  }

  function EncodeHeader(h: Header): (r: seq<byte>)
    requires h.payloadLength < LENGTH_LIMIT
    ensures |r| == HeaderLength(h.payloadLength)
  {
    var n := h.payloadLength;
    if n < 56 then [(if h.list then 0xC0 else 0x80) + n]
    else
      LengthFits(n);
      [(if h.list then 0xF7 else 0xB7) + |ToBytes(n)|] + ToBytes(n)
  }

  function Encode(item: Item): (r: seq<byte>)
    requires Fits(item)
    ensures |r| == EncodedLength(item)
    decreases item, 1
  {
    match item
    case Data(bytes) => if Bare(bytes) then bytes else EncodeHeader(Header(false, |bytes|)) + bytes
    case Array(items) => EncodeHeader(Header(true, PayloadLength(items))) + EncodeAll(items)
  }

  function EncodeAll(items: seq<Item>): (r: seq<byte>)
    requires FitAll(items)
    ensures |r| == PayloadLength(items)
    decreases items, 0
  {
    if items == [] then [] else Encode(items[0]) + EncodeAll(items[1..])
  }

  // ---------------------------------------------------------------- decoding

  /** `Header::decode`: the header and what follows it; a bare byte stays in the buffer. */
  function DecodeHeader(buf: seq<byte>): (r: Result<(Header, seq<byte>)>)
    ensures r.Ok? ==> r.value.0.payloadLength <= |r.value.1| <= |buf|
    ensures r.Ok? && r.value.0.list ==> |r.value.1| < |buf|
    ensures r.Ok? ==> |r.value.1| - r.value.0.payloadLength < |buf|
  {
    if buf == [] then Err(InputTooShort)
    else
      var b, rest := buf[0], buf[1..];
      if b < 0x80 then Ok((Header(false, 1), buf))
      else if b < 0xB8 then
        if b == 0x81 && rest == [] then Err(InputTooShort)
        else if b == 0x81 && rest[0] < 0x80 then Err(NonCanonicalSingleByte)
        else Bounded(Header(false, b - 0x80), rest)
      else if 0xC0 <= b < 0xF8 then Bounded(Header(true, b - 0xC0), rest)
      else
        var list := b >= 0xF8;
        DecodeLength(list, b - (if list then 0xF7 else 0xB7), rest)
  }

  /** A header whose length takes up the next `k` bytes. */
  function DecodeLength(list: bool, k: nat, rest: seq<byte>): (r: Result<(Header, seq<byte>)>)
    requires k > 0
    ensures r.Ok? ==> r.value.0.list == list && r.value.0.payloadLength <= |r.value.1| <= |rest|
  {
    if |rest| < k then Err(InputTooShort)
    else if rest[0] == 0 then Err(LeadingZero)
    else
      var n := FromBytes(rest[..k]);
      if n < 56 then Err(NonCanonicalSize) else Bounded(Header(list, n), rest[k..])
  }

  function Bounded(h: Header, rest: seq<byte>): Result<(Header, seq<byte>)> {
    if |rest| < h.payloadLength then Err(InputTooShort) else Ok((h, rest))
  }

  /** The item at the front of the buffer and the bytes after it. */
  function Decode(buf: seq<byte>): (r: Result<(Item, seq<byte>)>)
    ensures r.Ok? ==> |r.value.1| < |buf|
    decreases |buf|, 0
  {
    match DecodeHeader(buf)
    case Err(e) => Err(e)
    case Ok((h, rest)) =>
      var payload, after := rest[..h.payloadLength], rest[h.payloadLength..];
      if !h.list then Ok((Data(payload), after))
      else
        match DecodeAll(payload)
        case Err(e) => Err(e)
        case Ok(items) => Ok((Array(items), after))
  }

  function DecodeAll(view: seq<byte>): Result<seq<Item>>
    decreases |view|, 1
  {
    if view == [] then Ok([])
    else
      match Decode(view)
      case Err(e) => Err(e)
      case Ok((item, rest)) =>
        match DecodeAll(rest)
        case Err(e) => Err(e)
        case Ok(items) => Ok([item] + items)
  }

  function Prepend(items: seq<Item>, r: Result<seq<Item>>): Result<seq<Item>> {
    match r case Ok(more) => Ok(items + more) case Err(e) => Err(e)
  }

  /** `Item::decode`, with the while loop over the payload. */
  method DecodeItem(buf: seq<byte>) returns (r: Result<(Item, seq<byte>)>)
    ensures r == Decode(buf)
    decreases |buf|
  {
    var h := DecodeHeader(buf);
    if h.Err? {
      return Err(h.error);
    }
    var header, rest := h.value.0, h.value.1;
    if |rest| < header.payloadLength {
      return Err(InputTooShort);
    }
    var payload := rest[..header.payloadLength];
    if header.list {
      var view, v: seq<Item> := payload, [];
      assert DecodeAll(payload).Ok? ==> v + DecodeAll(payload).value == DecodeAll(payload).value;
      while view != []
        invariant |view| <= |payload| < |buf|
        invariant DecodeAll(payload) == Prepend(v, DecodeAll(view))
        decreases |view|
      {
        var one := DecodeItem(view);
        if one.Err? {
          return Err(one.error);
        }
        Prepended(v, one.value.0, DecodeAll(one.value.1));
        v := v + [one.value.0];
        view := one.value.1;
      }
      assert v + [] == v;
      r := Ok((Array(v), rest[header.payloadLength..]));
    } else {
      r := Ok((Data(payload), rest[header.payloadLength..]));
    }
  }

  lemma Prepended(items: seq<Item>, item: Item, r: Result<seq<Item>>)
    ensures Prepend(items, Prepend([item], r)) == Prepend(items + [item], r)
  {
    if r.Ok? {
      assert items + ([item] + r.value) == items + [item] + r.value;
    }
  }

  // ---------------------------------------------------------------- headers

  predicate CanonicalPayload(h: Header, rest: seq<byte>) {
    !h.list && h.payloadLength == 1 ==> rest != [] && rest[0] >= 0x80
  }

  lemma HeaderRoundTrip(h: Header, rest: seq<byte>)
    requires h.payloadLength < LENGTH_LIMIT && h.payloadLength <= |rest| && CanonicalPayload(h, rest)
    ensures DecodeHeader(EncodeHeader(h) + rest) == Ok((h, rest))
  {
    var n := h.payloadLength;
    if n < 56 {
      assert (EncodeHeader(h) + rest)[1..] == rest;
    } else {
      LengthFits(n);
      FromToBytes(n);
      LongHeaderRoundTrip(h.list, ToBytes(n), rest);
    }
  }

  lemma LongHeaderRoundTrip(list: bool, len: seq<byte>, rest: seq<byte>)
    requires 1 <= |len| <= 8 && len[0] != 0 && 56 <= FromBytes(len) <= |rest|
    ensures DecodeHeader([(if list then 0xF7 else 0xB7) + |len|] + len + rest)
         == Ok((Header(list, FromBytes(len)), rest))
  {
    var first: byte := (if list then 0xF7 else 0xB7) + |len|;
    Prefixed(first, len, rest);
    LongHeaderLength([first] + len + rest, list, |len|);
    LengthRoundTrip(list, len, rest);
  }

  lemma Prefixed(first: byte, len: seq<byte>, rest: seq<byte>)
    ensures ([first] + len + rest)[0] == first && ([first] + len + rest)[1..] == len + rest
  {
  }

  lemma LongHeaderLength(buf: seq<byte>, list: bool, k: nat)
    requires 1 <= k <= 8 && buf != [] && buf[0] == (if list then 0xF7 else 0xB7) + k
    ensures DecodeHeader(buf) == DecodeLength(list, k, buf[1..])
  {
  }

  lemma LengthRoundTrip(list: bool, len: seq<byte>, rest: seq<byte>)
    requires len != [] && len[0] != 0 && 56 <= FromBytes(len) <= |rest|
    ensures DecodeLength(list, |len|, len + rest) == Ok((Header(list, FromBytes(len)), rest))
  {
    assert (len + rest)[..|len|] == len && (len + rest)[|len|..] == rest;
  }

  lemma LongHeaderCanonical(buf: seq<byte>)
    requires DecodeHeader(buf).Ok? && (buf[0] >= 0xF8 || 0xB8 <= buf[0] < 0xC0)
    ensures var (h, rest) := DecodeHeader(buf).value;
      56 <= h.payloadLength < LENGTH_LIMIT && buf == EncodeHeader(h) + rest
  {
    var list := buf[0] >= 0xF8;
    var k := buf[0] - (if list then 0xF7 else 0xB7);
    LongHeaderLength(buf, list, k);
    LengthCanonical(list, k, buf[1..]);
    HeadAndTail(buf);
  }

  lemma HeadAndTail(buf: seq<byte>)
    requires buf != []
    ensures [buf[0]] + buf[1..] == buf
  {
  }

  lemma LengthCanonical(list: bool, k: nat, tail: seq<byte>)
    requires 1 <= k <= 8 && DecodeLength(list, k, tail).Ok?
    ensures var (h, rest) := DecodeLength(list, k, tail).value;
      && h.list == list && 56 <= h.payloadLength < LENGTH_LIMIT
      && EncodeHeader(h) + rest == [(if list then 0xF7 else 0xB7) + k] + tail
  {
    var len, rest := tail[..k], tail[k..];
    ToFromBytes(len);
    LengthFits(FromBytes(len));
    Reframe([(if list then 0xF7 else 0xB7) + k], tail, k);
  }

  lemma HeaderCanonical(buf: seq<byte>)
    requires DecodeHeader(buf).Ok?
    ensures var (h, rest) := DecodeHeader(buf).value;
      && h.payloadLength < LENGTH_LIMIT
      && (buf[0] < 0x80 ==> rest == buf && h == Header(false, 1))
      && (buf[0] >= 0x80 ==> buf == EncodeHeader(h) + rest && CanonicalPayload(h, rest))
  {
    var (h, rest) := DecodeHeader(buf).value;
    if buf[0] >= 0xF8 || 0xB8 <= buf[0] < 0xC0 {
      LongHeaderCanonical(buf);
    } else if buf[0] >= 0x80 {
      assert buf == [buf[0]] + rest;
    }
  }

  // ---------------------------------------------------------------- the two directions

  /**
    Round trip: every item whose lengths fit is decoded back from its encoding, whatever bytes
    follow, and exactly those bytes are left.
   */
  lemma {:induction false} DecodeEncode(item: Item, rest: seq<byte>)
    requires Fits(item)
    ensures Decode(Encode(item) + rest) == Ok((item, rest))
    decreases item, 1
  {
    match item {
      case Data(bytes) =>
        if Bare(bytes) {
          assert (bytes + rest)[..1] == bytes && (bytes + rest)[1..] == rest;
        } else {
          FramedRoundTrip(Header(false, |bytes|), bytes, rest);
        }
      case Array(items) =>
        FramedRoundTrip(Header(true, PayloadLength(items)), EncodeAll(items), rest);
        DecodeEncodeAll(items);
    }
  }

  /** A header, its payload, and what follows. */
  lemma FramedRoundTrip(h: Header, payload: seq<byte>, rest: seq<byte>)
    requires h.payloadLength == |payload| < LENGTH_LIMIT && CanonicalPayload(h, payload)
    ensures DecodeHeader(EncodeHeader(h) + payload + rest) == Ok((h, payload + rest))
    ensures (payload + rest)[..|payload|] == payload && (payload + rest)[|payload|..] == rest
  {
    HeaderRoundTrip(h, payload + rest);
    assert EncodeHeader(h) + payload + rest == EncodeHeader(h) + (payload + rest);
  }

  lemma {:induction false} DecodeEncodeAll(items: seq<Item>)
    requires FitAll(items)
    ensures DecodeAll(EncodeAll(items)) == Ok(items)
    decreases items, 0
  {
    if items != [] {
      DecodeEncode(items[0], EncodeAll(items[1..]));
      DecodeEncodeAll(items[1..]);
      assert EncodeAll(items) != [];
      assert [items[0]] + items[1..] == items;
    }
  }

  /** Canonicity: whenever decoding succeeds, the bytes it consumed are the encoding of the result. */
  lemma {:induction false} DecodeCanonical(buf: seq<byte>)
    requires Decode(buf).Ok?
    ensures var (item, rest) := Decode(buf).value; Fits(item) && buf == Encode(item) + rest
    decreases |buf|, 0
  {
    var (h, rest) := DecodeHeader(buf).value;
    HeaderCanonical(buf);
    if h.list {
      var payload := rest[..h.payloadLength];
      DecodeAllCanonical(payload);
      ArrayFrame(h, DecodeAll(payload).value, rest);
    } else if buf[0] >= 0x80 {
      DataFrame(h, rest);
    } else {
      assert rest == rest[..1] + rest[1..];
    }
  }

  lemma DataFrame(h: Header, rest: seq<byte>)
    requires !h.list && h.payloadLength < LENGTH_LIMIT && h.payloadLength <= |rest| && CanonicalPayload(h, rest)
    ensures var data := Data(rest[..h.payloadLength]);
      Fits(data) && EncodeHeader(h) + rest == Encode(data) + rest[h.payloadLength..]
  {
    var payload := rest[..h.payloadLength];
    assert !Bare(payload);
    Reframe(EncodeHeader(h), rest, h.payloadLength);
  }

  lemma ArrayFrame(h: Header, items: seq<Item>, rest: seq<byte>)
    requires h.list && h.payloadLength < LENGTH_LIMIT && h.payloadLength <= |rest|
    requires FitAll(items) && rest[..h.payloadLength] == EncodeAll(items)
    ensures Fits(Array(items)) && EncodeHeader(h) + rest == Encode(Array(items)) + rest[h.payloadLength..]
  {
    EncodeArray(items);
    Reframe(EncodeHeader(h), rest, h.payloadLength);
  }

  lemma Reframe(head: seq<byte>, rest: seq<byte>, n: nat)
    requires n <= |rest|
    ensures head + rest == head + rest[..n] + rest[n..]
  {
  }

  lemma EncodeArray(items: seq<Item>)
    requires FitAll(items) && |EncodeAll(items)| < LENGTH_LIMIT
    ensures Fits(Array(items))
    ensures Encode(Array(items)) == EncodeHeader(Header(true, |EncodeAll(items)|)) + EncodeAll(items)
  {
  }

  lemma {:induction false} DecodeAllCanonical(view: seq<byte>)
    requires DecodeAll(view).Ok?
    ensures var items := DecodeAll(view).value; FitAll(items) && view == EncodeAll(items)
    decreases |view|, 1
  {
    if view != [] {
      var (item, rest) := Decode(view).value;
      DecodeCanonical(view);
      DecodeAllCanonical(rest);
      var items := DecodeAll(view).value;
      assert items[0] == item && items[1..] == DecodeAll(rest).value;
    }
  }

  /** A buffer decodes exactly if it starts with the encoding of some item that fits. */
  lemma DecodeIffEncoding(buf: seq<byte>, item: Item, rest: seq<byte>)
    ensures Decode(buf) == Ok((item, rest)) <==> Fits(item) && buf == Encode(item) + rest
  {
    if Decode(buf) == Ok((item, rest)) {
      DecodeCanonical(buf);
    }
    if Fits(item) && buf == Encode(item) + rest {
      DecodeEncode(item, rest);
    }
  }

  /** No encoding is a proper prefix of another, and distinct items have distinct encodings. */
  lemma EncodingPrefixFree(a: Item, b: Item)
    requires Fits(a) && Fits(b) && Encode(a) <= Encode(b)
    ensures a == b
  {
    var y := Encode(b);
    DecodesTo(y, a, y[|Encode(a)|..]);
    DecodesTo(y, b, []);
  }

  lemma DecodesTo(buf: seq<byte>, item: Item, rest: seq<byte>)
    requires Fits(item) && Encode(item) <= buf && buf[|Encode(item)|..] == rest
    ensures Decode(buf) == Ok((item, rest))
  {
    assert buf == Encode(item) + rest;
    DecodeEncode(item, rest);
  }

  // ---------------------------------------------------------------- the format, and what is not of it

  /** The encodings of the elements, one after the other. */
  function Payload(items: seq<Item>, n: nat): seq<byte>
    requires n <= |items| && forall k :: 0 <= k < n ==> Fits(items[k])
  {
    if n == 0 then [] else Payload(items, n - 1) + Encode(items[n - 1])
  }

  lemma {:induction false} FitAllIff(items: seq<Item>)
    ensures FitAll(items) <==> forall k :: 0 <= k < |items| ==> Fits(items[k])
  {
    if items != [] {
      FitAllIff(items[1..]);
      assert forall k :: 1 <= k < |items| ==> items[k] == items[1..][k - 1];
    }
  }

  lemma {:induction false} PayloadIsAll(items: seq<Item>, n: nat)
    requires n <= |items| && FitAll(items) && forall k :: 0 <= k < |items| ==> Fits(items[k])
    requires FitAll(items[n..])
    ensures EncodeAll(items) == Payload(items, n) + EncodeAll(items[n..])
  {
    if n == 0 {
      assert items[0..] == items;
    } else {
      FitAllIff(items[n - 1..]);
      PayloadIsAll(items, n - 1);
      assert items[n - 1..][1..] == items[n..] && items[n - 1..][0] == items[n - 1];
      Regrouped(Payload(items, n - 1), Encode(items[n - 1]), EncodeAll(items[n..]));
    }
  }

  lemma Regrouped(a: seq<byte>, b: seq<byte>, c: seq<byte>)
    ensures a + (b + c) == a + b + c
  {
  }

  /** A string or a list in front of its payload: Appendix B of the Yellow Paper. */
  predicate Framed(r: seq<byte>, list: bool, payload: seq<byte>) {
    if |payload| < 56 then r == [(if list then 0xC0 else 0x80) + |payload|] + payload
    else
      var len := ToBytes(|payload|);
      |len| <= 8 && r == [(if list then 0xF7 else 0xB7) + |len|] + len + payload
  }

  lemma EncodeFormat(item: Item)
    requires Fits(item)
    ensures match item
      case Data(bytes) =>
        if |bytes| == 1 && bytes[0] < 0x80 then Encode(item) == bytes else Framed(Encode(item), false, bytes)
      case Array(items) =>
        (forall k :: 0 <= k < |items| ==> Fits(items[k])) && Framed(Encode(item), true, Payload(items, |items|))
  {
    match item {
      case Data(bytes) =>
        HeaderFrames(false, bytes);
      case Array(items) =>
        FitAllIff(items);
        PayloadFits(items);
        HeaderFrames(true, EncodeAll(items));
    }
  }

  lemma HeaderFrames(list: bool, payload: seq<byte>)
    requires |payload| < LENGTH_LIMIT
    ensures Framed(EncodeHeader(Header(list, |payload|)) + payload, list, payload)
  {
    LengthFits(|payload|);
  }

  /** A header whose payload is cut off, or that is cut off itself. */
  lemma ShortFrame(r: seq<byte>, list: bool, payload: seq<byte>, k: nat)
    requires |payload| < LENGTH_LIMIT && Framed(r, list, payload) && k < |r|
    requires list || !Bare(payload)
    ensures DecodeHeader(r[..k]) == Err(InputTooShort)
  {
    var n, buf := |payload|, r[..k];
    if k > 0 {
      assert buf[0] == r[0] && |buf[1..]| == k - 1;
      if n >= 56 {
        ShortLongFrame(r, list, payload, k);
      }
    }
  }

  lemma CutRest(first: byte, len: seq<byte>, payload: seq<byte>, k: nat)
    requires len != [] && 1 + |len| <= k <= 1 + |len| + |payload|
    ensures var rest := ([first] + len + payload)[..k][1..]; rest[..|len|] == len && rest[0] == len[0]
  {
    var r := [first] + len + payload;
    assert r[..k][1..] == len + payload[..k - 1 - |len|];
  }

  lemma ShortLongFrame(r: seq<byte>, list: bool, payload: seq<byte>, k: nat)
    requires 56 <= |payload| < LENGTH_LIMIT && Framed(r, list, payload) && 0 < k < |r|
    ensures DecodeHeader(r[..k]) == Err(InputTooShort)
  {
    var len := ToBytes(|payload|);
    var buf, rest := r[..k], r[..k][1..];
    assert buf[0] == r[0];
    LongHeaderLength(buf, list, |len|);
    if |rest| >= |len| {
      CutRest(r[0], len, payload, k);
      FromToBytes(|payload|);
    }
  }

  /** Every encoding that is cut off anywhere is refused as too short. */
  lemma TruncationIsTooShort(item: Item, k: nat)
    requires Fits(item) && k < |Encode(item)|
    ensures Decode(Encode(item)[..k]) == Err(InputTooShort)
  {
    EncodeFormat(item);
    match item {
      case Data(bytes) =>
        if !Bare(bytes) {
          ShortFrame(Encode(item), false, bytes, k);
        }
      case Array(items) =>
        PayloadFits(items);
        ShortFrame(Encode(item), true, Payload(items, |items|), k);
    }
  }

  lemma PayloadFits(items: seq<Item>)
    requires Fits(Array(items)) && forall k :: 0 <= k < |items| ==> Fits(items[k])
    ensures Payload(items, |items|) == EncodeAll(items)
  {
    assert items[|items|..] == [];
    PayloadIsAll(items, |items|);
    assert Payload(items, |items|) + [] == Payload(items, |items|);
  }

  /** What is not minimal is refused: a byte below 0x80 with a header, a length with a leading zero, and a long
      form for a payload below 56 bytes. */
  lemma NotMinimal(list: bool, b: byte, len: seq<byte>, rest: seq<byte>)
    requires 1 <= |len| <= 8
    ensures b < 0x80 ==> Decode([0x81, b] + rest) == Err(NonCanonicalSingleByte)
    ensures var buf := [(if list then 0xF7 else 0xB7) + |len|] + len + rest;
      && (len[0] == 0 ==> Decode(buf) == Err(LeadingZero))
      && (len[0] != 0 && FromBytes(len) < 56 ==> Decode(buf) == Err(NonCanonicalSize))
  {
    var buf := [(if list then 0xF7 else 0xB7) + |len|] + len + rest;
    assert ([0x81, b] + rest)[1..] == [b] + rest;
    Prefixed((if list then 0xF7 else 0xB7) + |len|, len, rest);
    LongHeaderLength(buf, list, |len|);
    assert (len + rest)[..|len|] == len && (len + rest)[0] == len[0];
  }
}
