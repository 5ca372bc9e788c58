/**
 * Recursive Length Prefix encoding, as defined in Appendix B of the Ethereum
 * Yellow Paper. The exporter uses two framing operations of its RLP library:
 * `EncodeElement` frames one byte string, `EncodeList` frames a list whose
 * items are already encoded. The library itself is not part of this model;
 * both are written from the standard, together with a decoder for the same
 * grammar so that what the exporter writes can be shown to be readable back.
 */
module Rlp {
  import opened Wrappers

  type Byte = x: int | 0 <= x < 0x100

  /** Byte strings and list payloads of 256^8 bytes or more have no RLP encoding. */
  const MaxLength: nat := 0x1_0000_0000_0000_0000
  /** Payloads shorter than this many bytes carry their length in the first byte. */
  const ShortLimit: nat := 56
  const StringOffset: Byte := 0x80
  const ListOffset: Byte := 0xc0

  /** The big-endian bytes of `n` without leading zeroes (empty for zero). */
  function BigEndian(n: nat): seq<Byte>
  {
    if n == 0 then [] else BigEndian(n / 0x100) + [n % 0x100]
  }

  function FromBigEndian(s: seq<Byte>): nat
  {
    if s == [] then 0 else FromBigEndian(s[..|s| - 1]) * 0x100 + s[|s| - 1]
  }

  function Pow256(k: nat): nat
  {
    if k == 0 then 1 else 0x100 * Pow256(k - 1)
  }

  lemma {:induction false} BigEndianRoundTrip(n: nat)
    ensures FromBigEndian(BigEndian(n)) == n
  {
    if n > 0 {
      BigEndianRoundTrip(n / 0x100);
      var s := BigEndian(n);
      assert s[..|s| - 1] == BigEndian(n / 0x100);
    }
  }

  lemma {:induction false} BigEndianLength(n: nat, k: nat)
    requires n < Pow256(k)
    ensures |BigEndian(n)| <= k
    ensures n > 0 ==> |BigEndian(n)| > 0
  {
    if n > 0 {
      BigEndianLength(n / 0x100, k - 1);
    }
  }

  /** A length that needs the long form takes between one and eight length bytes. */
  lemma LongLengthBytes(n: nat)
    requires 0 < n < MaxLength
    ensures 1 <= |BigEndian(n)| <= 8
  {
    assert Pow256(8) == MaxLength;
    BigEndianLength(n, 8);
  }

  /** The prefix announcing a payload of `len` bytes: a string when `offset` is
      `StringOffset`, a list when it is `ListOffset`. */
  function Header(len: nat, offset: Byte): (r: seq<Byte>)
    requires offset == StringOffset || offset == ListOffset
    requires len < MaxLength
    ensures 1 <= |r| <= 9
  {
    if len < ShortLimit then [offset + len]
    else
      LongLengthBytes(len);
      [offset + ShortLimit - 1 + |BigEndian(len)|] + BigEndian(len)
  }

  /** Frames one byte string; a single byte below 0x80 is its own encoding. */
  function EncodeElement(b: seq<Byte>): seq<Byte>
    requires |b| < MaxLength
  {
    if |b| == 1 && b[0] < StringOffset then b else Header(|b|, StringOffset) + b
  }

  /** Framing a byte string puts at most nine bytes in front of it. */
  lemma ElementFraming(b: seq<Byte>)
    requires |b| < MaxLength
    ensures var r := EncodeElement(b); |b| <= |r| <= |b| + 9 && r[|r| - |b|..] == b
  {
  }

  function Concat(items: seq<seq<Byte>>): seq<Byte>
  {
    if items == [] then [] else items[0] + Concat(items[1..])
  }

  /** Items of at most `n` bytes each concatenate to at most `|items| * n` bytes. */
  lemma {:induction false} ConcatBound(items: seq<seq<Byte>>, n: nat)
    requires forall i :: 0 <= i < |items| ==> |items[i]| <= n
    ensures |Concat(items)| <= |items| * n
  {
    if items != [] {
      ConcatBound(items[1..], n);
      assert |items| * n == n + (|items| - 1) * n;
    }
  }

  /** Frames a list whose items are already encoded: a header, then the items in order. */
  function EncodeList(items: seq<seq<Byte>>): seq<Byte>
    requires |Concat(items)| < MaxLength
  {
    Header(|Concat(items)|, ListOffset) + Concat(items)
  }

  /** Framing a list puts one to nine bytes in front of its concatenated items. */
  lemma ListFraming(items: seq<seq<Byte>>)
    requires |Concat(items)| < MaxLength
    ensures var r := EncodeList(items);
            |Concat(items)| < |r| <= |Concat(items)| + 9 && r[|r| - |Concat(items)|..] == Concat(items)
  {
  }

  // ----- decoding -----------------------------------------------------------

  /** A decoded RLP item. */
  datatype Item = Str(bytes: seq<Byte>) | List(items: seq<Item>)

  function Strs(bs: seq<seq<Byte>>): (r: seq<Item>)
    ensures |r| == |bs| && forall i :: 0 <= i < |bs| ==> r[i] == Str(bs[i])
  {
    seq(|bs|, i requires 0 <= i < |bs| => Str(bs[i]))
  }

  /** Where the payload of the item at the head of a byte sequence lies. */
  datatype Span = Span(isList: bool, start: nat, length: nat)

  function Bounded(s: seq<Byte>, isList: bool, start: nat, length: nat): (r: Option<Span>)
    ensures r.Some? ==> r.value.start + r.value.length <= |s|
  {
    if start + length <= |s| then Some(Span(isList, start, length)) else None
  }

  function LongForm(s: seq<Byte>, isList: bool, lengthOfLength: nat): (r: Option<Span>)
    ensures r.Some? ==> 0 < r.value.start && r.value.start + r.value.length <= |s|
  {
    if 1 + lengthOfLength <= |s|
    then Bounded(s, isList, 1 + lengthOfLength, FromBigEndian(s[1..1 + lengthOfLength]))
    else None
  }

  function DecodeHeader(s: seq<Byte>): (r: Option<Span>)
    ensures r.Some? ==> 0 < r.value.start + r.value.length <= |s|
    ensures r.Some? && r.value.isList ==> 0 < r.value.start
  {
    if s == [] then None
    else if s[0] < StringOffset then Some(Span(false, 0, 1))
    else if s[0] < StringOffset + ShortLimit then Bounded(s, false, 1, s[0] - StringOffset)
    else if s[0] < ListOffset then LongForm(s, false, s[0] - (StringOffset + ShortLimit - 1))
    else if s[0] < ListOffset + ShortLimit then Bounded(s, true, 1, s[0] - ListOffset)
    else LongForm(s, true, s[0] - (ListOffset + ShortLimit - 1))
  }

  /** Decodes the item at the head of `s`, returning it and the bytes after it. */
  function DecodeItem(s: seq<Byte>): (r: Option<(Item, seq<Byte>)>)
    ensures r.Some? ==> |r.value.1| < |s|
    decreases |s|, 0
  {
    match DecodeHeader(s)
    case None => None
    case Some(span) =>
      var payload := s[span.start..span.start + span.length];
      var rest := s[span.start + span.length..];
      if !span.isList then Some((Str(payload), rest))
      else
        match DecodeItems(payload)
        case None => None
        case Some(xs) => Some((List(xs), rest))
  }

  /** Decodes a list payload: items one after another until the bytes run out. */
  function DecodeItems(s: seq<Byte>): Option<seq<Item>>
    decreases |s|, 1
  {
    if s == [] then Some([])
    else
      match DecodeItem(s)
      case None => None
      case Some((x, rest)) =>
        match DecodeItems(rest)
        case None => None
        case Some(xs) => Some([x] + xs)
  }

  /** Decodes a byte sequence that holds exactly one item. */
  function Decode(s: seq<Byte>): Option<Item>
  {
    match DecodeItem(s)
    case None => None
    case Some((x, rest)) => if rest == [] then Some(x) else None
  }

  /** `e` is an encoding of `x`: whatever follows it, the decoder reads `x` back
      and stops exactly where `e` ends. */
  ghost predicate EncodesItem(e: seq<Byte>, x: Item)
  {
    forall rest :: DecodeItem(e + rest) == Some((x, rest))
  }

  // ----- round trip ---------------------------------------------------------

  lemma HeaderDecodes(len: nat, offset: Byte, tail: seq<Byte>)
    requires offset == StringOffset || offset == ListOffset
    requires len < MaxLength && len <= |tail|
    ensures DecodeHeader(Header(len, offset) + tail)
            == Some(Span(offset == ListOffset, |Header(len, offset)|, len))
  {
    var h := Header(len, offset);
    var s := h + tail;
    if len >= ShortLimit {
      LongLengthBytes(len);
      var ll := |BigEndian(len)|;
      assert s[1..1 + ll] == BigEndian(len);
      BigEndianRoundTrip(len);
    }
  }

  /** Every byte string the standard can frame decodes back to itself. */
  lemma ElementRoundTrip(b: seq<Byte>)
    requires |b| < MaxLength
    ensures EncodesItem(EncodeElement(b), Str(b))
  {
    forall rest: seq<Byte> ensures DecodeItem(EncodeElement(b) + rest) == Some((Str(b), rest)) {
      if |b| == 1 && b[0] < StringOffset {
        SingleByteDecodes(b, rest);
      } else {
        FramedStringDecodes(b, rest);
      }
    }
  }

  lemma SingleByteDecodes(b: seq<Byte>, rest: seq<Byte>)
    requires |b| == 1 && b[0] < StringOffset
    ensures DecodeItem(b + rest) == Some((Str(b), rest))
  {
    var s := b + rest;
    assert DecodeHeader(s) == Some(Span(false, 0, 1));
    assert s[0..1] == b && s[1..] == rest;
  }

  lemma FramedStringDecodes(b: seq<Byte>, rest: seq<Byte>)
    requires |b| < MaxLength
    ensures DecodeItem(Header(|b|, StringOffset) + b + rest) == Some((Str(b), rest))
  {
    var h := Header(|b|, StringOffset);
    var s := h + b + rest;
    assert s == h + (b + rest);
    HeaderDecodes(|b|, StringOffset, b + rest);
    assert s[|h|..|h| + |b|] == b && s[|h| + |b|..] == rest;
  }

  lemma EncodingNonEmpty(e: seq<Byte>, x: Item)
    requires EncodesItem(e, x)
    ensures |e| > 0
  {
    assert DecodeItem(e + []) == Some((x, []));
  }

  /** Concatenated encodings decode, as a list payload, to the items they encode. */
  lemma {:induction false} ItemsRoundTrip(encs: seq<seq<Byte>>, xs: seq<Item>)
    requires |encs| == |xs|
    requires forall i :: 0 <= i < |encs| ==> EncodesItem(encs[i], xs[i])
    ensures DecodeItems(Concat(encs)) == Some(xs)
  {
    if encs != [] {
      EncodingNonEmpty(encs[0], xs[0]);
      ItemsRoundTrip(encs[1..], xs[1..]);
      assert DecodeItem(encs[0] + Concat(encs[1..])) == Some((xs[0], Concat(encs[1..])));
      assert [xs[0]] + xs[1..] == xs;
    }
  }

  /** A framed list of encodings decodes to the list of the items they encode. */
  lemma ListRoundTrip(encs: seq<seq<Byte>>, xs: seq<Item>)
    requires |encs| == |xs|
    requires forall i :: 0 <= i < |encs| ==> EncodesItem(encs[i], xs[i])
    requires |Concat(encs)| < MaxLength
    ensures EncodesItem(EncodeList(encs), List(xs))
  {
    var payload := Concat(encs);
    ItemsRoundTrip(encs, xs);
    forall rest: seq<Byte> ensures DecodeItem(EncodeList(encs) + rest) == Some((List(xs), rest)) {
      var h := Header(|payload|, ListOffset);
      var s := EncodeList(encs) + rest;
      assert s == h + (payload + rest);
      HeaderDecodes(|payload|, ListOffset, payload + rest);
      assert s[|h|..|h| + |payload|] == payload && s[|h| + |payload|..] == rest;
    }
  }

  /** A framed pair of encodings, standing alone, decodes to the pair of their items. */
  lemma PairDecodes(a: seq<Byte>, x: Item, b: seq<Byte>, y: Item)
    requires EncodesItem(a, x) && EncodesItem(b, y)
    requires |Concat([a, b])| < MaxLength
    ensures Decode(EncodeList([a, b])) == Some(List([x, y]))
  {
    ListRoundTrip([a, b], [x, y]);
    DecodeEncoding(EncodeList([a, b]), List([x, y]));
  }

  /** An encoding of `x` standing alone decodes to `x`. */
  lemma DecodeEncoding(e: seq<Byte>, x: Item)
    requires EncodesItem(e, x)
    ensures Decode(e) == Some(x)
  {
    assert DecodeItem(e + []) == Some((x, []));
    assert e + [] == e;
  }
}
