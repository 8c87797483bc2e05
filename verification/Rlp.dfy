/** Recursive Length Prefix coding of nested items: Appendix B of the Ethereum Yellow Paper,
    as `cast` drives it in cast/src/rlp_converter.rs. */
module Rlp {
  import opened Bytes
  import opened Radix

  datatype Item = Data(data: seq<byte>) | Array(items: seq<Item>)

  /** Payload lengths are below 2^64: the longest length field has eight bytes. */
  const LENGTH_LIMIT: nat := 0x1_0000_0000_0000_0000

  // ----- lengths as big-endian digits -----

  /** The shortest big-endian digits of n; none for zero. */
  function BigEndian(n: nat): (bs: seq<byte>)
    ensures n > 0 ==> bs != [] && bs[0] != 0
    ensures FromBigEndian(bs) == n
  {
    if n == 0 then []
    else
      var init := BigEndian(n / 256);
      var bs := init + [(n % 256) as byte];
      assert bs[..|bs| - 1] == init;
      bs
  }

  function FromBigEndian(bs: seq<byte>): (n: nat)
    ensures n < Pow(256, |bs|)
  {
    if bs == [] then 0 else 256 * FromBigEndian(bs[..|bs| - 1]) + bs[|bs| - 1]
  }

  lemma {:induction false} BigEndianWidth(n: nat, k: nat)
    requires n < Pow(256, k)
    ensures |BigEndian(n)| <= k
  {
    if n > 0 {
      BigEndianWidth(n / 256, k - 1);
    }
  }

  lemma LimitIsEightBytes()
    ensures Pow(256, 8) == LENGTH_LIMIT
  {
    assert Pow(256, 4) == 0x1_0000_0000;
    assert Pow(256, 8) == 256 * (256 * (256 * (256 * Pow(256, 4))));
  }

  /** Digits that do not start with zero are the shortest ones of their value. */
  lemma {:induction false} BigEndianUnique(bs: seq<byte>)
    requires bs == [] || bs[0] != 0
    ensures BigEndian(FromBigEndian(bs)) == bs
    ensures bs != [] ==> FromBigEndian(bs) > 0
  {
    if bs != [] {
      var init := bs[..|bs| - 1];
      BigEndianUnique(init);
      assert bs == init + [bs[|bs| - 1]];
      assert FromBigEndian(bs) / 256 == FromBigEndian(init);
    }
  }

  // ----- encoding -----

  function HeaderLength(len: nat): (n: nat)
  {
    if len <= 55 then 1 else 1 + |BigEndian(len)|
  }

  /** The header of a payload: 0x80 opens data, 0xc0 opens a list. */
  function Header(base: byte, len: nat): (h: seq<byte>)
    requires base == 0x80 || base == 0xc0
    requires len < LENGTH_LIMIT
    ensures |h| == HeaderLength(len)
    ensures base <= h[0] < base + 64
  {
    if len <= 55 then [base + len]
    else
      LimitIsEightBytes();
      BigEndianWidth(len, 8);
      [base + 55 + |BigEndian(len)|] + BigEndian(len)
  }

  predicate IsOwnEncoding(data: seq<byte>) {
    |data| == 1 && data[0] < 0x80
  }

  function PayloadLength(x: Item): (n: nat)
    decreases x, 0
  {
    match x
    case Data(d) => |d|
    case Array(xs) => TotalLength(xs)
  }

  function EncodedLength(x: Item): (n: nat)
    ensures n >= 1 && n >= PayloadLength(x)
    decreases x, 1
  {
    if x.Data? && IsOwnEncoding(x.data) then 1
    else HeaderLength(PayloadLength(x)) + PayloadLength(x)
  }

  function TotalLength(xs: seq<Item>): (n: nat)
    decreases xs, 0
  {
    if xs == [] then 0 else EncodedLength(xs[0]) + TotalLength(xs[1..])
  }

  /** Exactly the items whose every length fits the format: a list's payload is longer than
      that of any item inside it, so the outermost length decides. */
  predicate Encodable(x: Item) {
    PayloadLength(x) < LENGTH_LIMIT
  }

  function Encode(x: Item): (bs: seq<byte>)
    requires Encodable(x)
    ensures |bs| == EncodedLength(x)
    decreases x, 1
  {
    match x
    case Data(d) => if IsOwnEncoding(d) then d else Header(0x80, |d|) + d
    case Array(xs) => Header(0xc0, TotalLength(xs)) + EncodeAll(xs)
  }

  function EncodeAll(xs: seq<Item>): (bs: seq<byte>)
    requires TotalLength(xs) < LENGTH_LIMIT
    ensures |bs| == TotalLength(xs)
    decreases xs, 0
  {
    if xs == [] then [] else Encode(xs[0]) + EncodeAll(xs[1..])
  }

  // ----- which bytes an encoding consists of -----

  lemma ShiftDigit(n: nat, k: nat)
    ensures n / 256 / Pow(256, k) % 256 == n / Pow(256, k + 1) % 256
    ensures n / Pow(256, 0) % 256 == n % 256
  {
    DivDiv(n, 256, Pow(256, k));
  }

  lemma FromBigEndianLast(bs: seq<byte>)
    requires bs != []
    ensures var n := FromBigEndian(bs);
            n / 256 == FromBigEndian(bs[..|bs| - 1]) && n % 256 == bs[|bs| - 1]
  {
  }

  lemma {:induction false} DigitOfValue(bs: seq<byte>, n: nat, i: nat)
    requires n == FromBigEndian(bs) && i < |bs|
    ensures bs[i] == n / Pow(256, |bs| - 1 - i) % 256
    decreases |bs|
  {
    FromBigEndianLast(bs);
    if i == |bs| - 1 {
      ShiftDigit(n, 0);
    } else {
      DigitOfValue(bs[..|bs| - 1], n / 256, i);
      ShiftDigit(n, |bs| - 2 - i);
    }
  }

  lemma {:induction false} BigEndianRange(n: nat)
    requires n > 0
    ensures Pow(256, |BigEndian(n)| - 1) <= n < Pow(256, |BigEndian(n)|)
  {
    if n >= 256 { BigEndianRange(n / 256); }
  }

  lemma WidthIsUnique(n: nat, j: nat, k: nat)
    requires 1 <= j && Pow(256, j - 1) <= n < Pow(256, j)
    requires 1 <= k && Pow(256, k - 1) <= n < Pow(256, k)
    ensures j == k
  {
    if j < k { PowGrows(256, j, k - 1); }
    if k < j { PowGrows(256, k, j - 1); }
  }

  /** A payload of up to 55 bytes behind one byte that counts from `short`; a longer one behind a byte
      that counts from `long` the k bytes of its length, which follow in big-endian order without a
      leading zero. */
  predicate IsPrefixed(short: byte, long: byte, payload: seq<byte>, bs: seq<byte>) {
    var len := |payload|;
    var k := |bs| - 1 - len;
    if len <= 55 then k == 0 && bs[0] == short + len && bs[1..] == payload
    else
      && 1 <= k <= 8 && Pow(256, k - 1) <= len < Pow(256, k)
      && bs[0] == long + k
      && (forall j :: 1 <= j <= k ==> bs[j] == len / Pow(256, k - j) % 256)
      && bs[1 + k..] == payload
  }

  /** The bytes that Appendix B gives an item. */
  predicate IsEncodingOf(x: Item, bs: seq<byte>)
    requires Encodable(x)
  {
    match x
    case Data(d) => if |d| == 1 && d[0] < 0x80 then bs == d else IsPrefixed(0x80, 0xb7, d, bs)
    case Array(xs) => IsPrefixed(0xc0, 0xf7, EncodeAll(xs), bs)
  }

  lemma LengthBytes(len: nat, bs: seq<byte>, k: nat)
    requires 1 + k <= |bs| && bs[1..1 + k] == BigEndian(len)
    ensures forall j :: 1 <= j <= k ==> bs[j] == len / Pow(256, k - j) % 256
  {
    var digits := bs[1..1 + k];
    forall j | 1 <= j <= k ensures bs[j] == len / Pow(256, k - j) % 256 {
      assert bs[j] == digits[j - 1];
      DigitOfValue(digits, len, j - 1);
    }
  }

  lemma HeaderIsPrefix(base: byte, payload: seq<byte>)
    requires base == 0x80 || base == 0xc0
    requires |payload| < LENGTH_LIMIT
    ensures IsPrefixed(base, base + 55, payload, Header(base, |payload|) + payload)
  {
    var len, bs := |payload|, Header(base, |payload|) + payload;
    if len > 55 {
      LimitIsEightBytes();
      BigEndianWidth(len, 8);
      BigEndianRange(len);
      assert bs[1..1 + |BigEndian(len)|] == BigEndian(len);
      LengthBytes(len, bs, |BigEndian(len)|);
    }
  }

  lemma SameHeadAndTail(bs: seq<byte>, cs: seq<byte>, n: nat)
    requires n <= |bs| == |cs| && bs[n..] == cs[n..]
    requires forall i :: 0 <= i < n ==> bs[i] == cs[i]
    ensures bs == cs
  {
    assert bs == bs[..n] + bs[n..] && cs == cs[..n] + cs[n..];
    assert bs[..n] == cs[..n];
  }

  lemma PrefixedIsUnique(short: byte, long: byte, payload: seq<byte>, bs: seq<byte>, cs: seq<byte>)
    requires IsPrefixed(short, long, payload, bs) && IsPrefixed(short, long, payload, cs)
    ensures bs == cs
  {
    var len := |payload|;
    if len <= 55 {
      SameHeadAndTail(bs, cs, 1);
    } else {
      var k := |bs| - 1 - len;
      WidthIsUnique(len, k, |cs| - 1 - len);
      SameHeadAndTail(bs, cs, 1 + k);
    }
  }

  lemma PrefixedIff(base: byte, payload: seq<byte>, bs: seq<byte>)
    requires base == 0x80 || base == 0xc0
    requires |payload| < LENGTH_LIMIT
    ensures bs == Header(base, |payload|) + payload <==> IsPrefixed(base, base + 55, payload, bs)
  {
    HeaderIsPrefix(base, payload);
    if IsPrefixed(base, base + 55, payload, bs) {
      PrefixedIsUnique(base, base + 55, payload, bs, Header(base, |payload|) + payload);
    }
  }

  /** The encoding of an item is exactly what Appendix B prescribes, byte by byte. */
  lemma {:induction false} EncodingIff(x: Item, bs: seq<byte>)
    requires Encodable(x)
    ensures bs == Encode(x) <==> IsEncodingOf(x, bs)
  {
    match x {
      case Data(d) => PrefixedIff(0x80, d, bs);
      case Array(xs) => PrefixedIff(0xc0, EncodeAll(xs), bs);
    }
  }

  /** The body of a list is the encodings of its items one after the other. */
  lemma {:induction false} BodyConcatenates(xs: seq<Item>, ys: seq<Item>)
    requires TotalLength(xs + ys) < LENGTH_LIMIT
    ensures TotalLength(xs) + TotalLength(ys) == TotalLength(xs + ys)
    ensures EncodeAll(xs + ys) == EncodeAll(xs) + EncodeAll(ys)
    ensures |xs| == 1 ==> EncodeAll(xs) == Encode(xs[0])
    decreases |xs|
  {
    if xs == [] {
      assert xs + ys == ys;
    } else {
      assert (xs + ys)[1..] == xs[1..] + ys;
      BodyConcatenates(xs[1..], ys);
      Assoc(Encode(xs[0]), EncodeAll(xs[1..]), EncodeAll(ys));
      assert Encode(xs[0]) + [] == Encode(xs[0]);
    }
  }

  // ----- decoding -----

  datatype Head = Head(isList: bool, headerLength: nat, payloadLength: nat)

  function ReadLongHead(isList: bool, bs: seq<byte>, width: nat): (h: Option<Head>)
    requires 1 <= width
    ensures h.Some? ==> h.value.headerLength >= 1
  {
    if |bs| < 1 + width || bs[1] == 0 then None
    else
      var len := FromBigEndian(bs[1..1 + width]);
      if len <= 55 then None else Some(Head(isList, 1 + width, len))
  }

  /** Splits off the header. Lengths with a leading zero and long forms of short lengths are
      rejected. */
  function ReadHead(bs: seq<byte>): (h: Option<Head>)
    ensures h.Some? && h.value.isList ==> h.value.headerLength >= 1
    ensures h.Some? ==> h.value.headerLength + h.value.payloadLength >= 1
  {
    if bs == [] then None
    else if bs[0] < 0x80 then Some(Head(false, 0, 1))
    else if bs[0] <= 0xb7 then Some(Head(false, 1, bs[0] - 0x80))
    else if bs[0] <= 0xbf then ReadLongHead(false, bs, bs[0] - 0xb7)
    else if bs[0] <= 0xf7 then Some(Head(true, 1, bs[0] - 0xc0))
    else ReadLongHead(true, bs, bs[0] - 0xf7)
  }

  datatype Parsed = Parsed(item: Item, rest: seq<byte>)

  /** Reads one item from the front. */
  function DecodeItem(bs: seq<byte>): (r: Option<Parsed>)
    ensures r.Some? ==> |r.value.rest| < |bs|
    decreases |bs|, 0
  {
    match ReadHead(bs)
    case None => None
    case Some(h) =>
      var end := h.headerLength + h.payloadLength;
      if |bs| < end then None
      else
        var payload := bs[h.headerLength..end];
        if !h.isList then
          if h.headerLength == 1 && IsOwnEncoding(payload) then None
          else Some(Parsed(Data(payload), bs[end..]))
        else
          match DecodeAll(payload)
          case None => None
          case Some(xs) => Some(Parsed(Array(xs), bs[end..]))
  }

  /** Reads items until the bytes are used up. */
  function DecodeAll(bs: seq<byte>): (r: Option<seq<Item>>)
    decreases |bs|, 1
  {
    if bs == [] then Some([])
    else
      match DecodeItem(bs)
      case None => None
      case Some(p) =>
        match DecodeAll(p.rest)
        case None => None
        case Some(xs) => Some([p.item] + xs)
  }

  function Decode(bs: seq<byte>): (r: Option<Item>)
  {
    match DecodeItem(bs)
    case Some(Parsed(x, rest)) => if rest == [] then Some(x) else None
    case None => None
  }

  // ----- the codec is a bijection between encodable items and canonical bytes -----

  lemma HeaderIsRead(base: byte, len: nat, rest: seq<byte>)
    requires base == 0x80 || base == 0xc0
    requires len < LENGTH_LIMIT
    ensures ReadHead(Header(base, len) + rest) == Some(Head(base == 0xc0, HeaderLength(len), len))
  {
    var bs := Header(base, len) + rest;
    if len > 55 {
      LimitIsEightBytes();
      BigEndianWidth(len, 8);
      var digits := BigEndian(len);
      assert bs[1..1 + |digits|] == digits;
    }
  }

  lemma LongHeadIsHeader(isList: bool, bs: seq<byte>, width: nat, h: Head)
    requires 1 <= width <= 8
    requires ReadLongHead(isList, bs, width) == Some(h)
    ensures h.payloadLength < LENGTH_LIMIT && BigEndian(h.payloadLength) == bs[1..1 + width]
  {
    var digits := bs[1..1 + width];
    BigEndianUnique(digits);
    PowGrows(256, width, 8);
    LimitIsEightBytes();
  }

  /** A header that was read is the only header of its length. */
  lemma HeadIsHeader(bs: seq<byte>, h: Head)
    requires ReadHead(bs) == Some(h) && h.headerLength >= 1
    ensures h.headerLength <= |bs| && h.payloadLength < LENGTH_LIMIT
    ensures bs[..h.headerLength] == Header(if h.isList then 0xc0 else 0x80, h.payloadLength)
  {
    if 0xb7 < bs[0] <= 0xbf || 0xf7 < bs[0] {
      var width := if h.isList then bs[0] - 0xf7 else bs[0] - 0xb7;
      LongHeadIsHeader(h.isList, bs, width, h);
      assert bs[..1 + width] == [bs[0]] + bs[1..1 + width];
    } else {
      assert bs[..1] == [bs[0]];
    }
  }

  /** Behind a header, decoding finds exactly the payload and what follows it. */
  lemma PayloadIsFound(base: byte, payload: seq<byte>, rest: seq<byte>)
    requires base == 0x80 || base == 0xc0
    requires |payload| < LENGTH_LIMIT
    ensures var bs := Header(base, |payload|) + payload + rest;
            var end := HeaderLength(|payload|) + |payload|;
            && ReadHead(bs) == Some(Head(base == 0xc0, HeaderLength(|payload|), |payload|))
            && bs[HeaderLength(|payload|)..end] == payload && bs[end..] == rest
  {
    HeaderIsRead(base, |payload|, payload + rest);
    assert Header(base, |payload|) + payload + rest == Header(base, |payload|) + (payload + rest);
  }

  /** Decoding undoes encoding, whatever bytes follow. */
  lemma {:induction false} EncodeThenDecode(x: Item, rest: seq<byte>)
    requires Encodable(x)
    ensures DecodeItem(Encode(x) + rest) == Some(Parsed(x, rest))
    decreases x, 1
  {
    match x {
      case Data(d) =>
        if IsOwnEncoding(d) {
          assert (d + rest)[0..1] == d && (d + rest)[1..] == rest;
        } else {
          PayloadIsFound(0x80, d, rest);
        }
      case Array(xs) =>
        EncodeAllThenDecode(xs);
        PayloadIsFound(0xc0, EncodeAll(xs), rest);
    }
  }

  lemma {:induction false} EncodeAllThenDecode(xs: seq<Item>)
    requires TotalLength(xs) < LENGTH_LIMIT
    ensures DecodeAll(EncodeAll(xs)) == Some(xs)
    decreases xs, 0
  {
    if xs != [] {
      EncodeThenDecode(xs[0], EncodeAll(xs[1..]));
      EncodeAllThenDecode(xs[1..]);
      assert xs == [xs[0]] + xs[1..];
    }
  }

  lemma SplitInThree(bs: seq<byte>, i: nat, j: nat)
    requires i <= j <= |bs|
    ensures bs == bs[..i] + bs[i..j] + bs[j..]
  {
  }

  /** Whatever is decoded re-encodes to the very bytes it was read from. */
  lemma {:induction false} DecodeThenEncode(bs: seq<byte>)
    requires DecodeItem(bs).Some?
    ensures var p := DecodeItem(bs).value;
            Encodable(p.item) && bs == Encode(p.item) + p.rest
    decreases |bs|, 0
  {
    var h := ReadHead(bs).value;
    var end := h.headerLength + h.payloadLength;
    var payload := bs[h.headerLength..end];
    SplitInThree(bs, h.headerLength, end);
    if h.headerLength >= 1 {
      HeadIsHeader(bs, h);
      if h.isList { DecodeAllThenEncode(payload); }
    }
  }

  lemma {:induction false} DecodeAllThenEncode(bs: seq<byte>)
    requires DecodeAll(bs).Some?
    ensures var xs := DecodeAll(bs).value;
            TotalLength(xs) == |bs| && (|bs| < LENGTH_LIMIT ==> EncodeAll(xs) == bs)
    decreases |bs|, 1
  {
    if bs != [] {
      var p := DecodeItem(bs).value;
      DecodeThenEncode(bs);
      DecodeAllThenEncode(p.rest);
      var xs := DecodeAll(bs).value;
      assert xs[1..] == DecodeAll(p.rest).value;
    }
  }

  /** `Decode` accepts exactly the encodings, and returns the item that was encoded. */
  lemma DecodeIffEncoded(bs: seq<byte>, x: Item)
    ensures Decode(bs) == Some(x) <==> Encodable(x) && Encode(x) == bs
  {
    if Encodable(x) && Encode(x) == bs {
      EncodeThenDecode(x, []);
      assert bs + [] == bs;
    }
    if Decode(bs) == Some(x) {
      DecodeThenEncode(bs);
      assert Encode(x) + [] == Encode(x);
    }
  }

  /** No encoding is a proper prefix of another, so a body of items splits in one way only. */
  lemma PrefixFree(x: Item, y: Item, restX: seq<byte>, restY: seq<byte>)
    requires Encodable(x) && Encodable(y)
    requires Encode(x) + restX == Encode(y) + restY
    ensures x == y && restX == restY
  {
    EncodeThenDecode(x, restX);
    EncodeThenDecode(y, restY);
  }

  lemma ListBodySplitsUniquely(xs: seq<Item>, ys: seq<Item>)
    requires TotalLength(xs) < LENGTH_LIMIT && TotalLength(ys) < LENGTH_LIMIT
    requires EncodeAll(xs) == EncodeAll(ys)
    ensures xs == ys
  {
    EncodeAllThenDecode(xs);
    EncodeAllThenDecode(ys);
  }

  // ----- the output stream that items append themselves to -----

  /** Bytes written so far and the start of every list still open; a list's header is inserted
      in front of its body when the list is closed. */
  class RlpStream {
    var out: seq<byte>
    var open: seq<nat>

    constructor ()
      ensures out == [] && open == []
    {
      out, open := [], [];
    }

    method BeginUnboundedList()
      modifies this
      ensures out == old(out) && open == old(open) + [|old(out)|]
    {
      open := open + [|out|];
    }

    method FinalizeUnboundedList()
      requires open != [] && open[|open| - 1] <= |out|
      requires |out| - open[|open| - 1] < LENGTH_LIMIT
      modifies this
      ensures open == old(open)[..|old(open)| - 1]
      ensures var start := old(open)[|old(open)| - 1];
              out == old(out)[..start] + Header(0xc0, |old(out)| - start) + old(out)[start..]
    {
      var start := open[|open| - 1];
      out := out[..start] + Header(0xc0, |out| - start) + out[start..];
      open := open[..|open| - 1];
    }

    method AppendBytes(data: seq<byte>)
      requires |data| < LENGTH_LIMIT
      modifies this
      ensures out == old(out) + Encode(Data(data)) && open == old(open)
    {
      if IsOwnEncoding(data) {
        out := out + data;
      } else {
        out := out + Header(0x80, |data|) + data;
        assert out == old(out) + (Header(0x80, |data|) + data);
      }
    }

    /** Appending an item writes its encoding behind what is there and leaves every list that
        was open before as it was. */
    method Append(x: Item)
      requires Encodable(x)
      modifies this
      ensures out == old(out) + Encode(x) && open == old(open)
      decreases x, 1
    {
      match x {
        case Data(d) =>
          AppendBytes(d);
        case Array(xs) =>
          BeginUnboundedList();
          AppendAll(xs);
          FinalizeUnboundedList();
          SpliceHeader(old(out), Header(0xc0, TotalLength(xs)), EncodeAll(xs));
      }
    }

    method AppendAll(xs: seq<Item>)
      requires TotalLength(xs) < LENGTH_LIMIT
      modifies this
      ensures out == old(out) + EncodeAll(xs) && open == old(open)
      decreases xs, 0
    {
      assert xs[0..] == xs;
      for i := 0 to |xs|
        invariant open == old(open)
        invariant TotalLength(xs[i..]) < LENGTH_LIMIT
        invariant out + EncodeAll(xs[i..]) == old(out) + EncodeAll(xs)
      {
        assert xs[i..][1..] == xs[i + 1..];
        Assoc(out, Encode(xs[i]), EncodeAll(xs[i + 1..]));
        Append(xs[i]);
      }
      assert out + [] == out;
    }
  }

  lemma SpliceHeader(before: seq<byte>, header: seq<byte>, body: seq<byte>)
    ensures var written := before + body;
            written[..|before|] + header + written[|before|..] == before + (header + body)
  {
    var written := before + body;
    assert written[..|before|] == before && written[|before|..] == body;
  }
}
