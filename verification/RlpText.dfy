/** The text form of items: printing, reading JSON back, and the `to_rlp` / `from_rlp` commands
    built on them (cast/src/rlp_converter.rs, cast/src/lib.rs). */
module RlpText {
  import opened Bytes
  import opened Rlp

  /** A parsed JSON document; a number keeps its printed text. */
  datatype Json =
    | Null
    | Bool(b: bool)
    | Number(text: string)
    | String(chars: string)
    | List(values: seq<Json>)
    | Object(members: seq<(string, Json)>)

  /** `HexPanic` is the panic of `expect`; the others are returned errors. `TooLong` is a
      payload of 2^64 bytes or more, which no 64-bit memory holds. */
  datatype TextError = BooleanInput | ObjectInput | HexPanic | BadHex | BadRlp | TooLong

  // ----- printing -----

  function Show(x: Item): (s: string)
    ensures s != ""
    decreases x, 1
  {
    match x
    case Data(d) => "\"0x" + HexEncode(d) + "\""
    case Array(xs) => "[" + ShowAll(xs) + "]"
  }

  function ShowAll(xs: seq<Item>): (s: string)
    decreases xs, 0
  {
    if xs == [] then ""
    else Show(xs[0]) + (if |xs| == 1 then "" else "," + ShowAll(xs[1..]))
  }

  class Formatter {
    var text: string

    constructor ()
      ensures text == ""
    {
      text := "";
    }

    /** Writes an item, looking one element ahead to place the commas. */
    method Write(x: Item)
      modifies this
      ensures text == old(text) + Show(x)
      decreases x, 1
    {
      match x {
        case Data(d) =>
          text := text + "\"0x" + HexEncode(d) + "\"";
          assert text == old(text) + ("\"0x" + HexEncode(d) + "\"");
        case Array(xs) =>
          text := text + "[";
          WriteAll(xs);
          text := text + "]";
          assert text == old(text) + ("[" + ShowAll(xs) + "]");
      }
    }

    method WriteAll(xs: seq<Item>)
      modifies this
      ensures text == old(text) + ShowAll(xs)
      decreases xs, 0
    {
      var i := 0;
      while i < |xs|
        invariant 0 <= i <= |xs|
        invariant text + ShowAll(xs[i..]) == old(text) + ShowAll(xs)
      {
        ghost var before := text;
        Write(xs[i]);
        var more := i + 1 < |xs|;
        if more { text := text + ","; }
        assert xs[i..][1..] == xs[i + 1..];
        assert text + ShowAll(xs[i + 1..]) == before + ShowAll(xs[i..]) by {
          if !more { assert ShowAll(xs[i + 1..]) == ""; }
        }
        i := i + 1;
      }
      assert xs[|xs|..] == [];
    }
  }

  function Joined(parts: seq<string>, separator: string): (s: string)
  {
    if parts == [] then ""
    else if |parts| == 1 then parts[0]
    else Joined(parts[..|parts| - 1], separator) + separator + parts[|parts| - 1]
  }

  lemma {:induction false} JoinedHead(parts: seq<string>, separator: string)
    requires |parts| >= 2
    ensures Joined(parts, separator) == parts[0] + separator + Joined(parts[1..], separator)
    decreases |parts|
  {
    var init, tail := parts[..|parts| - 1], parts[1..];
    if |parts| == 2 {
      assert Joined(init, separator) == parts[0] && Joined(tail, separator) == parts[1];
    } else {
      JoinedHead(init, separator);
      assert init[1..] == tail[..|tail| - 1];
      var inner, last := Joined(init[1..], separator), parts[|parts| - 1];
      assert Joined(tail, separator) == inner + separator + last;
      assert (parts[0] + separator + inner) + separator + last == parts[0] + separator + (inner + separator + last);
    }
  }

  function ShownItems(xs: seq<Item>): (parts: seq<string>)
    ensures |parts| == |xs| && forall i :: 0 <= i < |xs| ==> parts[i] == Show(xs[i])
  {
    seq(|xs|, i requires 0 <= i < |xs| => Show(xs[i]))
  }

  /** A list is printed as its printed items, with commas between them, in brackets; data as quoted
      hex with a prefix. */
  lemma {:induction false} ShownText(x: Item)
    ensures x.Data? ==> Show(x) == "\"0x" + HexEncode(x.data) + "\""
    ensures x.Array? ==> Show(x) == "[" + Joined(ShownItems(x.items), ",") + "]"
  {
    if x.Array? { ShownList(x.items); }
  }

  lemma {:induction false} ShownList(xs: seq<Item>)
    ensures ShowAll(xs) == Joined(ShownItems(xs), ",")
    decreases |xs|
  {
    if |xs| == 1 {
      assert ShowAll(xs) == Show(xs[0]) + "" == Show(xs[0]);
    } else if |xs| > 1 {
      ShownList(xs[1..]);
      JoinedHead(ShownItems(xs), ",");
      assert ShownItems(xs)[1..] == ShownItems(xs[1..]);
      Assoc(Show(xs[0]), ",", ShowAll(xs[1..]));
    }
  }

  // ----- reading JSON -----

  datatype Read<T> = Read(value: T, rest: string)

  /** The characters up to the closing quote; escapes and control characters are not read. */
  function ReadChars(s: string): (r: Option<Read<string>>)
    ensures r.Some? ==> |r.value.rest| < |s|
  {
    if s == "" || s[0] == '\\' || s[0] < ' ' then None
    else if s[0] == '"' then Some(Read("", s[1..]))
    else
      match ReadChars(s[1..])
      case None => None
      case Some(r) => Some(Read([s[0]] + r.value, r.rest))
  }

  function ReadValue(s: string): (r: Option<Read<Json>>)
    ensures r.Some? ==> |r.value.rest| < |s|
    decreases |s|, 0
  {
    if s == "" then None
    else if s[0] == '"' then
      match ReadChars(s[1..])
      case None => None
      case Some(r) => Some(Read(String(r.value), r.rest))
    else if s[0] == '[' then
      if StartsWith(s[1..], "]") then Some(Read(List([]), s[2..]))
      else
        match ReadElements(s[1..])
        case None => None
        case Some(r) => Some(Read(List(r.value), r.rest))
    else if StartsWith(s, "null") then Some(Read(Null, s[4..]))
    else if StartsWith(s, "true") then Some(Read(Bool(true), s[4..]))
    else if StartsWith(s, "false") then Some(Read(Bool(false), s[5..]))
    else None
  }

  /** One or more values with commas between them, through the closing bracket. */
  function ReadElements(s: string): (r: Option<Read<seq<Json>>>)
    ensures r.Some? ==> |r.value.rest| < |s|
    decreases |s|, 1
  {
    match ReadValue(s)
    case None => None
    case Some(first) =>
      if StartsWith(first.rest, "]") then Some(Read([first.value], first.rest[1..]))
      else if StartsWith(first.rest, ",") then
        match ReadElements(first.rest[1..])
        case None => None
        case Some(more) => Some(Read([first.value] + more.value, more.rest))
      else None
  }

  /** Any reading of text as JSON; nothing if the text is not JSON. */
  type JsonParser = string -> Option<Json>

  /** All that is asked of a parser: that it reads what items print as. */
  ghost predicate ReadsPrinted(parse: JsonParser) {
    forall x :: parse(Show(x)) == Some(JsonOf(x))
  }

  /** A parser for the part of JSON that items print as. */
  function ParseJson(s: string): (v: Option<Json>)
  {
    match ReadValue(s)
    case Some(r) => if r.rest == "" then Some(r.value) else None
    case None => None
  }

  // ----- JSON to items -----

  function ValueToItem(v: Json): (r: Result<Item, TextError>)
    decreases v, 1
  {
    match v
    case Null => Ok(Data([]))
    case Bool(_) => Err(BooleanInput)
    case Number(text) => HexItem(text)
    case String(chars) => HexItem(chars)
    case List(values) =>
      (match ValuesToItems(values)
       case Ok(xs) => Ok(Array(xs))
       case Err(e) => Err(e))
    case Object(_) => Err(ObjectInput)
  }

  function HexItem(text: string): (r: Result<Item, TextError>)
  {
    match HexDecode(StripHexPrefix(text))
    case Some(bs) => Ok(Data(bs))
    case None => Err(HexPanic)
  }

  /** The first element that fails decides the error. */
  function ValuesToItems(vs: seq<Json>): (r: Result<seq<Item>, TextError>)
    decreases vs, 0
  {
    if vs == [] then Ok([])
    else
      match ValueToItem(vs[0])
      case Err(e) => Err(e)
      case Ok(x) =>
        match ValuesToItems(vs[1..])
        case Err(e) => Err(e)
        case Ok(xs) => Ok([x] + xs)
  }

  // ----- the commands -----

  /** The command for a given JSON parser. Text that is not JSON is taken as one string of hex. */
  function ToRlp(parse: JsonParser, text: string): (r: Result<string, TextError>)
  {
    var value := match parse(text) case Some(v) => v case None => String(text);
    match ValueToItem(value)
    case Err(e) => Err(e)
    case Ok(x) => if Encodable(x) then Ok("0x" + HexEncode(Encode(x))) else Err(TooLong)
  }

  function FromRlp(text: string): (r: Result<string, TextError>)
  {
    match HexDecode(StripHexPrefix(text))
    case None => Err(BadHex)
    case Some(bs) =>
      match Decode(bs)
      case None => Err(BadRlp)
      case Some(x) => Ok(Show(x))
  }

  // ----- printed items read back as themselves -----

  function JsonOf(x: Item): (v: Json)
    decreases x, 1
  {
    match x
    case Data(d) => String("0x" + HexEncode(d))
    case Array(xs) => List(JsonOfAll(xs))
  }

  function JsonOfAll(xs: seq<Item>): (vs: seq<Json>)
    decreases xs, 0
  {
    if xs == [] then [] else [JsonOf(xs[0])] + JsonOfAll(xs[1..])
  }

  lemma {:induction false} CharsAreRead(chars: string, rest: string)
    requires forall i :: 0 <= i < |chars| ==> chars[i] != '"' && chars[i] != '\\' && ' ' <= chars[i]
    ensures ReadChars(chars + ("\"" + rest)) == Some(Read(chars, rest))
  {
    var s := chars + ("\"" + rest);
    if chars == "" {
      assert s[1..] == rest;
    } else {
      CharsAreRead(chars[1..], rest);
      assert s[1..] == chars[1..] + ("\"" + rest);
      assert chars == [chars[0]] + chars[1..];
    }
  }

  /** Reading a printed item stops exactly behind it, whatever text follows. */
  lemma {:induction false} ShownIsRead(x: Item, rest: string)
    ensures ReadValue(Show(x) + rest) == Some(Read(JsonOf(x), rest))
    decreases x, 1
  {
    var s := Show(x) + rest;
    match x {
      case Data(d) =>
        var chars := "0x" + HexEncode(d);
        CharsAreRead(chars, rest);
        assert s[1..] == chars + ("\"" + rest);
      case Array(xs) =>
        assert s[1..] == ShowAll(xs) + ("]" + rest);
        if xs == [] {
          assert s[2..] == rest;
        } else {
          ShownStartsNoList(xs, "]" + rest);
          ShownElementsAreRead(xs, rest);
        }
    }
  }

  lemma ShownStartsNoList(xs: seq<Item>, rest: string)
    requires xs != []
    ensures !StartsWith(ShowAll(xs) + rest, "]")
  {
    var s := ShowAll(xs) + rest;
    assert s[0] == Show(xs[0])[0];
    assert s[..1] == [s[0]];
  }

  /** The text behind the first element: the closing bracket, or a comma and the other elements. */
  function AfterFirst(xs: seq<Item>, rest: string): (s: string)
    requires xs != []
    ensures ShowAll(xs) + ("]" + rest) == Show(xs[0]) + s
    ensures |xs| == 1 ==> StartsWith(s, "]") && s[1..] == rest
    ensures |xs| > 1 ==> StartsWith(s, ",") && s[1..] == ShowAll(xs[1..]) + ("]" + rest)
  {
    if |xs| == 1 then "]" + rest else "," + (ShowAll(xs[1..]) + ("]" + rest))
  }

  lemma {:induction false} ShownElementsAreRead(xs: seq<Item>, rest: string)
    requires xs != []
    ensures ReadElements(ShowAll(xs) + ("]" + rest)) == Some(Read(JsonOfAll(xs), rest))
    decreases xs, 0
  {
    ShownIsRead(xs[0], AfterFirst(xs, rest));
    if |xs| == 1 {
      assert JsonOfAll(xs) == [JsonOf(xs[0])];
    } else {
      ShownElementsAreRead(xs[1..], rest);
      assert AfterFirst(xs, rest)[..1] == ",";
    }
  }

  lemma {:induction false} ItemOfItsJson(x: Item)
    ensures ValueToItem(JsonOf(x)) == Ok(x)
    decreases x, 1
  {
    match x {
      case Data(d) =>
        HexRoundTrip(d);
        assert ("0x" + HexEncode(d))[2..] == HexEncode(d);
      case Array(xs) => ItemsOfTheirJson(xs);
    }
  }

  lemma {:induction false} ItemsOfTheirJson(xs: seq<Item>)
    ensures ValuesToItems(JsonOfAll(xs)) == Ok(xs)
    decreases xs, 0
  {
    if xs != [] {
      ItemOfItsJson(xs[0]);
      ItemsOfTheirJson(xs[1..]);
      assert JsonOfAll(xs)[1..] == JsonOfAll(xs[1..]);
      assert xs == [xs[0]] + xs[1..];
    }
  }

  /** Parsing the printed text as JSON and converting gives back the item. */
  lemma PrintThenRead(x: Item)
    ensures ParseJson(Show(x)) == Some(JsonOf(x))
    ensures ValueToItem(JsonOf(x)) == Ok(x)
  {
    ShownIsRead(x, "");
    assert Show(x) + "" == Show(x);
    ItemOfItsJson(x);
  }

  lemma ParseJsonReadsPrinted()
    ensures ReadsPrinted(ParseJson)
  {
    forall x ensures ParseJson(Show(x)) == Some(JsonOf(x)) {
      PrintThenRead(x);
    }
  }

  // ----- which documents are accepted -----

  predicate IsHexText(text: string) {
    var digits := StripHexPrefix(text);
    |digits| % 2 == 0 && forall i :: 0 <= i < |digits| ==> NibbleOf(digits[i]).Some?
  }

  lemma {:induction false} HexDecodesIff(s: string)
    ensures HexDecode(s).Some? <==> |s| % 2 == 0 && forall i :: 0 <= i < |s| ==> NibbleOf(s[i]).Some?
  {
    if |s| >= 2 {
      HexDecodesIff(s[2..]);
      assert forall i :: 2 <= i < |s| ==> s[i] == s[2..][i - 2];
    }
  }

  /** No boolean and no object anywhere, and every string and number is bytes in hex. */
  predicate Convertible(v: Json)
    decreases v, 1
  {
    match v
    case Null => true
    case Bool(_) => false
    case Number(text) => IsHexText(text)
    case String(chars) => IsHexText(chars)
    case List(values) => AllConvertible(values)
    case Object(_) => false
  }

  predicate AllConvertible(vs: seq<Json>)
    decreases vs, 0
  {
    vs == [] || (Convertible(vs[0]) && AllConvertible(vs[1..]))
  }

  /** A document converts exactly when it is convertible throughout. */
  lemma {:induction false} ConvertsIff(v: Json)
    ensures ValueToItem(v).Ok? <==> Convertible(v)
    decreases v, 1
  {
    match v {
      case Number(text) => HexDecodesIff(StripHexPrefix(text));
      case String(chars) => HexDecodesIff(StripHexPrefix(chars));
      case List(values) => AllConvertIff(values);
      case _ =>
    }
  }

  lemma {:induction false} AllConvertIff(vs: seq<Json>)
    ensures ValuesToItems(vs).Ok? <==> AllConvertible(vs)
    decreases vs, 0
  {
    if vs != [] {
      ConvertsIff(vs[0]);
      AllConvertIff(vs[1..]);
    }
  }

  /** A list converts element by element. */
  lemma {:induction false} ListConvertsIff(vs: seq<Json>, xs: seq<Item>)
    ensures ValueToItem(List(vs)) == Ok(Array(xs)) <==>
            |xs| == |vs| && forall i :: 0 <= i < |vs| ==> ValueToItem(vs[i]) == Ok(xs[i])
    decreases |vs|
  {
    if vs != [] && |xs| == |vs| {
      ListConvertsIff(vs[1..], xs[1..]);
      assert xs == [xs[0]] + xs[1..];
      assert forall i :: 1 <= i < |vs| ==> vs[1..][i - 1] == vs[i] && xs[1..][i - 1] == xs[i];
    } else if ValuesToItems(vs).Ok? {
      SameLength(vs);
    }
  }

  lemma {:induction false} SameLength(vs: seq<Json>)
    requires ValuesToItems(vs).Ok?
    ensures |ValuesToItems(vs).value| == |vs|
    decreases |vs|
  {
    if vs != [] { SameLength(vs[1..]); }
  }

  /** The text of the bytes that stand for one string of data. */
  ghost predicate IsRlpOfData(bs: seq<byte>, out: string) {
    exists encoded :: Encodable(Data(bs)) && IsEncodingOf(Data(bs), encoded) && out == "0x" + HexEncode(encoded)
  }

  /** What comes out for a document that is no list. A string or a number, or text that is no JSON at
      all, gives the encoding of the bytes it spells in hex, prefixed or not; null gives that of no
      bytes, 0x80; booleans, objects and anything that is not hex are refused. */
  lemma ToRlpOfScalar(parse: JsonParser, text: string, t: string)
    requires (parse(text) == None && t == text) || parse(text) in {Some(Number(t)), Some(String(t))}
    ensures ToRlp(parse, text) == Err(HexPanic) <==> !IsHexText(t)
    ensures forall bs :: IsHexOf(StripHexPrefix(t), bs) && |bs| < LENGTH_LIMIT ==>
              ToRlp(parse, text).Ok? && IsRlpOfData(bs, ToRlp(parse, text).value)
  {
    HexDecodesIff(StripHexPrefix(t));
    forall bs | IsHexOf(StripHexPrefix(t), bs) && |bs| < LENGTH_LIMIT
      ensures ToRlp(parse, text).Ok? && IsRlpOfData(bs, ToRlp(parse, text).value)
    {
      HexDecodeIff(StripHexPrefix(t), bs);
      EncodingIff(Data(bs), Encode(Data(bs)));
    }
  }

  lemma ToRlpOfOther(parse: JsonParser, text: string)
    ensures parse(text) == Some(Null) ==> ToRlp(parse, text) == Ok("0x80")
    ensures parse(text).Some? && parse(text).value.Bool? ==> ToRlp(parse, text) == Err(BooleanInput)
    ensures parse(text).Some? && parse(text).value.Object? ==> ToRlp(parse, text) == Err(ObjectInput)
  {
    assert Encode(Data([])) == [0x80];
    NibbleCharIs(8);
    NibbleCharIs(0);
    assert HexEncode([0x80]) == "80" && "0x" + "80" == "0x80";
  }

  /** `from_rlp` accepts exactly the hex texts, prefixed or not, of encoded items, and prints the
      item that was encoded. */
  lemma FromRlpAcceptsIff(text: string, out: string)
    ensures FromRlp(text) == Ok(out) <==>
            exists x :: Encodable(x) && HexDecode(StripHexPrefix(text)) == Some(Encode(x)) && out == Show(x)
  {
    if FromRlp(text) == Ok(out) {
      var bs := HexDecode(StripHexPrefix(text)).value;
      DecodeIffEncoded(bs, Decode(bs).value);
    }
    if x :| Encodable(x) && HexDecode(StripHexPrefix(text)) == Some(Encode(x)) && out == Show(x) {
      DecodeIffEncoded(Encode(x), x);
    }
  }

  // ----- the commands undo each other -----

  lemma EncodedTextDecodes(x: Item)
    requires Encodable(x)
    ensures FromRlp("0x" + HexEncode(Encode(x))) == Ok(Show(x))
  {
    var bs := Encode(x);
    HexRoundTrip(bs);
    assert ("0x" + HexEncode(bs))[2..] == HexEncode(bs);
    DecodeIffEncoded(bs, x);
  }

  /** Every text that printing can produce survives `to_rlp` followed by `from_rlp`. */
  lemma ToRlpThenFromRlp(parse: JsonParser, x: Item)
    requires ReadsPrinted(parse) && Encodable(x)
    ensures ToRlp(parse, Show(x)).Ok?
    ensures FromRlp(ToRlp(parse, Show(x)).value) == Ok(Show(x))
  {
    ItemOfItsJson(x);
    EncodedTextDecodes(x);
  }

  /** Whatever `from_rlp` prints, `to_rlp` turns into the same bytes again, in lower-case hex
      with a prefix. */
  lemma FromRlpThenToRlp(parse: JsonParser, text: string)
    requires ReadsPrinted(parse) && FromRlp(text).Ok?
    ensures ToRlp(parse, FromRlp(text).value) ==
            Ok("0x" + HexEncode(HexDecode(StripHexPrefix(text)).value))
  {
    var bs := HexDecode(StripHexPrefix(text)).value;
    var x := Decode(bs).value;
    DecodeIffEncoded(bs, x);
    ItemOfItsJson(x);
  }

  /** Any accepted text, however it was written, is normalised by one round trip. */
  lemma ToRlpIsStable(parse: JsonParser, text: string)
    requires ReadsPrinted(parse) && ToRlp(parse, text).Ok?
    ensures FromRlp(ToRlp(parse, text).value).Ok?
    ensures ToRlp(parse, FromRlp(ToRlp(parse, text).value).value) == ToRlp(parse, text)
  {
    var value := match parse(text) case Some(v) => v case None => String(text);
    var x := ValueToItem(value).value;
    EncodedTextDecodes(x);
    ItemOfItsJson(x);
  }
}
