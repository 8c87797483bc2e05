/** Bytes, the two-digits-per-byte hex text used throughout `cast`, and what several modules share:
    optional values, results, prefixes and padding. */
module Bytes {

  datatype Option<+T> = None | Some(value: T)

  datatype Result<+T, +E> = Ok(value: T) | Err(error: E)

  type byte = x: int | 0 <= x < 256

  /** The numeric value of a hex digit; both letter cases are read. */
  function NibbleOf(c: char): (n: Option<nat>)
    ensures n.Some? ==> n.value < 16
  {
    if '0' <= c <= '9' then Some(c as int - '0' as int)
    else if 'a' <= c <= 'f' then Some(c as int - 'a' as int + 10)
    else if 'A' <= c <= 'F' then Some(c as int - 'A' as int + 10)
    else None
  }

  function NibbleChar(n: nat): (c: char)
    requires n < 16
    ensures NibbleOf(c) == Some(n)
    ensures '0' <= c <= '9' || 'a' <= c <= 'f'
  {
    if n < 10 then ('0' as int + n) as char else ('a' as int + n - 10) as char
  }

  function HexEncode(bs: seq<byte>): (s: string)
    ensures |s| == 2 * |bs|
    ensures forall i :: 0 <= i < |s| ==> '0' <= s[i] <= '9' || 'a' <= s[i] <= 'f'
  {
    if bs == [] then []
    else [NibbleChar(bs[0] / 16), NibbleChar(bs[0] % 16)] + HexEncode(bs[1..])
  }

  /** Fails on an odd number of characters and on any non-hex character. */
  function HexDecode(s: string): (r: Option<seq<byte>>)
    ensures r.Some? ==> |s| == 2 * |r.value|
  {
    if s == [] then Some([])
    else if |s| == 1 then None
    else
      match (NibbleOf(s[0]), NibbleOf(s[1]), HexDecode(s[2..]))
      case (Some(hi), Some(lo), Some(rest)) => Some([(16 * hi + lo) as byte] + rest)
      case _ => None
  }

  /** Which characters are hex digits, and of which value. */
  lemma NibbleOfIff(c: char, n: nat)
    requires n < 16
    ensures NibbleOf(c) == Some(n) <==> c == "0123456789abcdef"[n] || c == "0123456789ABCDEF"[n]
  {
  }

  lemma NibbleCharIs(n: nat)
    requires n < 16
    ensures NibbleChar(n) == "0123456789abcdef"[n]
  {
    NibbleOfIff(NibbleChar(n), n);
  }

  /** Byte i is written as its upper, then its lower four bits. */
  lemma {:induction false} HexTextOf(bs: seq<byte>, i: nat)
    requires i < |bs|
    ensures HexEncode(bs)[2 * i] == "0123456789abcdef"[bs[i] / 16]
    ensures HexEncode(bs)[2 * i + 1] == "0123456789abcdef"[bs[i] % 16]
  {
    if i == 0 {
      NibbleCharIs(bs[0] / 16);
      NibbleCharIs(bs[0] % 16);
    } else {
      HexTextOf(bs[1..], i - 1);
    }
  }

  /** The text is two hex digits, in either case, for every byte. */
  predicate IsHexOf(s: string, bs: seq<byte>) {
    |s| == 2 * |bs| &&
    forall i :: 0 <= i < |bs| ==>
      NibbleOf(s[2 * i]) == Some(bs[i] / 16) && NibbleOf(s[2 * i + 1]) == Some(bs[i] % 16)
  }

  lemma {:induction false} HexDecodeIff(s: string, bs: seq<byte>)
    ensures HexDecode(s) == Some(bs) <==> IsHexOf(s, bs)
    decreases |s|
  {
    if bs != [] && |s| == 2 * |bs| {
      HexDecodeIff(s[2..], bs[1..]);
      ByteOfNibbles(bs[0]);
      assert bs == [bs[0]] + bs[1..];
      HexOfTail(s, bs);
    }
  }

  lemma HexOfTail(s: string, bs: seq<byte>)
    requires bs != [] && |s| == 2 * |bs|
    ensures IsHexOf(s, bs) <==>
            && NibbleOf(s[0]) == Some(bs[0] / 16) && NibbleOf(s[1]) == Some(bs[0] % 16)
            && IsHexOf(s[2..], bs[1..])
  {
    var t, cs := s[2..], bs[1..];
    assert forall i :: 0 <= i < |cs| ==>
        cs[i] == bs[i + 1] && t[2 * i] == s[2 * (i + 1)] && t[2 * i + 1] == s[2 * (i + 1) + 1];
    if IsHexOf(t, cs) && NibbleOf(s[0]) == Some(bs[0] / 16) && NibbleOf(s[1]) == Some(bs[0] % 16) {
      forall i | 0 <= i < |bs|
        ensures NibbleOf(s[2 * i]) == Some(bs[i] / 16) && NibbleOf(s[2 * i + 1]) == Some(bs[i] % 16)
      {
        if i > 0 { assert bs[i] == cs[i - 1]; }
      }
    }
  }

  lemma ByteOfNibbles(b: byte)
    ensures 16 * (b / 16) + b % 16 == b
  {
  }

  lemma HexDecodePair(hi: char, lo: char, s: string)
    requires NibbleOf(hi).Some? && NibbleOf(lo).Some? && HexDecode(s).Some?
    ensures HexDecode([hi, lo] + s) ==
            Some([(16 * NibbleOf(hi).value + NibbleOf(lo).value) as byte] + HexDecode(s).value)
  {
    var t := [hi, lo] + s;
    assert t[0] == hi && t[1] == lo && t[2..] == s;
  }

  lemma {:induction false} HexRoundTrip(bs: seq<byte>)
    ensures HexDecode(HexEncode(bs)) == Some(bs)
  {
    if bs != [] {
      HexRoundTrip(bs[1..]);
      HexDecodePair(NibbleChar(bs[0] / 16), NibbleChar(bs[0] % 16), HexEncode(bs[1..]));
      ByteOfNibbles(bs[0]);
      assert bs == [bs[0]] + bs[1..];
    }
  }

  predicate StartsWith(s: string, prefix: string) {
    |prefix| <= |s| && s[..|prefix|] == prefix
  }

  function Max(a: nat, b: nat): (m: nat)
  {
    if a >= b then a else b
  }

  lemma Assoc<T>(a: seq<T>, b: seq<T>, c: seq<T>)
    ensures (a + b) + c == a + (b + c)
  {
  }

  function Fill<T>(x: T, n: nat): (s: seq<T>)
    ensures |s| == n && forall i :: 0 <= i < n ==> s[i] == x
  {
    seq(n, _ => x)
  }

  function StripHexPrefix(s: string): (t: string)
  {
    if |s| >= 2 && s[..2] == "0x" then s[2..] else s
  }
}
