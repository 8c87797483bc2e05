/** Parsing 256-bit numbers and printing them in base 2, 8, 10 or 16 (cast/src/base.rs), and placing
    a decimal point (cast/src/lib.rs). */
module Numbers {
  import opened Bytes
  import opened Radix

  /** 2^255 and 2^256: words at or above the former are negative as signed numbers. */
  const HALF: int := Pow(2, 255)
  const WORD: int := Pow(2, 256)

  const U128_LIMIT: nat := 0x1_0000_0000_0000_0000_0000_0000_0000_0000
  const U64_LIMIT: nat := 0x1_0000_0000_0000_0000

  datatype Base = Binary | Octal | Decimal | Hexadecimal

  function RadixOf(base: Base): (r: nat)
    ensures 2 <= r <= 16
  {
    match base
    case Binary => 2
    case Octal => 8
    case Decimal => 10
    case Hexadecimal => 16
  }

  function Prefix(base: Base): (p: string)
  {
    match base
    case Binary => "0b"
    case Octal => "0o"
    case Decimal => ""
    case Hexadecimal => "0x"
  }

  /** A word, whether it was written without a minus sign, and the base to print in. */
  datatype Number = Number(word: nat, isNonnegative: bool, base: Base)

  datatype ParseError = InvalidCharacter | InvalidLength | UnsupportedRadix

  // ----- parsing -----

  function ParseDecimal(s: string): (r: Result<nat, ParseError>)
    ensures r.Ok? ==> r.value < WORD
  {
    if !IsNumeral(s, 10) then Err(InvalidCharacter)
    else if Eval(s, 10) >= WORD then Err(InvalidLength)
    else Ok(Eval(s, 10))
  }

  function ParseHex(s: string): (r: Result<nat, ParseError>)
    ensures r.Ok? ==> r.value < WORD
  {
    var digits := StripHexPrefix(s);
    if |digits| > 64 then Err(InvalidLength)
    else if !IsNumeral(digits, 16) then Err(InvalidCharacter)
    else
      HexFits(digits);
      Ok(Eval(digits, 16))
  }

  lemma HexFits(digits: string)
    requires |digits| <= 64 && IsNumeral(digits, 16)
    ensures Eval(digits, 16) < WORD
  {
    ShortEvalBound(digits, 16, 64);
    WordIsHex();
  }

  lemma WordIsHex()
    ensures Pow(16, 64) == WORD
  {
    PowSixteen(64);
  }

  function ParseRadix(s: string, base: Base): (r: Result<nat, ParseError>)
    ensures r.Ok? ==> r.value < WORD
  {
    match base
    case Decimal => ParseDecimal(s)
    case Hexadecimal => ParseHex(s)
    case _ => Err(UnsupportedRadix)
  }

  /** Whether the digits of a prefixed binary or octal number are accepted: they are read into 128
      bits, and running out of those counts as success. */
  predicate DigitsAccepted(s: string, radix: nat, value: nat)
    decreases |s|
  {
    s == "" ||
    (IsDigit(s[0], radix) &&
     (value * radix + NibbleOf(s[0]).value >= U128_LIMIT ||
      DigitsAccepted(s[1..], radix, value * radix + NibbleOf(s[0]).value)))
  }

  predicate PrefixedAccepted(s: string, radix: nat) {
    var digits := if s != "" && s[0] == '+' then s[1..] else s;
    digits != "" && DigitsAccepted(digits, radix, 0)
  }

  /** Signs are skipped, a prefix decides, and otherwise decimal is tried before hexadecimal. */
  function Detect(s: string): (r: Result<Base, ParseError>)
  {
    if s != "" && (s[0] == '+' || s[0] == '-') then Detect(s[1..])
    else if StartsWith(s, "0b") then
      if PrefixedAccepted(s[2..], 2) then Ok(Binary) else Err(InvalidCharacter)
    else if StartsWith(s, "0o") then
      if PrefixedAccepted(s[2..], 8) then Ok(Octal) else Err(InvalidCharacter)
    else if StartsWith(s, "0x") then
      match ParseHex(s) case Ok(_) => Ok(Hexadecimal) case Err(e) => Err(e)
    else if ParseDecimal(s).Ok? then Ok(Decimal)
    else
      match ParseHex(s) case Ok(_) => Ok(Hexadecimal) case Err(e) => Err(e)
  }

  function GetSign(s: string): (r: (string, bool))
  {
    if s != "" && s[0] == '+' then (s[1..], false)
    else if s != "" && s[0] == '-' then (s[1..], true)
    else (s, false)
  }

  /** The word n bits flipped, plus one, wrapping. */
  function Negate(n: nat): (m: nat)
    requires n < WORD
    ensures m < WORD
  {
    (WORD - 1 - n + 1) % WORD
  }

  function ParseInt(s: string): (r: Result<Number, ParseError>)
    ensures r.Ok? ==> r.value.word < WORD
  {
    match Detect(s)
    case Err(e) => Err(e)
    case Ok(base) =>
      var (digits, negative) := GetSign(s);
      match ParseRadix(digits, base)
      case Err(e) => Err(e)
      case Ok(n) => Ok(Number(if negative then Negate(n) else n, !negative, base))
  }

  function ParseUint(s: string): (r: Result<Number, ParseError>)
    ensures r.Ok? ==> r.value.word < WORD
  {
    match Detect(s)
    case Err(e) => Err(e)
    case Ok(base) =>
      match ParseRadix(s, base)
      case Err(e) => Err(e)
      case Ok(n) => Ok(Number(n, true, base))
  }

  // ----- printing -----

  /** Writes the digits into a buffer of 256 cells from the back. */
  method FormatRadix(n: Number) returns (s: string)
    requires n.word < WORD && (n.base.Binary? || n.base.Octal?)
    ensures s == Digits(n.word, RadixOf(n.base))
  {
    var radix := RadixOf(n.base);
    BufferSuffices(n.word, radix);
    var x: nat := n.word;
    var buf := new char[256];
    var i := 255;
    while true
      invariant 0 <= i <= 255
      invariant |Digits(x, radix)| + (255 - i) <= 256
      invariant Digits(x, radix) + buf[i + 1..] == Digits(n.word, radix)
      decreases x
    {
      PrintStep(x, radix, buf[i + 1..]);
      ghost var tail := buf[i + 1..];
      buf[i] := NibbleChar(x % radix);
      assert buf[i..] == [buf[i]] + tail;
      x := x / radix;
      if x == 0 { break; }
      i := i - 1;
    }
    s := buf[i..];
  }

  lemma PrintStep(x: nat, radix: nat, tail: string)
    requires 2 <= radix <= 16
    ensures x / radix == 0 ==> Digits(x, radix) + tail == [NibbleChar(x % radix)] + tail
    ensures x / radix != 0 ==>
              && x / radix < x && |Digits(x, radix)| == |Digits(x / radix, radix)| + 1
              && Digits(x, radix) + tail == Digits(x / radix, radix) + ([NibbleChar(x % radix)] + tail)
  {
    DigitsStep(x, radix);
    if x / radix != 0 {
      assert (Digits(x / radix, radix) + [NibbleChar(x % radix)]) + tail ==
             Digits(x / radix, radix) + ([NibbleChar(x % radix)] + tail);
    }
  }

  lemma BufferSuffices(word: nat, radix: nat)
    requires word < WORD && 2 <= radix <= 16
    ensures |Digits(word, radix)| <= 256
  {
    PowMonotone(2, radix, 256);
    DigitsLength(word, radix, 256);
  }

  /** Digits only: no sign, no prefix. A decimal negative is printed by its magnitude as a signed
      word. */
  function Format(n: Number): (s: string)
    requires n.word < WORD
  {
    if n.base.Decimal? && !n.isNonnegative then
      Digits(if n.word >= HALF then WORD - n.word else n.word, 10)
    else Digits(n.word, RadixOf(n.base))
  }

  /** Debug output; `alternate` adds the base's prefix. Only decimal shows a sign. */
  function Show(n: Number, alternate: bool): (s: string)
    requires n.word < WORD
  {
    var prefix := if alternate then Prefix(n.base) else "";
    if n.word == 0 then prefix + "0"
    else (if n.base.Decimal? && !n.isNonnegative then "-" else "") + prefix + Format(n)
  }

  function Display(n: Number): (s: string)
    requires n.word < WORD
  {
    Show(n.(base := Decimal), true)
  }

  /** Prefix and 64 hex digits, zero-filled. */
  function FullHex(n: Number): (s: string)
    requires n.word < WORD
  {
    "0x" + Padded(n.word, 16, 64)
  }

  // ----- decimal text -----

  /** The usual decimal text of an integer. */
  function Text(v: int): (s: string)
  {
    if v >= 0 then Digits(v, 10) else "-" + Digits(-v, 10)
  }

  lemma WordIsTwoHalves()
    ensures WORD == 2 * HALF && HALF >= 1
  {
  }

  lemma DecimalIsDetected(n: nat)
    ensures var s := Digits(n, 10);
            && IsNumeral(s, 10) && Eval(s, 10) == n && s[0] != '+' && s[0] != '-'
            && (n < WORD ==> Detect(s) == Ok(Decimal) && ParseDecimal(s) == Ok(n))
  {
    DigitsEvaluate(n, 10);
    NumeralHasNoPrefix(Digits(n, 10));
  }

  lemma NumeralHasNoPrefix(s: string)
    requires IsNumeral(s, 10) && s != ""
    ensures s[0] != '+' && s[0] != '-'
    ensures !StartsWith(s, "0b") && !StartsWith(s, "0o") && !StartsWith(s, "0x")
  {
    assert IsDigit(s[0], 10);
    if |s| >= 2 {
      assert IsDigit(s[1], 10);
      assert s[..2][1] == s[1];
    }
  }

  lemma ModWord(v: int)
    requires -WORD < v < WORD
    ensures v % WORD == if v >= 0 then v else v + WORD
  {
    if v < 0 {
      OnlyZeroMultiple(v / WORD + 1, WORD, v + WORD - v % WORD);
    } else {
      OnlyZeroMultiple(v / WORD, WORD, v - v % WORD);
    }
  }

  lemma NegateIsMod(n: nat)
    requires 0 <= n < WORD
    ensures Negate(n) == (0 - n) % WORD
    ensures n > 0 ==> Negate(n) == WORD - n
  {
    if n > 0 { ModWord(WORD - n); }
    ModWord(0 - n);
  }

  /** The stored word of a parsed integer is the integer modulo 2^256. */
  lemma ParsedWord(v: int)
    requires -WORD < v < WORD
    ensures ParseInt(Text(v)) == Ok(Number(v % WORD, v >= 0, Decimal))
  {
    if v >= 0 {
      DecimalIsDetected(v);
      ModWord(v);
    } else {
      DecimalIsDetected(-v);
      NegateIsMod(-v);
      assert Text(v)[1..] == Digits(-v, 10);
    }
  }

  lemma DisplayNegative(w: nat)
    requires 0 < w < WORD
    ensures Display(Number(w, false, Decimal)) == "-" + Digits(if w >= HALF then WORD - w else w, 10)
  {
    assert "-" + "" == "-";
  }

  lemma MinusInjective(m: nat, n: nat)
    ensures "-" + Digits(m, 10) == "-" + Digits(n, 10) <==> m == n
  {
    SameTail(Digits(m, 10), Digits(n, 10));
    DigitsEqualIff(m, n, 10);
  }

  lemma SameTail(a: string, b: string)
    ensures "-" + a == "-" + b <==> a == b
  {
    assert ("-" + a)[1..] == a && ("-" + b)[1..] == b;
  }

  lemma DisplayNonnegative(v: nat)
    requires v < WORD
    ensures Display(Number(v, true, Decimal)) == Digits(v, 10)
  {
    assert "" + "0" == "0" && "" + "" == "";
    assert "" + Digits(v, 10) == Digits(v, 10);
    assert Digits(0, 10) == "0";
  }

  lemma DisplayOfNegative(v: int)
    requires -WORD < v < 0
    ensures Display(Number(v + WORD, false, Decimal)) == Text(v) <==> -HALF <= v
  {
    var w := v + WORD;
    WordIsTwoHalves();
    MagnitudeIff(v, HALF, WORD);
    DisplayNegative(w);
    var magnitude: nat := if w >= HALF then WORD - w else w;
    MinusInjective(magnitude, -v);
  }

  lemma MagnitudeIff(v: int, half: int, word: int)
    requires word == 2 * half && -word < v < 0
    ensures var w := v + word;
            (if w >= half then word - w else w) == -v <==> -half <= v
  {
  }

  lemma DisplayOfParsed(v: int)
    requires -WORD < v < WORD
    ensures ParseInt(Text(v)).Ok?
    ensures Display(ParseInt(Text(v)).value) == Text(v) <==> -HALF <= v
  {
    ParsedWord(v);
    ModWord(v);
    WordIsTwoHalves();
    if v < 0 {
      DisplayOfNegative(v);
    } else {
      DisplayNonnegative(v);
    }
  }

  /** A decimal text too large for a word is not taken for hexadecimal either: it is too long. */
  lemma TooLargeIsRejected(n: nat)
    requires n >= WORD
    ensures Detect(Digits(n, 10)).Err?
  {
    DecimalIsDetected(n);
    var s := Digits(n, 10);
    if |s| <= 64 {
      ShortEvalBound(s, 10, 64);
      PowMonotone(10, 16, 64);
      WordIsHex();
      assert false;
    }
    NumeralHasNoPrefix(s);
  }

  /** For every integer: its text parses exactly when its magnitude fits a word, and displaying
      what was parsed gives the text back exactly for the integers from -2^255 below 2^256. */
  lemma DisplayRoundTripIff(v: int)
    ensures ParseInt(Text(v)).Ok? <==> -WORD < v < WORD
    ensures ParseInt(Text(v)).Ok? && Display(ParseInt(Text(v)).value) == Text(v) <==> -HALF <= v < WORD
  {
    WordIsTwoHalves();
    if -WORD < v < WORD {
      DisplayOfParsed(v);
    } else {
      TooLargeTextIsRejected(v);
    }
  }

  lemma TooLargeTextIsRejected(v: int)
    requires v <= -WORD || WORD <= v
    ensures ParseInt(Text(v)).Err?
  {
    if v >= 0 {
      TooLargeIsRejected(v);
    } else {
      TooLargeIsRejected(-v);
      assert Text(v)[1..] == Digits(-v, 10);
    }
  }

  lemma SignIsSkipped(sign: char, t: string)
    requires sign == '+' || sign == '-'
    requires t != "" ==> t[0] != '+' && t[0] != '-'
    ensures Detect([sign] + t) == Detect(t)
    ensures GetSign([sign] + t) == (t, sign == '-') && GetSign(t) == (t, false)
  {
    assert ([sign] + t)[1..] == t;
  }

  /** A plus sign in front of an unsigned text changes nothing; a minus sign gives the negative, modulo
      2^256. */
  lemma SignIsRead(t: string)
    requires t != "" ==> t[0] != '+' && t[0] != '-'
    ensures ParseInt("+" + t) == ParseInt(t)
    ensures ParseInt("-" + t) ==
            match ParseInt(t)
            case Err(e) => Err(e)
            case Ok(n) => Ok(Number((0 - n.word) % WORD, false, n.base))
  {
    SignIsSkipped('+', t);
    SignIsSkipped('-', t);
    if ParseInt(t).Ok? { NegateIsMod(ParseInt(t).value.word); }
  }

  lemma HexPrefixDecides(s: string)
    ensures StripHexPrefix("0x" + s) == s && GetSign("0x" + s) == ("0x" + s, false)
    ensures Detect("0x" + s) == match ParseHex("0x" + s) case Ok(_) => Ok(Hexadecimal) case Err(e) => Err(e)
  {
    var t := "0x" + s;
    assert t[..2] == "0x" && t[2..] == s && t[0] == '0';
  }

  /** Prefixed hex text parses exactly when it has at most 64 digits, all of them hex, to the value of
      the digits. */
  lemma HexTextIff(s: string)
    ensures ParseInt("0x" + s) ==
            if |s| > 64 then Err(InvalidLength)
            else if !IsNumeral(s, 16) then Err(InvalidCharacter)
            else Ok(Number(Eval(s, 16), true, Hexadecimal))
    ensures ParseUint("0x" + s) == ParseInt("0x" + s)
  {
    HexPrefixDecides(s);
  }

  /** Text that is hex but not decimal is read as hex without a prefix too, unless it starts like a
      binary number. */
  lemma BareHexText(s: string)
    requires |s| <= 64 && IsNumeral(s, 16) && !IsNumeral(s, 10) && !StartsWith(s, "0b")
    ensures ParseInt(s) == Ok(Number(Eval(s, 16), true, Hexadecimal))
  {
    assert s != "" && IsDigit(s[0], 16);
    if |s| >= 2 {
      assert IsDigit(s[1], 16) && s[..2][1] == s[1];
    }
  }

  /** The first n characters are digits whose value does not fit 128 bits. */
  predicate Overruns(s: string, radix: nat, n: int)
    requires radix >= 2
  {
    0 < n <= |s| && IsNumeral(s[..n], radix) && Eval(s[..n], radix) >= U128_LIMIT
  }

  lemma PrefixGrows(s: string, radix: nat, i: nat)
    requires i < |s| && IsNumeral(s[..i], radix)
    ensures IsNumeral(s[..i + 1], radix) <==> IsDigit(s[i], radix)
    ensures IsDigit(s[i], radix) ==> Eval(s[..i + 1], radix) == Eval(s[..i], radix) * radix + NibbleOf(s[i]).value
  {
    assert s[..i + 1] == s[..i] + [s[i]];
    if IsDigit(s[i], radix) { EvalSnoc(s[..i], s[i], radix); }
    assert s[..i + 1][i] == s[i];
  }

  /** Digits are accepted exactly if all are, or if those in front of the first that is not run out of
      128 bits. */
  lemma {:induction false} DigitsAcceptedIff(s: string, radix: nat, i: nat)
    requires radix >= 2 && i <= |s| && IsNumeral(s[..i], radix) && Eval(s[..i], radix) < U128_LIMIT
    ensures DigitsAccepted(s[i..], radix, Eval(s[..i], radix)) <==>
            IsNumeral(s, radix) || exists n :: i < n && Overruns(s, radix, n)
    decreases |s| - i
  {
    if i == |s| {
      assert s[..i] == s;
    } else {
      PrefixGrows(s, radix, i);
      assert s[i..][1..] == s[i + 1..];
      if !IsDigit(s[i], radix) {
        assert forall n :: i < n <= |s| ==> s[..n][i] == s[i];
      } else if Eval(s[..i + 1], radix) >= U128_LIMIT {
        assert Overruns(s, radix, i + 1);
      } else {
        DigitsAcceptedIff(s, radix, i + 1);
        assert !Overruns(s, radix, i + 1);
      }
    }
  }

  lemma PrefixedAcceptedIff(s: string, radix: nat)
    requires radix >= 2
    ensures var digits := if s != "" && s[0] == '+' then s[1..] else s;
            PrefixedAccepted(s, radix) <==>
            digits != "" && (IsNumeral(digits, radix) || exists n :: Overruns(digits, radix, n))
  {
    var digits := if s != "" && s[0] == '+' then s[1..] else s;
    assert digits[0..] == digits && digits[..0] == "";
    DigitsAcceptedIff(digits, radix, 0);
  }

  /** Binary and octal text never parses: digits that are accepted end in an unsupported radix. */
  lemma PrefixedTextIsRefused(s: string)
    ensures ParseInt("0b" + s) == Err(if PrefixedAccepted(s, 2) then UnsupportedRadix else InvalidCharacter)
    ensures ParseInt("0o" + s) == Err(if PrefixedAccepted(s, 8) then UnsupportedRadix else InvalidCharacter)
  {
    assert ("0b" + s)[..2] == "0b" && ("0b" + s)[2..] == s;
    assert ("0o" + s)[..2] == "0o" && ("0o" + s)[2..] == s && ("0o" + s)[1] == 'o';
  }

  /** In every base but signed decimal, the alternate form is the standard prefix and the one canonical
      numeral of the word, and the plain form is the numeral. */
  lemma AlternateForm(n: Number)
    requires n.word < WORD
    ensures var s := Show(n.(base := Hexadecimal), true);
            && StartsWith(s, "0x") && IsCanonical(s[2..], 16) && Eval(s[2..], 16) == n.word
            && Show(n.(base := Hexadecimal), false) == s[2..]
    ensures var s := Show(n.(base := Octal), true);
            && StartsWith(s, "0o") && IsCanonical(s[2..], 8) && Eval(s[2..], 8) == n.word
            && Show(n.(base := Octal), false) == s[2..]
    ensures var s := Show(n.(base := Binary), true);
            && StartsWith(s, "0b") && IsCanonical(s[2..], 2) && Eval(s[2..], 2) == n.word
            && Show(n.(base := Binary), false) == s[2..]
  {
    AlternateDigits(n.(base := Hexadecimal));
    AlternateDigits(n.(base := Octal));
    AlternateDigits(n.(base := Binary));
  }

  lemma AlternateDigits(n: Number)
    requires n.word < WORD && !n.base.Decimal?
    ensures var s := Show(n, true);
            && StartsWith(s, Prefix(n.base)) && |Prefix(n.base)| == 2
            && IsCanonical(s[2..], RadixOf(n.base)) && Eval(s[2..], RadixOf(n.base)) == n.word
            && Show(n, false) == s[2..]
  {
    var digits := Digits(n.word, RadixOf(n.base));
    DigitsEvaluate(n.word, RadixOf(n.base));
    NibbleCharIs(0);
    assert Show(n, true) == Prefix(n.base) + digits;
    assert (Prefix(n.base) + digits)[..2] == Prefix(n.base) && (Prefix(n.base) + digits)[2..] == digits;
    assert Show(n, false) == digits;
  }

  /** A word's 64-digit hex text parses to that word again, whichever way the number was read. */
  lemma FullHexRoundTrip(n: Number)
    requires n.word < WORD
    ensures |FullHex(n)| == 66
    ensures ParseInt(FullHex(n)) == Ok(Number(n.word, true, Hexadecimal))
    ensures ParseUint(FullHex(n)) == Ok(Number(n.word, true, Hexadecimal))
  {
    WordIsHex();
    PaddedEvaluates(n.word, 16, 64);
    HexTextIff(Padded(n.word, 16, 64));
  }

  /** In every base but signed decimal, printing loses nothing: the digits are the one canonical
      numeral of the word. */
  lemma FormatDenotesWord(n: Number, s: string)
    requires n.word < WORD && (n.base.Decimal? ==> n.isNonnegative)
    ensures Format(n) == s <==> IsCanonical(s, RadixOf(n.base)) && Eval(s, RadixOf(n.base)) == n.word
  {
    DigitsEvaluate(n.word, RadixOf(n.base));
    if IsCanonical(s, RadixOf(n.base)) && Eval(s, RadixOf(n.base)) == n.word {
      CanonicalIsUnique(s, Digits(n.word, RadixOf(n.base)), RadixOf(n.base));
    }
  }

  // ----- fixed point -----

  /** Puts a point in front of the last d digits, padding with zeros where there are too few. */
  function PlacePoint(digits: string, d: nat): (s: string)
  {
    if d >= |digits| then "0." + Zeros(d - |digits|) + digits
    else digits[..|digits| - d] + "." + digits[|digits| - d..]
  }

  function FixedText(n: Number, d: nat): (s: string)
    requires n.word < WORD
  {
    var shown := Display(n);
    var digits := if StartsWith(shown, "-") then shown[1..] else shown;
    (if n.isNonnegative then "" else "-") + PlacePoint(digits, d)
  }

  function ToFixedPoint(value: string, decimals: string): (r: Result<string, ParseError>)
  {
    match ParseInt(value)
    case Err(e) => Err(e)
    case Ok(n) =>
      match ParseUint(decimals)
      case Err(e) => Err(e)
      case Ok(d) => Ok(FixedText(n, d.word % U64_LIMIT))
  }

  predicate IsFixed(s: string, whole: string, fraction: string, m: nat, d: nat) {
    && s == whole + "." + fraction && whole != "" && |fraction| == d
    && IsNumeral(whole, 10) && IsNumeral(fraction, 10)
    && Eval(whole, 10) * Pow(10, d) + Eval(fraction, 10) == m
    && (|whole| > 1 ==> whole[0] != '0')
  }

  /** The text denotes m / 10^d: d digits behind the point, at least one before it, and together
      they are m. */
  ghost predicate DenotesFixed(s: string, m: nat, d: nat) {
    exists whole, fraction :: IsFixed(s, whole, fraction, m, d)
  }

  lemma ZeroBeforePoint(fraction: string)
    requires IsNumeral(fraction, 10)
    ensures IsFixed("0" + "." + fraction, "0", fraction, Eval(fraction, 10), |fraction|)
  {
    ZerosEvaluate(1, 10);
    assert Zeros(1) == "0";
  }

  lemma PaddedDenotes(m: nat, d: nat)
    requires d >= |Digits(m, 10)|
    ensures DenotesFixed(PlacePoint(Digits(m, 10), d), m, d)
  {
    DigitsEvaluate(m, 10);
    var digits := Digits(m, 10);
    var fraction := Zeros(d - |digits|) + digits;
    PaddingEvaluates(d - |digits|, digits, 10);
    ZeroBeforePoint(fraction);
    assert PlacePoint(digits, d) == "0" + "." + fraction;
  }

  lemma SplitEvaluates(digits: string, d: nat)
    requires IsNumeral(digits, 10) && d <= |digits|
    ensures var whole, fraction := digits[..|digits| - d], digits[|digits| - d..];
            && IsNumeral(whole, 10) && IsNumeral(fraction, 10)
            && Eval(whole, 10) * Pow(10, d) + Eval(fraction, 10) == Eval(digits, 10)
  {
    var whole, fraction := digits[..|digits| - d], digits[|digits| - d..];
    assert whole + fraction == digits;
    EvalConcat(whole, fraction, 10);
  }

  lemma SplitDenotes(m: nat, d: nat)
    requires d < |Digits(m, 10)|
    ensures DenotesFixed(PlacePoint(Digits(m, 10), d), m, d)
  {
    DigitsEvaluate(m, 10);
    var digits := Digits(m, 10);
    SplitEvaluates(digits, d);
    assert IsFixed(PlacePoint(digits, d), digits[..|digits| - d], digits[|digits| - d..], m, d);
  }

  lemma PlacePointDenotes(m: nat, d: nat)
    ensures DenotesFixed(PlacePoint(Digits(m, 10), d), m, d)
  {
    if d >= |Digits(m, 10)| { PaddedDenotes(m, d); } else { SplitDenotes(m, d); }
  }

  /** The point stands in one place only. */
  lemma SamePoint(s: string, whole: string, fraction: string, whole': string, fraction': string)
    requires s == whole + "." + fraction && s == whole' + "." + fraction'
    requires IsNumeral(whole, 10) && IsNumeral(fraction, 10) && IsNumeral(whole', 10) && IsNumeral(fraction', 10)
    ensures whole == whole' && fraction == fraction'
  {
    assert forall i :: 0 <= i < |whole| ==> IsDigit(s[i], 10);
    assert forall i :: 0 <= i < |whole'| ==> IsDigit(s[i], 10);
    assert s[|whole|] == '.' && s[|whole'|] == '.' && !IsDigit('.', 10);
    assert |whole| == |whole'|;
    assert whole == s[..|whole|] && whole' == s[..|whole'|];
    assert fraction == s[|whole| + 1..] && fraction' == s[|whole'| + 1..];
  }

  /** A fixed-point text denotes one number with one count of decimals. */
  lemma DenotesOne(s: string, m: nat, d: nat, m': nat, d': nat)
    requires DenotesFixed(s, m, d) && DenotesFixed(s, m', d')
    ensures m == m' && d == d'
  {
    var whole, fraction :| IsFixed(s, whole, fraction, m, d);
    var whole', fraction' :| IsFixed(s, whole', fraction', m', d');
    SamePoint(s, whole, fraction, whole', fraction');
  }

  /** The magnitude that is printed for an integer: its own down to -2^255, below that another. */
  function ShownMagnitude(v: int): (m: nat)
    requires -WORD < v < WORD
    ensures m == (if v < 0 then -v else v) <==> -HALF <= v
  {
    WordIsTwoHalves();
    if v >= 0 then v else if v >= -HALF then -v else v + WORD
  }

  lemma ShownDigits(v: int)
    requires -WORD < v < WORD
    ensures ParseInt(Text(v)).Ok? && ParseInt(Text(v)).value.isNonnegative == (v >= 0)
    ensures Display(ParseInt(Text(v)).value) == (if v < 0 then "-" else "") + Digits(ShownMagnitude(v), 10)
  {
    ParsedWord(v);
    ModWord(v);
    WordIsTwoHalves();
    if v < 0 {
      DisplayNegative(v + WORD);
    } else {
      DisplayNonnegative(v);
      assert "" + Digits(v, 10) == Digits(v, 10);
    }
  }

  lemma MinusIsStripped(negative: bool, digits: string)
    requires digits != "" && digits[0] != '-'
    ensures var shown := (if negative then "-" else "") + digits;
            (if StartsWith(shown, "-") then shown[1..] else shown) == digits
  {
    if negative {
      assert ("-" + digits)[..1] == "-" && ("-" + digits)[1..] == digits;
    } else {
      assert "" + digits == digits;
      assert digits[..1] == [digits[0]];
    }
  }

  lemma ParsedCount(n: nat)
    requires n < WORD
    ensures ParseUint(Text(n)) == Ok(Number(n, true, Decimal))
  {
    DecimalIsDetected(n);
  }

  lemma FixedPointText(v: int, decimals: nat)
    requires -WORD < v < WORD && decimals < WORD
    ensures ToFixedPoint(Text(v), Text(decimals)) ==
            Ok((if v < 0 then "-" else "") + PlacePoint(Digits(ShownMagnitude(v), 10), decimals % U64_LIMIT))
  {
    ShownDigits(v);
    ParsedCount(decimals);
    DecimalIsDetected(ShownMagnitude(v));
    MinusIsStripped(v < 0, Digits(ShownMagnitude(v), 10));
  }

  lemma DenotesOnlyIff(s: string, m: nat, d: nat, m': nat, d': nat)
    requires DenotesFixed(s, m, d)
    ensures DenotesFixed(s, m', d') <==> m == m' && d == d'
  {
    if DenotesFixed(s, m', d') { DenotesOne(s, m, d, m', d'); }
  }

  lemma LowBitsIff(n: nat)
    ensures n % U64_LIMIT == n <==> n < U64_LIMIT
  {
  }

  lemma PlacedDenotesIff(v: int, decimals: nat)
    requires -WORD < v < WORD
    ensures DenotesFixed(PlacePoint(Digits(ShownMagnitude(v), 10), decimals % U64_LIMIT),
                         if v < 0 then -v else v, decimals)
            <==> -HALF <= v && decimals < U64_LIMIT
  {
    var m, d := ShownMagnitude(v), decimals % U64_LIMIT;
    var magnitude := if v < 0 then -v else v;
    PlacePointDenotes(m, d);
    var s := PlacePoint(Digits(m, 10), d);
    DenotesOnlyIff(s, m, d, magnitude, decimals);
    LowBitsIff(decimals);
    assert m == magnitude <==> -HALF <= v;
    assert DenotesFixed(s, magnitude, decimals) <==> -HALF <= v && decimals < U64_LIMIT;
  }

  /** The command succeeds exactly when the integer and the decimals count both fit a word. */
  lemma FixedPointAcceptsIff(v: int, decimals: nat)
    ensures ToFixedPoint(Text(v), Text(decimals)).Ok? <==> -WORD < v < WORD && decimals < WORD
  {
    if !(-WORD < v < WORD) {
      TooLargeTextIsRejected(v);
    } else if decimals >= WORD {
      TooLargeIsRejected(decimals);
    } else {
      FixedPointText(v, decimals);
    }
  }

  /** The text has the integer's sign, and denotes its magnitude divided by 10^decimals exactly
      when the integer is not below -2^255 and the decimals count fits 64 bits. */
  lemma FixedPointDenotesIff(v: int, decimals: nat)
    requires ToFixedPoint(Text(v), Text(decimals)).Ok?
    ensures var s := ToFixedPoint(Text(v), Text(decimals)).value;
            var sign := if v < 0 then "-" else "";
            && StartsWith(s, sign)
            && (DenotesFixed(s[|sign|..], if v < 0 then -v else v, decimals) <==>
                -HALF <= v && decimals < U64_LIMIT)
  {
    FixedPointAcceptsIff(v, decimals);
    FixedPointText(v, decimals);
    PlacedDenotesIff(v, decimals);
    var sign, s := if v < 0 then "-" else "", PlacePoint(Digits(ShownMagnitude(v), 10), decimals % U64_LIMIT);
    assert (sign + s)[..|sign|] == sign && (sign + s)[|sign|..] == s;
  }
}
