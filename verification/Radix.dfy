/** Numerals in a radix from 2 to 16, most significant digit first. */
module Radix {
  import opened Bytes

  function Pow(b: nat, k: nat): (p: nat)
    requires b >= 1
    ensures p >= 1
  {
    if k == 0 then 1 else b * Pow(b, k - 1)
  }

  lemma {:induction false} PowGrows(b: nat, j: nat, k: nat)
    requires b >= 1 && j <= k
    ensures Pow(b, j) <= Pow(b, k)
    decreases k
  {
    if j < k {
      PowGrows(b, j, k - 1);
      MulOrder(1, b, Pow(b, k - 1));
    }
  }

  predicate IsDigit(c: char, radix: nat) {
    NibbleOf(c).Some? && NibbleOf(c).value < radix
  }

  predicate IsNumeral(s: string, radix: nat) {
    forall i :: 0 <= i < |s| ==> IsDigit(s[i], radix)
  }

  function Eval(s: string, radix: nat): (n: nat)
    requires IsNumeral(s, radix)
  {
    if s == "" then 0
    else Eval(s[..|s| - 1], radix) * radix + NibbleOf(s[|s| - 1]).value
  }

  /** The numeral of n without leading zeros, in lower case. */
  function Digits(n: nat, radix: nat): (s: string)
    requires 2 <= radix <= 16
    ensures s != ""
    decreases n
  {
    if n < radix then [NibbleChar(n)]
    else
      DivShrinks(n, radix);
      Digits(n / radix, radix) + [NibbleChar(n % radix)]
  }

  lemma DivMod(n: nat, radix: nat)
    requires radix >= 1
    ensures n == n / radix * radix + n % radix && 0 <= n % radix < radix
  {
  }

  lemma QuotientShrinks(n: nat, q: nat, r: nat, radix: nat)
    requires 2 <= radix <= n && n == q * radix + r && r < radix
    ensures 0 < q < n
  {
    MulOrder(2, radix, q);
  }

  lemma DivShrinks(n: nat, radix: nat)
    requires 2 <= radix <= n
    ensures 0 < n / radix < n
    ensures n == n / radix * radix + n % radix
  {
    DivMod(n, radix);
    QuotientShrinks(n, n / radix, n % radix, radix);
  }

  lemma OnlyZeroMultiple(d: int, radix: nat, e: int)
    requires d * radix == e && -(radix as int) < e < radix
    ensures d == 0
  {
  }

  lemma DivModUnique(q: nat, r: nat, radix: nat)
    requires r < radix
    ensures (q * radix + r) / radix == q && (q * radix + r) % radix == r
  {
    var n := q * radix + r;
    OnlyZeroMultiple(n / radix - q, radix, r - n % radix);
  }

  lemma DivDiv(n: nat, a: nat, b: nat)
    requires a >= 1 && b >= 1
    ensures a * b >= 1 && n / a / b == n / (a * b)
  {
    var q, r := n / a, n % a;
    var s, t := q / b, q % b;
    DivMod(n, a);
    DivMod(q, b);
    MulOrder(t + 1, b, a);
    MulSpread(s, b, t, a);
    assert n == s * (a * b) + (t * a + r);
    DivModUnique(s, t * a + r, a * b);
  }

  lemma MulOrder(a: int, b: int, c: nat)
    requires a <= b
    ensures a * c <= b * c
  {
  }

  lemma MulSpread(a: int, b: int, c: int, d: int)
    ensures (a * b + c) * d == a * (d * b) + c * d
  {
  }

  /** Not a leading zero, unless it is the only digit; letters in lower case. */
  predicate IsCanonical(s: string, radix: nat) {
    && s != "" && IsNumeral(s, radix) && (|s| > 1 ==> s[0] != '0')
    && forall i :: 0 <= i < |s| ==> !('A' <= s[i] <= 'F')
  }

  lemma {:induction false} DigitsEvaluate(n: nat, radix: nat)
    requires 2 <= radix <= 16
    ensures IsCanonical(Digits(n, radix), radix)
    ensures Eval(Digits(n, radix), radix) == n
    ensures n > 0 ==> Digits(n, radix)[0] != '0'
    decreases n
  {
    var s := Digits(n, radix);
    if n < radix {
      assert Eval(s[..0], radix) == 0;
    } else {
      DivShrinks(n, radix);
      DigitsEvaluate(n / radix, radix);
      assert s[..|s| - 1] == Digits(n / radix, radix);
    }
  }

  /** Evaluation, one digit appended. */
  lemma EvalSnoc(init: string, c: char, radix: nat)
    requires IsNumeral(init, radix) && IsDigit(c, radix)
    ensures IsNumeral(init + [c], radix)
    ensures Eval(init + [c], radix) == Eval(init, radix) * radix + NibbleOf(c).value
  {
    assert (init + [c])[..|init|] == init;
  }

  lemma SplitLast(s: string, radix: nat) returns (init: string, c: char)
    requires s != "" && IsNumeral(s, radix)
    ensures s == init + [c] && IsNumeral(init, radix) && IsDigit(c, radix)
    ensures Eval(s, radix) == Eval(init, radix) * radix + NibbleOf(c).value
  {
    init, c := s[..|s| - 1], s[|s| - 1];
    EvalSnoc(init, c, radix);
    assert s == init + [c];
  }

  lemma {:induction false} EvalPositive(s: string, radix: nat)
    requires IsNumeral(s, radix) && s != "" && s[0] != '0' && radix >= 1
    ensures Eval(s, radix) > 0
    decreases |s|
  {
    var init, c := SplitLast(s, radix);
    if init != "" {
      EvalPositive(init, radix);
      MulOrder(1, Eval(init, radix), radix);
    }
  }

  lemma DigitsEqualIff(m: nat, n: nat, radix: nat)
    requires 2 <= radix <= 16
    ensures Digits(m, radix) == Digits(n, radix) <==> m == n
  {
    DigitsEvaluate(m, radix);
    DigitsEvaluate(n, radix);
  }

  /** Taking off the last digit, as a printing loop does. */
  lemma DigitsStep(x: nat, radix: nat)
    requires 2 <= radix <= 16
    ensures x / radix == 0 ==> Digits(x, radix) == [NibbleChar(x % radix)]
    ensures x / radix != 0 ==> x / radix < x && Digits(x, radix) == Digits(x / radix, radix) + [NibbleChar(x % radix)]
  {
    if x >= radix {
      DivShrinks(x, radix);
    } else {
      DivModUnique(0, x, radix);
    }
  }

  lemma LowerDigit(c: char)
    requires NibbleOf(c).Some? && !('A' <= c <= 'F')
    ensures NibbleChar(NibbleOf(c).value) == c
  {
    assert '0' <= c <= '9' || 'a' <= c <= 'f';
  }

  lemma SameQuotientAndDigit(q: nat, d: nat, q': nat, d': nat, radix: nat)
    requires d < radix && d' < radix && q * radix + d == q' * radix + d'
    ensures q == q' && d == d'
  {
    OnlyZeroMultiple(q - q', radix, d' - d);
  }

  /** No two canonical numerals have the same value. */
  lemma {:induction false} CanonicalIsUnique(s: string, t: string, radix: nat)
    requires 2 <= radix <= 16 && IsCanonical(s, radix) && IsCanonical(t, radix)
    requires Eval(s, radix) == Eval(t, radix)
    ensures s == t
    decreases |s|
  {
    var s', c := SplitLast(s, radix);
    var t', d := SplitLast(t, radix);
    assert s[|s| - 1] == c && t[|t| - 1] == d;
    SameQuotientAndDigit(Eval(s', radix), NibbleOf(c).value, Eval(t', radix), NibbleOf(d).value, radix);
    LowerDigit(c);
    LowerDigit(d);
    if s' != "" {
      CanonicalInit(s, s', c, radix);
      EvalPositive(s', radix);
    }
    if t' != "" {
      CanonicalInit(t, t', d, radix);
      EvalPositive(t', radix);
    }
    if s' != "" && t' != "" { CanonicalIsUnique(s', t', radix); }
  }

  lemma CanonicalInit(s: string, init: string, c: char, radix: nat)
    requires IsCanonical(s, radix) && s == init + [c] && init != ""
    ensures IsCanonical(init, radix) && init[0] != '0'
  {
    assert forall i :: 0 <= i < |init| ==> init[i] == s[i];
  }

  lemma {:induction false} DigitsLength(n: nat, radix: nat, k: nat)
    requires 2 <= radix <= 16 && 1 <= k && n < Pow(radix, k)
    ensures |Digits(n, radix)| <= k
    decreases n
  {
    if n >= radix {
      DivShrinks(n, radix);
      if k > 1 {
        QuotientBound(n / radix, n % radix, radix, Pow(radix, k - 1));
        DigitsLength(n / radix, radix, k - 1);
      }
    }
  }

  lemma QuotientBound(q: nat, r: nat, radix: nat, p: nat)
    requires q * radix + r < radix * p
    ensures q < p
  {
    if q >= p { MulOrder(p, q, radix); }
  }

  lemma {:induction false} EvalBound(s: string, radix: nat)
    requires radix >= 1 && IsNumeral(s, radix)
    ensures Eval(s, radix) < Pow(radix, |s|)
    decreases |s|
  {
    if s != "" {
      var init, c := SplitLast(s, radix);
      EvalBound(init, radix);
      HornerBound(Eval(init, radix), Pow(radix, |init|), radix, NibbleOf(c).value);
    }
  }

  lemma HornerBound(e: nat, p: nat, radix: nat, d: nat)
    requires e < p && d < radix
    ensures e * radix + d < radix * p
  {
    MulOrder(e + 1, p, radix);
  }

  lemma {:induction false} EvalConcat(a: string, b: string, radix: nat)
    requires radix >= 1 && IsNumeral(a, radix) && IsNumeral(b, radix)
    ensures IsNumeral(a + b, radix)
    ensures Eval(a + b, radix) == Eval(a, radix) * Pow(radix, |b|) + Eval(b, radix)
    decreases |b|
  {
    if b == "" {
      assert a + b == a;
    } else {
      var init := b[..|b| - 1];
      EvalConcat(a, init, radix);
      assert (a + b)[..|a + b| - 1] == a + init;
      MulSpread(Eval(a, radix), Pow(radix, |init|), Eval(init, radix), radix);
    }
  }

  function Zeros(k: nat): (s: string)
    ensures |s| == k && forall i :: 0 <= i < k ==> s[i] == '0'
  {
    Fill('0', k)
  }

  lemma {:induction false} ZerosEvaluate(k: nat, radix: nat)
    requires radix >= 1
    ensures IsNumeral(Zeros(k), radix) && Eval(Zeros(k), radix) == 0
  {
    if k > 0 {
      ZerosEvaluate(k - 1, radix);
      assert Zeros(k)[..k - 1] == Zeros(k - 1);
    }
  }

  /** Leading zeros do not change the value. */
  lemma PaddingEvaluates(k: nat, s: string, radix: nat)
    requires radix >= 1 && IsNumeral(s, radix)
    ensures IsNumeral(Zeros(k) + s, radix) && Eval(Zeros(k) + s, radix) == Eval(s, radix)
  {
    ZerosEvaluate(k, radix);
    EvalConcat(Zeros(k), s, radix);
  }

  /** Zero-filled to at least the given width. */
  function Padded(n: nat, radix: nat, width: nat): (s: string)
    requires 2 <= radix <= 16
  {
    var digits := Digits(n, radix);
    Zeros(if |digits| <= width then width - |digits| else 0) + digits
  }

  lemma PaddedEvaluates(n: nat, radix: nat, width: nat)
    requires 2 <= radix <= 16 && 1 <= width && n < Pow(radix, width)
    ensures var s := Padded(n, radix, width);
            |s| == width && IsNumeral(s, radix) && Eval(s, radix) == n
  {
    DigitsLength(n, radix, width);
    DigitsEvaluate(n, radix);
    PaddingEvaluates(width - |Digits(n, radix)|, Digits(n, radix), radix);
  }

  lemma ShortEvalBound(s: string, radix: nat, k: nat)
    requires radix >= 1 && IsNumeral(s, radix) && |s| <= k
    ensures Eval(s, radix) < Pow(radix, k)
  {
    PaddingEvaluates(k - |s|, s, radix);
    EvalBound(Zeros(k - |s|) + s, radix);
  }

  lemma {:induction false} PowMonotone(b: nat, c: nat, k: nat)
    requires 1 <= b <= c
    ensures Pow(b, k) <= Pow(c, k)
  {
    if k > 0 {
      PowMonotone(b, c, k - 1);
      MulOrder(Pow(b, k - 1), Pow(c, k - 1), b);
      MulOrder(b, c, Pow(c, k - 1));
    }
  }

  lemma {:induction false} PowSixteen(k: nat)
    ensures Pow(16, k) == Pow(2, 4 * k)
  {
    if k > 0 {
      PowSixteen(k - 1);
      var j := 4 * (k - 1);
      assert Pow(2, j + 2) == 2 * (2 * Pow(2, j));
      assert Pow(2, j + 4) == 2 * (2 * Pow(2, j + 2));
    }
  }
}
