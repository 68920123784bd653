// The value of a number's spelling (CSS Syntax Module Level 3, section 4.3.13), as
// an exact real.
module CssNumber {
  import opened CssSyntax

  // Digits as a base-10 integer.
  function Whole(ds: Text): nat {
    if ds == [] then 0 else Whole(ds[..|ds| - 1]) * 10 + Digit(ds[|ds| - 1])
  }

  function Digit(c: nat): nat { if IsDigit(c) then c - 0x30 else 0 }

  function Power(n: nat): (r: real)
    ensures r > 0.0
  {
    if n == 0 then 1.0 else 10.0 * Power(n - 1)
  }

  // Ten to a power with a sign.
  function Scale(negative: bool, n: nat): real {
    if negative then 1.0 / Power(n) else Power(n)
  }

  function Signed(negative: bool, x: real): real { if negative then -x else x }

  // Where the components of a spelling end: sign, digits, point, digits, indicator,
  // sign, digits.
  datatype Parts = Parts(sign: nat, whole: nat, point: nat, fraction: nat, mark: nat, expSign: nat, exponent: nat)

  function PartsOf(s: Text): (r: Parts)
    ensures r.sign <= r.whole <= r.point <= r.fraction <= r.mark <= r.expSign <= r.exponent <= |s|
  {
    var a := Sign(s, 0);
    var b := Digits(s, a);
    var c := if Peek(s, b) == DOT then b + 1 else b;
    var d := Digits(s, c);
    var e := if Lower(Peek(s, d)) == 0x65 then d + 1 else d;
    var f := Sign(s, e);
    Parts(a, b, c, d, e, f, Digits(s, f))
  }

  function Value(s: Text): real {
    var p := PartsOf(s);
    var i, f := Whole(s[p.sign..p.whole]), Whole(s[p.point..p.fraction]);
    Signed(Peek(s, 0) == MINUS, i as real + f as real / Power(p.fraction - p.point))
    * Scale(Peek(s, p.mark) == MINUS, Whole(s[p.expSign..p.exponent]))
  }

  // ------------------------------------------------------------------ what it means

  predicate AllDigits(s: Text) { forall i | 0 <= i < |s| :: IsDigit(s[i]) }

  lemma WholeLast(s: Text, c: nat)
    ensures Whole(s + [c]) == Whole(s) * 10 + Digit(c)
  {
    assert (s + [c])[..|s|] == s;
  }

  lemma WholeMore(s: Text, p: nat, q: nat)
    requires p <= q < |s|
    ensures Whole(s[p..q + 1]) == Whole(s[p..q]) * 10 + Digit(s[q])
  {
    assert s[p..q + 1] == s[p..q] + [s[q]];
    WholeLast(s[p..q], s[q]);
  }

  lemma WholeNone(s: Text)
    ensures Whole(s) as real == Whole(s) as real * Power(0) + Whole([]) as real
  {
  }

  lemma NextPower(n: nat)
    ensures Power(n + 1) == 10.0 * Power(n)
  {
  }

  lemma {:induction false} WholeConcat(a: Text, b: Text)
    ensures Whole(a + b) as real == Whole(a) as real * Power(|b|) + Whole(b) as real
  {
    hide Whole, Power, Digit;
    if b == [] {
      assert a + b == a;
      WholeNone(a);
    } else {
      var n := |b| - 1;
      WholeConcat(a, b[..n]);
      assert a + b == (a + b[..n]) + [b[n]] && b == b[..n] + [b[n]];
      WholeLast(a + b[..n], b[n]);
      WholeLast(b[..n], b[n]);
      NextPower(n);
      TimesTen(Whole(a + b[..n]), Whole(a) as real, Power(n), Whole(b[..n]), Digit(b[n]));
    }
  }

  lemma TimesTen(w: nat, a: real, p: real, b: nat, d: nat)
    requires w as real == a * p + b as real
    ensures (w * 10 + d) as real == a * (10.0 * p) + (b * 10 + d) as real
  {
    assert a * (10.0 * p) == 10.0 * (a * p);
  }

  // The point only says how many of the digits are behind it.
  lemma PointMoves(i: Text, f: Text)
    ensures Whole(i) as real + Whole(f) as real / Power(|f|) == Whole(i + f) as real / Power(|f|)
  {
    hide Whole, Power;
    WholeConcat(i, f);
    SplitSum(Whole(i) as real, Whole(f) as real, Power(|f|));
  }

  lemma SplitSum(a: real, b: real, p: real)
    requires p > 0.0
    ensures (a * p + b) / p == a + b / p
  {
    var q := b / p;
    assert q * p == b;
    assert a * p + b == (a + q) * p;
    Cancel(a + q, p);
  }

  lemma Cancel(x: real, p: real)
    requires p > 0.0
    ensures x * p / p == x
  {
  }

  // The value is that of all digits as one integer, moved by the exponent less the
  // number of digits behind the point.
  lemma ValueIsDecimal(s: Text)
    ensures var p := PartsOf(s);
            var digits := s[p.sign..p.whole] + s[p.point..p.fraction];
            Value(s) == Signed(Peek(s, 0) == MINUS, Whole(digits) as real / Power(p.fraction - p.point))
                        * Scale(Peek(s, p.mark) == MINUS, Whole(s[p.expSign..p.exponent]))
  {
    hide Whole, Power, PartsOf;
    var p := PartsOf(s);
    PointMoves(s[p.sign..p.whole], s[p.point..p.fraction]);
  }

  lemma {:induction false} AllDigitsEnd(s: Text, p: nat)
    requires AllDigits(s) && p <= |s|
    ensures Digits(s, p) == |s|
    decreases |s| - p
  {
    if p < |s| { AllDigitsEnd(s, p + 1); }
  }

  // Digits alone mean their integer ...
  lemma IntegerIsRead(s: Text)
    requires AllDigits(s)
    ensures Value(s) == Whole(s) as real
  {
    AllDigitsEnd(s, 0);
    hide Digits;
    AllDigitsEnd(s, |s|);
    assert s[0..|s|] == s && s[|s|..|s|] == [];
  }

  // ... and every integer is read back from its digits.
  function Spelled(n: nat): Text {
    if n < 10 then [0x30 + n] else Spelled(n / 10) + [0x30 + n % 10]
  }

  lemma {:induction false} SpelledIsRead(n: nat)
    ensures AllDigits(Spelled(n)) && Whole(Spelled(n)) == n && Value(Spelled(n)) == n as real
  {
    if n < 10 {
      assert [0x30 + n][..0] == [];
    } else {
      SpelledIsRead(n / 10);
      WholeLast(Spelled(n / 10), 0x30 + n % 10);
    }
    IntegerIsRead(Spelled(n));
  }

  // --------------------------------------------------- the spelling of a number token

  lemma {:induction false} DigitsInside(s: Text, q: nat, a: nat)
    requires a <= q <= |s| && Digits(s, a) <= q
    ensures Digits(s[..q], a) == Digits(s, a)
    decreases |s| - a
  {
    if a < |s| && IsDigit(s[a]) { DigitsInside(s, q, a + 1); }
  }

  // Reading a number takes exactly the components of its spelling, nothing is left
  // over, and what is called an integer has neither fraction nor exponent.
  lemma NumberIsItsParts(s: Text)
    ensures var n := NumberEnd(s, 0);
            var p := PartsOf(s[..n.0]);
            && p.exponent == n.0
            && (n.1 ==> p.fraction == p.point && p.exponent == p.expSign)
  {
    hide Digits, Exponent;
    var (q, integer) := NumberEnd(s, 0);
    var t := s[..q];
    var a := Sign(s, 0);
    var b := Digits(s, a);
    var d := Fraction(s, b);
    assert Sign(t, 0) == a;
    DigitsInside(s, q, a);
    if d > b {
      DigitsInside(s, q, b + 2);
      OneDigit(t, b + 1);
      ExponentIsIts(s, q, d);
      NotADigit(t, d);
    } else {
      if q > b { ExponentIsIts(s, q, b); }
      NotADigit(t, b);
    }
    NotADigit(t, q);
  }

  lemma OneDigit(s: Text, k: nat)
    requires k < |s| && IsDigit(s[k])
    ensures Digits(s, k) == Digits(s, k + 1)
  {
  }

  lemma NotADigit(s: Text, k: nat)
    requires k <= |s|
    ensures !IsDigit(Peek(s, k)) ==> Digits(s, k) == k
  {
  }

  lemma ExponentIsIts(s: Text, q: nat, d: nat)
    requires d <= |s| && q == Exponent(s, d)
    ensures var t := s[..q];
            var e := if Lower(Peek(t, d)) == 0x65 then d + 1 else d;
            && (q == d ==> e == d)
            && (q > d ==> Digits(t, Sign(t, e)) == q && !IsDigit(Peek(t, d)) && Peek(t, d) != DOT)
  {
    if q > d {
      var f := Sign(s, d + 1);
      assert Digits(s, f) == q;
      DigitsInside(s, q, f);
    }
  }

  lemma {:induction false} DigitsAreDigits(s: Text, p: nat)
    requires p <= |s|
    ensures forall k | p <= k < Digits(s, p) :: IsDigit(s[k])
    decreases |s| - p
  {
    if p < |s| && IsDigit(s[p]) { DigitsAreDigits(s, p + 1); }
  }

  lemma NumberIsAscii(s: Text, p: nat)
    requires p <= |s|
    ensures forall k | p <= k < NumberEnd(s, p).0 :: s[k] < 128
  {
    var a := Sign(s, p);
    var b := Digits(s, a);
    var d := Fraction(s, b);
    DigitsAreDigits(s, a);
    if d > b { DigitsAreDigits(s, b + 2); }
    if Exponent(s, d) > d {
      var signed := Peek(s, d + 1) == PLUS || Peek(s, d + 1) == MINUS;
      DigitsAreDigits(s, if signed then d + 3 else d + 2);
    }
  }

  // ------------------------------------------------------------------ the conversion

  method TakeDigits(s: Text, p: nat) returns (n: nat, q: nat)
    requires p <= |s|
    ensures q == Digits(s, p) && n == Whole(s[p..q])
  {
    n, q := 0, p;
    while IsDigit(Peek(s, q))
      invariant p <= q <= |s| && Digits(s, q) == Digits(s, p) && n == Whole(s[p..q])
      decreases |s| - q
    {
      WholeMore(s, p, q);
      n, q := n * 10 + (s[q] - 0x30), q + 1;
    }
  }

  method TakeSign(s: Text, p: nat) returns (negative: bool, q: nat)
    requires p <= |s|
    ensures q == Sign(s, p) && negative == (Peek(s, p) == MINUS)
  {
    negative, q := false, p;
    if Peek(s, p) == MINUS {
      negative, q := true, p + 1;
    } else if Peek(s, p) == PLUS {
      q := p + 1;
    }
  }

  method ConvertStringToNumber(s: Text) returns (value: real)
    ensures value == Value(s)
  {
    hide PartsOf, Whole, Power, Scale, Signed;
    var negative, i, f, d, small, e := TakeParts(s);
    Products(negative, i as real, f as real, d);
    var mantissa := (if negative then -1.0 else 1.0) * (i as real + f as real * Scale(true, d));
    value := mantissa * Scale(small, e);
  }

  // The components, one after the other.
  method TakeParts(s: Text) returns (negative: bool, i: nat, f: nat, d: nat, small: bool, e: nat)
    ensures var p := PartsOf(s);
            && negative == (Peek(s, 0) == MINUS) && i == Whole(s[p.sign..p.whole])
            && f == Whole(s[p.point..p.fraction]) && d == p.fraction - p.point
            && small == (Peek(s, p.mark) == MINUS) && e == Whole(s[p.expSign..p.exponent])
  {
    hide Digits, Whole;
    var p;
    negative, p := TakeSign(s, 0);
    i, p := TakeDigits(s, p);
    if Peek(s, p) == DOT { p := p + 1; }
    var end;
    f, end := TakeDigits(s, p);
    d, p := end - p, end;
    if Lower(Peek(s, p)) == 0x65 { p := p + 1; }
    small, p := TakeSign(s, p);
    e, p := TakeDigits(s, p);
  }

  lemma Products(negative: bool, i: real, f: real, d: nat)
    ensures (if negative then -1.0 else 1.0) * (i + f * Scale(true, d)) == Signed(negative, i + f / Power(d))
  {
    var p := Power(d);
    TimesBack(1.0, p);
    TimesBack(f, p);
    Regroup(f / p, p, 1.0 / p);
  }

  lemma TimesBack(x: real, p: real)
    requires p != 0.0
    ensures x / p * p == x
  {
  }

  lemma Regroup(x: real, p: real, q: real)
    requires q * p == 1.0
    ensures x * p * q == x
  {
    assert x * p * q == x * (q * p);
  }
}
