/**
 * A rewarder's percentage as text: what the strategy check reads in it, and the ratio
 * and divisor by which a payment splits the fee.
 */
module RewardPercents {
  const INT63 := 0x8000_0000_0000_0000
  const UINT64 := 0x1_0000_0000_0000_0000

  // ----- digits ----------------------------------------------------------------------------

  predicate AllDigits(s: string) {
    forall i :: 0 <= i < |s| ==> '0' <= s[i] <= '9'
  }

  function Value(s: string): nat
    requires AllDigits(s)
  {
    if s == "" then 0 else 10 * Value(s[..|s| - 1]) + (s[|s| - 1] as int - '0' as int)
  }

  function Pow10(n: nat): (r: nat)
    ensures r >= 1
  {
    if n == 0 then 1 else 10 * Pow10(n - 1)
  }

  lemma {:induction false} Pow10Grows(m: nat, n: nat)
    requires m <= n
    ensures Pow10(m) <= Pow10(n)
    decreases n
  {
    if m < n {
      Pow10Grows(m, n - 1);
    }
  }

  /** strings.Index(s, "."). */
  function PointAt(s: string): (i: int)
    ensures -1 <= i < |s|
    ensures i >= 0 ==> s[i] == '.' && forall j :: 0 <= j < i ==> s[j] != '.'
    ensures i == -1 ==> forall j :: 0 <= j < |s| ==> s[j] != '.'
  {
    if s == "" then -1
    else if s[0] == '.' then 0
    else
      var i := PointAt(s[1..]);
      if i == -1 then -1 else i + 1
  }

  /** strings.Replace(s, ".", "", 1). */
  function Unpointed(s: string): string {
    var i := PointAt(s);
    if i == -1 then s else s[..i] + s[i + 1..]
  }

  predicate Signed(s: string) {
    s != "" && (s[0] == '+' || s[0] == '-')
  }

  predicate Negative(s: string) {
    s != "" && s[0] == '-'
  }

  function Body(s: string): string {
    if Signed(s) then s[1..] else s
  }

  datatype Number = NaN | Int(n: int)

  /** strconv.Atoi: an optional sign and digits, in the range of an int64. */
  function Atoi(s: string): Number {
    var b := Body(s);
    if b == "" || !AllDigits(b) then NaN
    else
      var n := if Negative(s) then -(Value(b) as int) else Value(b);
      if -INT63 <= n < INT63 then Int(n) else NaN
  }

  /** Digits, alone or after one sign. */
  ghost predicate IntegerText(s: string) {
    exists d :: d != "" && AllDigits(d) && (s == d || s == "+" + d || s == "-" + d)
  }

  /** The integers of an int64 are read, and nothing else. */
  lemma AtoiIff(s: string)
    ensures Atoi(s).Int? ==> IntegerText(s) && -0x8000_0000_0000_0000 <= Atoi(s).n < 0x8000_0000_0000_0000
    ensures forall d :: d != "" && AllDigits(d) ==>
              && (s == d || s == "+" + d ==> Atoi(s) == if Value(d) < 0x8000_0000_0000_0000 then Int(Value(d)) else NaN)
              && (s == "-" + d ==> Atoi(s) == if Value(d) <= 0x8000_0000_0000_0000 then Int(-(Value(d) as int)) else NaN)
  {
    hide Value;
    if Atoi(s).Int? {
      var b := Body(s);
      assert s == b || s == "+" + b || s == "-" + b;
    }
    forall d | d != "" && AllDigits(d)
      ensures s == d || s == "+" + d ==> Atoi(s) == if Value(d) < 0x8000_0000_0000_0000 then Int(Value(d)) else NaN
      ensures s == "-" + d ==> Atoi(s) == if Value(d) <= 0x8000_0000_0000_0000 then Int(-(Value(d) as int)) else NaN
    {
      assert '0' <= d[0] <= '9';
      assert s == d ==> Body(s) == d;
      assert s == "+" + d || s == "-" + d ==> Body(s) == d;
    }
  }

  // ----- what a payment reads ------------------------------------------------------------------

  predicate Parses(percent: string) {
    Atoi(Unpointed(percent)).Int?
  }

  /** The digits as a uint64. */
  function Ratio(percent: string): (r: nat)
    ensures r < UINT64
  {
    match Atoi(Unpointed(percent))
    case NaN => 0
    case Int(n) => n % UINT64
  }

  /** A one with as many zeros as there are decimals, and two more; at most the largest int64. */
  function Divisor(percent: string): (d: nat)
    ensures d > 0
  {
    var d := Pow10(|percent| - PointAt(percent) + 1);
    if d < INT63 then d else INT63 - 1
  }

  lemma {:induction false} ValueOfPower(text: string, zeros: nat)
    requires |text| == zeros + 1 && text[0] == '1' && forall i :: 1 <= i <= zeros ==> text[i] == '0'
    ensures AllDigits(text) && Value(text) == Pow10(zeros)
  {
    if zeros == 0 {
      assert text[..0] == "";
    } else {
      ValueOfPower(text[..zeros], zeros - 1);
    }
  }

  /** The divisor is written out and read back; the error of a number out of range is ignored. */
  method DivisorOf(percent: string) returns (d: nat)
    ensures d == Divisor(percent)
  {
    var text, index := "1", 0;
    while index < |percent| - PointAt(percent) + 1
      invariant 0 <= index <= |percent| - PointAt(percent) + 1
      invariant |text| == index + 1 && text[0] == '1' && forall i :: 1 <= i <= index ==> text[i] == '0'
    {
      text := text + "0";
      index := index + 1;
    }
    ValueOfPower(text, index);
    match Atoi(text)
    case NaN => d := INT63 - 1;
    case Int(n) => d := n;
  }

  // ----- what the strategy check reads -----------------------------------------------------------

  /** A decimal numeral: an optional sign, digits, and at most one point. */
  predicate Numeral(percent: string) {
    Unpointed(Body(percent)) != "" && AllDigits(Unpointed(Body(percent)))
  }

  function Decimals(s: string): nat {
    if PointAt(s) == -1 then 0 else |s| - PointAt(s) - 1
  }

  function Quotient(a: int, b: nat): real
    requires b > 0
  {
    a as real / b as real
  }

  /** The value of the numeral; a text that ParseFloat refuses counts as 0. */
  function Face(percent: string): real {
    if !Numeral(percent) then 0.0
    else
      var b := Body(percent);
      var v := Value(Unpointed(b)) as int;
      Quotient(if Negative(percent) then -v else v, Pow10(Decimals(b)))
  }

  /** The part of the fee that a payment gives for the percentage. */
  function Part(percent: string): real {
    Quotient(Ratio(percent), Divisor(percent))
  }

  /** The index of the point is the one where the point stands and nowhere before. */
  lemma PointIs(s: string, i: int)
    requires -1 <= i < |s| && (i >= 0 ==> s[i] == '.')
    requires forall j :: 0 <= j < (if i == -1 then |s| else i) ==> s[j] != '.'
    ensures PointAt(s) == i
  {
    hide PointAt;
  }

  lemma NoPoint(s: string)
    requires AllDigits(s)
    ensures PointAt(s) == -1 && Unpointed(s) == s
  {
    PointIs(s, -1);
  }

  lemma PointBetween(a: string, b: string)
    requires AllDigits(a)
    ensures PointAt(a + "." + b) == |a| && Unpointed(a + "." + b) == a + b
  {
    hide PointAt;
    var s := a + "." + b;
    PointIs(s, |a|);
    assert s[..|a|] == a;
    assert s[|a| + 1..] == b;
  }

  /** What precedes the point moves it and is kept. */
  lemma PointAfter(c: char, s: string)
    requires c != '.'
    ensures PointAt([c] + s) == if PointAt(s) == -1 then -1 else PointAt(s) + 1
    ensures Unpointed([c] + s) == [c] + Unpointed(s)
  {
    hide PointAt;
    var t, i := [c] + s, PointAt(s);
    PointIs(t, if i == -1 then -1 else i + 1);
    if i >= 0 {
      assert t[..i + 1] == [c] + s[..i];
      assert t[i + 2..] == s[i + 1..];
      assert [c] + s[..i] + s[i + 1..] == [c] + (s[..i] + s[i + 1..]);
    }
  }

  lemma SignedPoint(p: string)
    ensures PointAt(p) == -1 <==> PointAt(Body(p)) == -1
    ensures PointAt(p) >= 0 ==> |p| - PointAt(p) == |Body(p)| - PointAt(Body(p))
    ensures Unpointed(p) == if Signed(p) then [p[0]] + Unpointed(Body(p)) else Unpointed(Body(p))
  {
    hide PointAt, Unpointed;
    if Signed(p) {
      assert p == [p[0]] + Body(p);
      PointAfter(p[0], Body(p));
    }
  }

  /** Of a sign and digits the digits are the body. */
  lemma BodyOf(text: string, p: string, digits: string)
    requires digits != "" && AllDigits(digits)
    requires text == if Signed(p) then [p[0]] + digits else digits
    ensures Body(text) == digits && Negative(text) == Negative(p)
  {
    assert '0' <= digits[0] <= '9';
  }

  /** A payment reads the digits that the check has read. */
  lemma RatioOfNumeral(p: string)
    requires Numeral(p) && Value(Unpointed(Body(p))) < INT63
    ensures Parses(p)
    ensures var v := Value(Unpointed(Body(p)));
            Ratio(p) == if Negative(p) && v > 0 then UINT64 - v else v
  {
    hide Value, Unpointed, AllDigits, Body, Negative, Signed;
    SignedPoint(p);
    BodyOf(Unpointed(p), p, Unpointed(Body(p)));
  }

  lemma SignOf(a: real, k: real)
    requires k > 0.0
    ensures a * k >= 0.0 <==> a >= 0.0
    ensures a * k == 0.0 <==> a == 0.0
  {
  }

  lemma QuotientZero(a: int, b: nat)
    requires b > 0
    ensures Quotient(a, b) == 0.0 <==> a == 0
    ensures Quotient(a, b) >= 0.0 <==> a >= 0
  {
    var q := Quotient(a, b);
    assert q * b as real == a as real;
    SignOf(q, b as real);
  }

  lemma QuotientScaled(v: nat, d: nat)
    requires d > 0
    ensures Quotient(v, 100 * d) == Quotient(v, d) / 100.0
  {
    var q := Quotient(v, d);
    assert q * d as real == v as real;
    var r := Quotient(v, 100 * d);
    assert r * (100 * d) as real == v as real;
    assert (100 * d) as real == 100.0 * d as real;
    assert r * (100.0 * d as real) == (100.0 * r) * d as real;
    SameFactor(100.0 * r, q, d as real);
  }

  lemma SameFactor(a: real, b: real, k: real)
    requires k > 0.0 && a * k == b * k
    ensures a == b
  {
    assert (a - b) * k == 0.0;
  }

  lemma SmallerQuotient(v: nat, d: nat, e: nat)
    requires v > 0 && 0 < d < e
    ensures Quotient(v, e) < Quotient(v, d)
  {
    var q, r := Quotient(v, d), Quotient(v, e);
    QuotientZero(v, e);
    assert q * d as real == v as real && r * e as real == v as real;
    SignOf(r, (e - d) as real);
    assert r * e as real == r * d as real + r * (e - d) as real;
    assert (r - q) * d as real == r * d as real - q * d as real;
    SignOf(r - q, d as real);
  }

  /**
   * A percentage written with a point is paid at its face value; one without is paid at
   * less, unless it is 0: its length is taken for its number of decimals.
   */
  lemma PartIffPoint(p: string)
    requires Numeral(p) && Face(p) >= 0.0
    requires Value(Unpointed(Body(p))) < INT63 && Decimals(Body(p)) <= 16
    ensures Parses(p)
    ensures 0.0 <= Part(p) <= Face(p) / 100.0
    ensures Part(p) == Face(p) / 100.0 <==> PointAt(p) >= 0 || Face(p) == 0.0
  {
    hide Value, Unpointed, AllDigits, Quotient, Pow10;
    var b, v: int := Body(p), Value(Unpointed(Body(p)));
    RatioOfNumeral(p);
    assert p != "" by {
      NotNothing();
    }
    hide Ratio, Parses, Numeral;
    SignedPoint(p);
    QuotientZero(if Negative(p) then -v else v, Pow10(Decimals(b)));
    assert Face(p) == Quotient(v, Pow10(Decimals(b))) && Ratio(p) == v;
    QuotientZero(v, Divisor(p));
    QuotientScaled(v, Pow10(Decimals(b)));
    if PointAt(p) >= 0 {
      PointedDivisor(p, Decimals(b));
    } else {
      PointlessDivisor(p);
      if v > 0 {
        SmallerQuotient(v, 100 * Pow10(0), Divisor(p));
      }
    }
  }

  lemma NotNothing()
    ensures !Numeral("")
  {
  }

  lemma PointedDivisor(p: string, n: nat)
    requires PointAt(p) >= 0 && n == |p| - PointAt(p) - 1 <= 16
    ensures Divisor(p) == 100 * Pow10(n)
  {
    assert Pow10(n + 2) == 10 * Pow10(n + 1);
    Pow10Grows(n, 16);
    assert Pow10(16) == 1_0000_0000_0000_0000 by {
      assert Pow10(8) == 1_0000_0000;
    }
  }

  /** Short numbers of zeros are exact, long ones stop at the largest int64. */
  lemma DivisorIs(p: string)
    ensures var zeros := |p| - PointAt(p) + 1;
            && (zeros <= 18 ==> Divisor(p) == Pow10(zeros))
            && (zeros >= 19 ==> Divisor(p) == 0x7FFF_FFFF_FFFF_FFFF)
  {
    var zeros := |p| - PointAt(p) + 1;
    assert Pow10(9) == 1_000_000_000;
    assert Pow10(18) == 1_000_000_000_000_000_000;
    assert Pow10(19) == 10 * Pow10(18);
    if zeros <= 18 {
      Pow10Grows(zeros, 18);
    } else {
      Pow10Grows(19, zeros);
    }
  }

  lemma PointlessDivisor(p: string)
    requires PointAt(p) == -1 && p != ""
    ensures Divisor(p) > 100 == 100 * Pow10(0)
  {
    Pow10Grows(3, |p| + 2);
    assert Pow10(3) == 1000;
  }
}
