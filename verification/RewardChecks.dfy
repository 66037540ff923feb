/**
 * The check of a new reward strategy, and what a strategy that passes it pays.
 */
module RewardChecks {
  import opened RewardPercents
  import opened RewardStrategies
  import opened GasPayment

  const MAX_NAME := 40

  datatype Verdict = Accepted | NameTooLong | EmptyName | InvalidPercent | BadAddress | NoValidatorsLine

  /** The loop of CheckRewardStrategy: the percentages so far, and whether validators were named. */
  datatype Scan = Refused(verdict: Verdict) | Scanned(percent: real, validators: bool)

  predicate FewDecimals(percent: string) {
    PointAt(percent) == -1 || Decimals(percent) <= 2
  }

  function ScanLine(s: Scan, line: Rewarder, valid: Address -> bool): Scan {
    if s.Refused? then s
    else if |line.name| > MAX_NAME then Refused(NameTooLong)
    else if |line.name| == 0 then Refused(EmptyName)
    else if !FewDecimals(line.percent) then Refused(InvalidPercent)
    else if s.percent + Face(line.percent) > 100.0 || Face(line.percent) < 0.0 then Refused(InvalidPercent)
    else if line.name == "validators" then Scanned(s.percent + Face(line.percent), true)
    else if !valid(line.address) then Refused(BadAddress)
    else Scanned(s.percent + Face(line.percent), s.validators)
  }

  function ScanAll(items: seq<Rewarder>, valid: Address -> bool): Scan {
    if items == [] then Scanned(0.0, false)
    else ScanLine(ScanAll(items[..|items| - 1], valid), items[|items| - 1], valid)
  }

  function Check(items: seq<Rewarder>, valid: Address -> bool): Verdict {
    match ScanAll(items, valid)
    case Refused(verdict) => verdict
    case Scanned(percent, validators) =>
      if percent != 100.0 then InvalidPercent else if !validators then NoValidatorsLine else Accepted
  }

  // ----- what is accepted --------------------------------------------------------------------

  predicate LineFine(line: Rewarder, valid: Address -> bool) {
    && 1 <= |line.name| <= MAX_NAME
    && FewDecimals(line.percent) && Face(line.percent) >= 0.0
    && (line.name == "validators" || valid(line.address))
  }

  function FaceSum(items: seq<Rewarder>): real {
    if items == [] then 0.0 else FaceSum(items[..|items| - 1]) + Face(items[|items| - 1].percent)
  }

  predicate NamesValidators(items: seq<Rewarder>) {
    exists i :: 0 <= i < |items| && items[i].name == "validators"
  }

  predicate AllFine(items: seq<Rewarder>, valid: Address -> bool) {
    forall i :: 0 <= i < |items| ==> LineFine(items[i], valid)
  }

  lemma {:induction false} ScanIs(items: seq<Rewarder>, valid: Address -> bool)
    ensures ScanAll(items, valid).Scanned? <==> AllFine(items, valid) && FaceSum(items) <= 100.0
    ensures ScanAll(items, valid).Scanned? ==> ScanAll(items, valid) == Scanned(FaceSum(items), NamesValidators(items))
    ensures ScanAll(items, valid).Refused? ==> ScanAll(items, valid) != Refused(Accepted)
  {
    hide Face, FewDecimals;
    if items != [] {
      var n := |items| - 1;
      ScanIs(items[..n], valid);
      assert AllFine(items, valid) <==> AllFine(items[..n], valid) && LineFine(items[n], valid);
      assert NamesValidators(items) <==> NamesValidators(items[..n]) || items[n].name == "validators" by {
        if NamesValidators(items[..n]) {
          var i :| 0 <= i < n && items[..n][i].name == "validators";
          assert items[i].name == "validators";
        }
      }
    }
  }

  /**
   * A strategy is accepted exactly if every line has a name and an address, at most two
   * decimals and no negative percentage, the percentages make 100, and validators are named.
   */
  lemma AcceptedIff(items: seq<Rewarder>, valid: Address -> bool)
    ensures Check(items, valid) == Accepted
       <==> AllFine(items, valid) && FaceSum(items) == 100.0 && NamesValidators(items)
  {
    ScanIs(items, valid);
    hide ScanAll, AllFine, FaceSum, NamesValidators;
  }

  /** What is wrong with a line, given the percentages before it. */
  function Fault(before: seq<Rewarder>, line: Rewarder, valid: Address -> bool): Verdict {
    if |line.name| > 40 then NameTooLong
    else if line.name == "" then EmptyName
    else if PointAt(line.percent) >= 0 && |line.percent| - PointAt(line.percent) > 3 then InvalidPercent
    else if FaceSum(before) + Face(line.percent) > 100.0 || Face(line.percent) < 0.0 then InvalidPercent
    else if line.name != "validators" && !valid(line.address) then BadAddress
    else Accepted
  }

  /** The verdict is the fault of the first faulty line, or that of the whole. */
  lemma {:induction false} VerdictIs(items: seq<Rewarder>, valid: Address -> bool)
    ensures (forall i :: 0 <= i < |items| ==> Fault(items[..i], items[i], valid) == Accepted) ==>
              Check(items, valid) == if FaceSum(items) != 100.0 then InvalidPercent
                                     else if !NamesValidators(items) then NoValidatorsLine else Accepted
    ensures forall i :: 0 <= i < |items| && Fault(items[..i], items[i], valid) != Accepted
                        && (forall j :: 0 <= j < i ==> Fault(items[..j], items[j], valid) == Accepted) ==>
              Check(items, valid) == Fault(items[..i], items[i], valid)
  {
    hide Face, FaceSum, Fault, NamesValidators, ScanAll;
    ScanFaults(items, |items|, valid);
    assert items[..|items|] == items;
    ScanIs(items, valid);
    forall i | 0 <= i < |items| && Fault(items[..i], items[i], valid) != Accepted
               && (forall j :: 0 <= j < i ==> Fault(items[..j], items[j], valid) == Accepted)
      ensures Check(items, valid) == Fault(items[..i], items[i], valid)
    {
      ScanFaults(items, i, valid);
      ScanFault(items, i, valid);
      RefusalStays(items, i + 1, valid);
    }
  }

  lemma ScanFault(items: seq<Rewarder>, i: nat, valid: Address -> bool)
    requires i < |items| && ScanAll(items[..i], valid).Scanned?
    ensures var f := Fault(items[..i], items[i], valid);
            if f == Accepted then ScanAll(items[..i + 1], valid).Scanned? else ScanAll(items[..i + 1], valid) == Refused(f)
  {
    hide Face, FaceSum;
    ScanIs(items[..i], valid);
    assert items[..i + 1][..i] == items[..i];
  }

  lemma {:induction false} ScanFaults(items: seq<Rewarder>, n: nat, valid: Address -> bool)
    requires n <= |items|
    ensures (forall i :: 0 <= i < n ==> Fault(items[..i], items[i], valid) == Accepted) ==>
              ScanAll(items[..n], valid).Scanned?
  {
    hide Fault, ScanLine;
    if n > 0 {
      ScanFaults(items, n - 1, valid);
      if ScanAll(items[..n - 1], valid).Scanned? {
        ScanFault(items, n - 1, valid);
      }
    }
  }

  method CheckRewardStrategy(items: seq<Rewarder>, valid: Address -> bool) returns (verdict: Verdict)
    ensures verdict == Check(items, valid)
  {
    hide Face, FewDecimals;
    var percent, validators := 0.0, false;
    for i := 0 to |items|
      invariant ScanAll(items[..i], valid) == Scanned(percent, validators)
    {
      var line := items[i];
      assert items[..i + 1][..i] == items[..i];
      var next := ScanLine(Scanned(percent, validators), line, valid);
      if |line.name| > MAX_NAME {
        RefusalStays(items, i + 1, valid);
        return NameTooLong;
      } else if |line.name| == 0 {
        RefusalStays(items, i + 1, valid);
        return EmptyName;
      }
      if !FewDecimals(line.percent) {
        RefusalStays(items, i + 1, valid);
        return InvalidPercent;
      }
      percent := percent + Face(line.percent);
      if percent > 100.0 || Face(line.percent) < 0.0 {
        RefusalStays(items, i + 1, valid);
        return InvalidPercent;
      }
      if line.name == "validators" {
        validators := true;
      } else if !valid(line.address) {
        RefusalStays(items, i + 1, valid);
        return BadAddress;
      }
    }
    assert items[..|items|] == items;
    if percent != 100.0 {
      return InvalidPercent;
    }
    verdict := if !validators then NoValidatorsLine else Accepted;
  }

  lemma {:induction false} RefusalStays(items: seq<Rewarder>, i: nat, valid: Address -> bool)
    requires i <= |items| && ScanAll(items[..i], valid).Refused?
    ensures ScanAll(items, valid) == ScanAll(items[..i], valid)
    decreases |items| - i
  {
    hide Face, FewDecimals;
    if i == |items| {
      assert items[..i] == items;
    } else {
      assert items[..i + 1][..i] == items[..i];
      RefusalStays(items, i + 1, valid);
    }
  }

  // ----- what an accepted strategy pays -------------------------------------------------------------

  predicate Numerals(items: seq<Rewarder>) {
    forall i :: 0 <= i < |items| ==> Numeral(items[i].percent)
  }

  /** Every percentage but 0 is written with a point. */
  predicate Pointed(items: seq<Rewarder>) {
    forall i :: 0 <= i < |items| ==> PointAt(items[i].percent) >= 0 || Face(items[i].percent) == 0.0
  }

  /** A percentage of at most 100 with few decimals has few digits. */
  lemma FewDigits(percent: string)
    requires Numeral(percent) && FewDecimals(percent) && 0.0 <= Face(percent) <= 100.0
    ensures Value(Unpointed(Body(percent))) <= 10000
    ensures Decimals(Body(percent)) <= 2 && Parses(percent) && Ratio(percent) <= 10000
  {
    hide Value, Unpointed, AllDigits, Ratio, Parses;
    var v, d := Value(Unpointed(Body(percent))), Decimals(Body(percent));
    SignedPoint(percent);
    hide PointAt;
    QuotientZero(if Negative(percent) then -(v as int) else v, Pow10(d));
    Pow10Grows(d, 2);
    assert Pow10(2) == 100;
    QuotientTimes(if Negative(percent) then -(v as int) else v, Pow10(d));
    hide Pow10;
    if v > 0 {
      AtMostTimes(Face(percent), Pow10(d), v);
    }
    RatioOfNumeral(percent);
  }

  lemma QuotientTimes(a: int, b: nat)
    requires b > 0
    ensures Quotient(a, b) * b as real == a as real
  {
  }

  lemma AtMostTimes(q: real, d: nat, v: int)
    requires q <= 100.0 && 0 < d <= 100 && q * d as real == v as real
    ensures v <= 10000
  {
    SignOf(100.0 - q, d as real);
    assert (100.0 - q) * d as real == 100.0 * d as real - q * d as real;
  }

  lemma LineWithin(percent: string)
    requires Numeral(percent) && FewDecimals(percent) && 0.0 <= Face(percent) <= 100.0
    ensures Parses(percent) && Ratio(percent) <= 10000
    ensures 0.0 <= Part(percent) <= Face(percent) / 100.0
    ensures Part(percent) == Face(percent) / 100.0 <==> PointAt(percent) >= 0 || Face(percent) == 0.0
  {
    hide Face, Numeral, Parses, Ratio, PointAt, Part, Value, Unpointed, Decimals;
    FewDigits(percent);
    PartIffPoint(percent);
  }

  /** Line by line at most the face value is paid, and all of it exactly if there is a point. */
  lemma {:induction false} FractionsWithin(items: seq<Rewarder>, valid: Address -> bool)
    requires AllFine(items, valid) && Numerals(items) && FaceSum(items) <= 100.0
    ensures forall i :: 0 <= i < |items| ==> Parses(items[i].percent) && Ratio(items[i].percent) <= 10000
    ensures 0.0 <= Fractions(items) <= FaceSum(items) / 100.0
    ensures Fractions(items) == FaceSum(items) / 100.0 <==> Pointed(items)
  {
    hide Face, FewDecimals, Numeral, Parses, Ratio, PointAt, Part;
    if items != [] {
      var n := |items| - 1;
      assert LineFine(items[n], valid);
      FaceSumNonNegative(items[..n], valid);
      FractionsWithin(items[..n], valid);
      LineWithin(items[n].percent);
      assert Pointed(items) <==>
             Pointed(items[..n]) && (PointAt(items[n].percent) >= 0 || Face(items[n].percent) == 0.0);
    }
  }

  lemma {:induction false} FaceSumNonNegative(items: seq<Rewarder>, valid: Address -> bool)
    requires AllFine(items, valid)
    ensures FaceSum(items) >= 0.0
  {
    hide Face, FewDecimals;
    if items != [] {
      assert LineFine(items[|items| - 1], valid);
      FaceSumNonNegative(items[..|items| - 1], valid);
    }
  }

  /**
   * The fractions by which an accepted strategy of numerals pays never exceed the whole,
   * and make the whole exactly if every percentage but 0 is written with a point.
   */
  lemma AcceptedFractions(items: seq<Rewarder>, valid: Address -> bool)
    requires Check(items, valid) == Accepted && Numerals(items)
    ensures 0.0 <= Fractions(items) <= 1.0
    ensures Fractions(items) == 1.0 <==> Pointed(items)
  {
    AcceptedIff(items, valid);
    FractionsWithin(items, valid);
    hide Fractions, Pointed, Check, Numerals;
  }

  predicate AllParse(items: seq<Rewarder>) {
    forall i :: 0 <= i < |items| ==> Parses(items[i].percent)
  }

  predicate NoOverflow(items: seq<Rewarder>, value: nat) {
    forall i :: 0 <= i < |items| ==> Times(value, Ratio(items[i].percent)) < UINT64
  }

  lemma {:induction false} SplitSucceedsIff(items: seq<Rewarder>, value: nat, proposer: Address)
    requires value < UINT64
    ensures SplitOver(items, value, proposer).Shares? <==> AllParse(items) && NoOverflow(items, value)
  {
    hide Parses, Ratio, Divisor, SafeMul, Portion, Payee;
    if items != [] {
      var n := |items| - 1;
      SplitSucceedsIff(items[..n], value, proposer);
      SafeMulExact(value, Ratio(items[n].percent));
      assert AllParse(items) <==> AllParse(items[..n]) && Parses(items[n].percent);
      assert NoOverflow(items, value) <==>
             NoOverflow(items[..n], value) && Times(value, Ratio(items[n].percent)) < UINT64;
    }
  }

  /** An accepted strategy of numerals pays every value whose products stay below 2^64. */
  lemma AcceptedPaysIff(items: seq<Rewarder>, valid: Address -> bool, value: nat, proposer: Address)
    requires Check(items, valid) == Accepted && Numerals(items) && value < UINT64
    ensures CalcRewards(items, value, proposer).Shares? <==> NoOverflow(items, value)
    ensures Times(value, 10000) < UINT64 ==> NoOverflow(items, value)
  {
    hide Check, Numerals, Fractions, SplitOver, TrueSum, FaceSum, NamesValidators, AllFine, Pointed, Times, Parses, Ratio, Lost;
    AcceptedIff(items, valid);
    FractionsWithin(items, valid);
    AcceptedFractions(items, valid);
    SplitSucceedsIff(items, value, proposer);
    SharesWithinValue(items, value);
    if SplitOver(items, value, proposer).Shares? {
      SplitIs(items, value, proposer);
    }
    if Times(value, 10000) < UINT64 {
      forall i | 0 <= i < |items| ensures Times(value, Ratio(items[i].percent)) < UINT64 {
        TimesGrows(value, Ratio(items[i].percent), 10000);
      }
    }
  }

  lemma TimesGrows(v: nat, a: nat, b: nat)
    requires a <= b
    ensures Times(v, a) <= Times(v, b)
  {
  }

  lemma {:induction false} NothingSplits(items: seq<Rewarder>, proposer: Address)
    requires AllParse(items)
    ensures SplitOver(items, 0, proposer).Shares? && SplitOver(items, 0, proposer).sum == 0
  {
    hide Parses, Ratio, Divisor;
    if items != [] {
      NothingSplits(items[..|items| - 1], proposer);
    }
  }

  /** No payment succeeds exactly if some percentage is no integer text once its point is dropped. */
  lemma BlocksAllIff(items: seq<Rewarder>, proposer: Address)
    ensures (forall value: nat :: value < UINT64 ==> CalcRewards(items, value, proposer).Failed?) <==> !AllParse(items)
  {
    hide AllParse, SplitOver;
    if AllParse(items) {
      NothingSplits(items, proposer);
      assert CalcRewards(items, 0, proposer).Shares?;
    } else {
      forall value: nat | value < UINT64 ensures CalcRewards(items, value, proposer).Failed? {
        SplitSucceedsIff(items, value, proposer);
      }
    }
  }

  // ----- three accepted strategies ------------------------------------------------------------------

  lemma ValueOne(c: char)
    requires '0' <= c <= '9'
    ensures AllDigits([c]) && Value([c]) == c as int - '0' as int
  {
    assert [c][..0] == "";
  }

  lemma ValueZero(s: string)
    requires AllDigits(s)
    ensures AllDigits(s + "0") && Value(s + "0") == 10 * Value(s)
  {
    assert (s + "0")[..|s|] == s;
  }

  /** A number of tens, with or without two decimals, and its digits. */
  lemma TensDigits(c: char, percent: string, digits: string)
    requires '1' <= c <= '9'
    requires (percent == [c] + "0" && digits == [c] + "0") || (percent == [c] + "0.00" && digits == [c] + "000")
    ensures Body(percent) == percent && !Negative(percent) && Unpointed(percent) == digits
    ensures PointAt(percent) == if percent == [c] + "0" then -1 else 2
    ensures |percent| == if percent == [c] + "0" then 2 else 5
  {
    hide PointAt, Unpointed;
    var tens := [c] + "0";
    if percent == tens {
      NoPoint(tens);
    } else {
      PointBetween(tens, "00");
      assert percent == tens + "." + "00";
      assert digits == tens + "00";
    }
  }

  /** What the check and the payment read in it. */
  lemma Tens(c: char, percent: string)
    requires '1' <= c <= '9' && (percent == [c] + "0" || percent == [c] + "0.00")
    ensures var tens := c as int - '0' as int;
            && Numeral(percent) && Parses(percent) && FewDecimals(percent)
            && Face(percent) == (10 * tens) as real
            && Divisor(percent) == 10000
            && Ratio(percent) == (if percent == [c] + "0" then 10 * tens else 1000 * tens)
            && (PointAt(percent) >= 0 <==> percent == [c] + "0.00")
  {
    hide Value, AllDigits, PointAt, Unpointed, Body, Negative, Ratio, Parses;
    var tens := c as int - '0' as int;
    var digits := if percent == [c] + "0" then [c] + "0" else [c] + "000";
    TensDigits(c, percent, digits);
    ValueOfTens(c);
    RatioOfNumeral(percent);
    assert Pow10(0) == 1 && Pow10(2) == 100 && Pow10(4) == 10000;
    hide Pow10;
    assert Quotient(1000 * tens, 100) == (10 * tens) as real;
  }

  lemma ValueOfTens(c: char)
    requires '1' <= c <= '9'
    ensures AllDigits([c] + "0") && Value([c] + "0") == 10 * (c as int - '0' as int)
    ensures AllDigits([c] + "000") && Value([c] + "000") == 1000 * (c as int - '0' as int)
  {
    hide Value, AllDigits;
    ValueOne(c);
    ValueZero([c]);
    ValueZero([c] + "0");
    ValueZero([c] + "0" + "0");
    ThreeZeros(c);
  }

  lemma ThreeZeros(c: char)
    ensures [c] + "0" + "0" + "0" == [c] + "000"
  {
  }

  lemma SumsOfThree(a: Rewarder, b: Rewarder, c: Rewarder)
    ensures FaceSum([a, b, c]) == Face(a.percent) + Face(b.percent) + Face(c.percent)
    ensures Fractions([a, b, c]) == Part(a.percent) + Part(b.percent) + Part(c.percent)
  {
    hide Face, Part;
    assert [a, b, c][..2] == [a, b] && [a, b][..1] == [a] && [a][..0] == [];
    assert FaceSum([]) == 0.0 && Fractions([]) == 0.0;
    assert FaceSum([a]) == FaceSum([]) + Face(a.percent) && Fractions([a]) == Fractions([]) + Part(a.percent);
    assert FaceSum([a, b]) == FaceSum([a]) + Face(b.percent) && Fractions([a, b]) == Fractions([a]) + Part(b.percent);
  }

  /** A validators' line, and one address named twice. */
  function TwiceNamed(a: Address): (r: seq<Rewarder>)
    ensures |r| == 3
  {
    [Rewarder("validators", "", "20.00"), Rewarder("x", a, "40.00"), Rewarder("y", a, "40.00")]
  }

  lemma TwiceNamedAccepted(a: Address, valid: Address -> bool)
    requires valid(a)
    ensures Check(TwiceNamed(a), valid) == Accepted && Fractions(TwiceNamed(a)) == 1.0
  {
    hide Face, Check, Numeral, Parses, PointAt, Ratio, Divisor, FewDecimals;
    var items := TwiceNamed(a);
    Tens('2', "20.00");
    Tens('4', "40.00");
    SumsOfThree(items[0], items[1], items[2]);
    assert items == [items[0], items[1], items[2]];
    AcceptedIff(items, valid);
    assert items[0].name == "validators";
    AcceptedFractions(items, valid);
  }

  /** The ratio and divisor a payment reads. */
  predicate Reads(percent: string, ratio: nat, divisor: nat) {
    Parses(percent) && Ratio(percent) == ratio && Divisor(percent) == divisor
  }

  /** One more line without an overflow. */
  lemma NextShare(items: seq<Rewarder>, n: nat, ratio: nat, value: nat, proposer: Address, before: Split, share: nat)
    requires n < |items| && value < UINT64 && Reads(items[n].percent, ratio, 10000) && Times(value, ratio) < UINT64
    requires before.Shares? && SplitOver(items[..n], value, proposer) == before
    requires share == Portion(Times(value, ratio), 10000) && before.sum + share < UINT64
    ensures SplitOver(items[..n + 1], value, proposer)
         == Shares(before.rewards[Payee(items[n], proposer) := share], before.sum + share)
  {
    hide Parses, Ratio, Divisor, SafeMul, Portion, Payee, AllDigits;
    assert !SafeMul(value, ratio).1 by {
      SafeMulExact(value, ratio);
    }
    SafeMulTimes(value, ratio);
    hide Times;
    assert items[..n + 1][..n] == items[..n];
  }

  lemma TwiceNamedSplit(a: Address, proposer: Address, value: nat)
    requires a != proposer && value < 1_000_000 && value % 5 == 0
    ensures var items, fifth := TwiceNamed(a), value / 5;
            && SplitOver(items[..1], value, proposer) == Shares(map[proposer := fifth], fifth)
            && SplitOver(items[..2], value, proposer) == Shares(map[proposer := fifth, a := 2 * fifth], 3 * fifth)
            && SplitOver(items[..3], value, proposer) == Shares(map[proposer := fifth, a := 2 * fifth], value)
  {
    hide SplitOver, Reads;
    var items, fifth := TwiceNamed(a), value / 5;
    TwiceNamedReads();
    Fifths(value);
    hide Portion, Times;
    NoneSplit(value, proposer);
    assert items[..0] == [];
    NextShare(items, 0, 2000, value, proposer, Shares(map[], 0), fifth);
    NextShare(items, 1, 4000, value, proposer, Shares(map[proposer := fifth], fifth), 2 * fifth);
    NextShare(items, 2, 4000, value, proposer, Shares(map[proposer := fifth, a := 2 * fifth], 3 * fifth), 2 * fifth);
  }

  lemma TwiceNamedReads()
    ensures Reads("20.00", 2000, 10000) && Reads("40.00", 4000, 10000)
  {
    hide Parses, Ratio, Divisor, Face, Numeral, FewDecimals, PointAt;
    Tens('2', "20.00");
    Tens('4', "40.00");
  }

  lemma Fifths(value: nat)
    requires value < 1_000_000 && value % 5 == 0
    ensures Times(value, 4000) < UINT64 && Portion(Times(value, 4000), 10000) == 2 * (value / 5)
    ensures Times(value, 2000) < UINT64 && Portion(Times(value, 2000), 10000) == value / 5
  {
  }

  /** The strategy is accepted, and two fifths of the value paid are lost. */
  lemma RepeatedPayeeLoses(a: Address, valid: Address -> bool, proposer: Address, value: nat)
    requires valid(a) && a != proposer && value < 1_000_000 && value % 5 == 0
    ensures Check(TwiceNamed(a), valid) == Accepted
    ensures CalcRewards(TwiceNamed(a), value, proposer).Shares?
    ensures Lost(TwiceNamed(a), value, proposer) == 2 * value / 5
  {
    hide SplitOver, Check;
    var items := TwiceNamed(a);
    TwiceNamedAccepted(a, valid);
    TwiceNamedSplit(a, proposer, value);
    assert items[..1][..0] == [] && items[..2][..1] == items[..1] && items[..3] == items;
    NoneSplit(value, proposer);
    assert Lost(items[..1], value, proposer) == 0;
    assert Lost(items[..2], value, proposer) == 0;
  }

  lemma NoneSplit(value: nat, proposer: Address)
    requires value < UINT64
    ensures SplitOver([], value, proposer) == Shares(map[], 0)
  {
  }

  lemma SumsOfTwo(a: Rewarder, b: Rewarder)
    ensures FaceSum([a, b]) == Face(a.percent) + Face(b.percent)
  {
    hide Face;
    assert [a, b][..1] == [a] && [a][..0] == [];
    assert FaceSum([a]) == Face(a.percent);
  }

  /** Eighty and twenty percent written without a point. */
  function Pointless(a: Address): (r: seq<Rewarder>)
    ensures |r| == 2
  {
    [Rewarder("validators", "", "80"), Rewarder("x", a, "20")]
  }

  /** The strategy is accepted, and instead of 20 percent the rewarder is paid 0.2 percent. */
  lemma PointlessUnderpays(a: Address, valid: Address -> bool, proposer: Address, n: nat)
    requires valid(a) && a != proposer && n < 1_000_000
    ensures Check(Pointless(a), valid) == Accepted
    ensures CalcRewards(Pointless(a), 1000 * n, proposer)
         == Shares(map[proposer := 998 * n, a := 2 * n], 1000 * n)
  {
    hide SplitOver, Reads, Check;
    var items, value := Pointless(a), 1000 * n;
    PointlessAccepted(a, valid);
    PointlessReads();
    Thousandths(n);
    hide Portion, Times;
    NoneSplit(value, proposer);
    assert items[..0] == [] && items[..2] == items;
    NextShare(items, 0, 80, value, proposer, Shares(map[], 0), 8 * n);
    NextShare(items, 1, 20, value, proposer, Shares(map[proposer := 8 * n], 8 * n), 2 * n);
  }

  lemma PointlessReads()
    ensures Reads("80", 80, 10000) && Reads("20", 20, 10000)
  {
    hide Parses, Ratio, Divisor, Face, Numeral, FewDecimals, PointAt;
    Tens('8', "80");
    Tens('2', "20");
  }

  lemma Thousandths(n: nat)
    requires n < 1_000_000
    ensures Times(1000 * n, 80) < UINT64 && Portion(Times(1000 * n, 80), 10000) == 8 * n
    ensures Times(1000 * n, 20) < UINT64 && Portion(Times(1000 * n, 20), 10000) == 2 * n
  {
  }

  lemma PointlessAccepted(a: Address, valid: Address -> bool)
    requires valid(a)
    ensures Check(Pointless(a), valid) == Accepted
  {
    hide Face, Check, Numeral, Parses, PointAt, Ratio, Divisor, FewDecimals;
    var items := Pointless(a);
    Tens('8', "80");
    Tens('2', "20");
    SumsOfTwo(items[0], items[1]);
    assert items == [items[0], items[1]];
    AcceptedIff(items, valid);
    assert items[0].name == "validators";
  }

  /** A percentage that is no number: it counts as 0 in the check. */
  function NoNumber(a: Address): (r: seq<Rewarder>)
    ensures |r| == 2
  {
    [Rewarder("validators", "", "100"), Rewarder("x", a, "abc")]
  }

  /** The strategy is accepted, and no payment succeeds under it. */
  lemma NoNumberBlocks(a: Address, valid: Address -> bool, proposer: Address, value: nat)
    requires valid(a) && value < UINT64
    ensures Check(NoNumber(a), valid) == Accepted
    ensures CalcRewards(NoNumber(a), value, proposer).Failed?
  {
    var items := NoNumber(a);
    NoNumberReads();
    hide Face, Check, Parses, PointAt, FewDecimals, SplitOver;
    SumsOfTwo(items[0], items[1]);
    assert items == [items[0], items[1]];
    assert items[0].name == "validators";
    AcceptedIff(items, valid);
    assert !Parses(items[1].percent);
    SplitSucceedsIff(items, value, proposer);
  }

  lemma NoNumberReads()
    ensures Face("100") == 100.0 && FewDecimals("100")
    ensures Face("abc") == 0.0 && FewDecimals("abc") && !Parses("abc")
  {
    PointIs("abc", -1);
    PointIs("100", -1);
    hide PointAt;
    assert Body("abc") == "abc" == Unpointed("abc") && "abc"[0] == 'a';
    assert Body("100") == "100" == Unpointed("100");
    ValueOfPower("100", 2);
    assert Pow10(2) == 100 && Pow10(0) == 1;
    hide Pow10, Value;
  }
}
