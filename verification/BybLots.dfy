/**
 * The lot lists of the BYB token: every account holds a list of (chromo, value)
 * lots.  This module holds the list arithmetic of a payment: the proportional
 * split of the sender's lots and the merge into the payee's lots.
 */
module BybLots {

  /** A chromo is the decimal text of a uint64; it is modelled by that number. */
  type Chromo = nat

  const WHITE: Chromo := 0

  datatype Lot = Lot(chromo: Chromo, value: int)

  /** Which lots a sum ranges over. */
  datatype Filter = Every | Only(chromo: Chromo)

  predicate Counted(f: Filter, c: Chromo) {
    f.Every? || f.chromo == c
  }

  /** The amount held in a lot list: in all chromos, or in one. */
  function Held(f: Filter, lots: seq<Lot>): int {
    if lots == [] then 0
    else
      var last := lots[|lots| - 1];
      Held(f, lots[..|lots| - 1]) + if Counted(f, last.chromo) then last.value else 0
  }

  predicate NonNegative(lots: seq<Lot>) {
    forall i :: 0 <= i < |lots| ==> lots[i].value >= 0
  }

  predicate Positive(lots: seq<Lot>) {
    forall i :: 0 <= i < |lots| ==> lots[i].value > 0
  }

  /** No chromo is listed twice, except possibly those in `but`. */
  predicate NoRepeat(lots: seq<Lot>, but: set<Chromo>) {
    forall i, j :: 0 <= i < j < |lots| && lots[i].chromo == lots[j].chromo ==> lots[i].chromo in but
  }

  predicate Lists(lots: seq<Lot>, c: Chromo) {
    exists i :: 0 <= i < |lots| && lots[i].chromo == c
  }

  /** The index of the first lot of a chromo, or the length of the list. */
  function IndexOf(lots: seq<Lot>, c: Chromo): (i: nat)
    ensures i <= |lots|
    ensures i < |lots| ==> lots[i].chromo == c
    ensures forall j :: 0 <= j < i ==> lots[j].chromo != c
  {
    if lots == [] then 0
    else if lots[0].chromo == c then 0
    else 1 + IndexOf(lots[1..], c)
  }

  // ----- sums over lists ------------------------------------------------------

  lemma {:induction false} HeldAppend(f: Filter, a: seq<Lot>, b: seq<Lot>)
    ensures Held(f, a + b) == Held(f, a) + Held(f, b)
  {
    if b == [] {
      assert a + b == a;
    } else {
      var n := |b| - 1;
      assert (a + b)[..|a + b| - 1] == a + b[..n];
      HeldAppend(f, a, b[..n]);
    }
  }

  lemma HeldEmpty(f: Filter)
    ensures Held(f, []) == 0
  {
  }

  lemma {:induction false} HeldSingle(f: Filter, lot: Lot)
    ensures Held(f, [lot]) == if Counted(f, lot.chromo) then lot.value else 0
  {
    assert [lot][..0] == [];
  }

  lemma {:induction false} HeldUpdate(f: Filter, lots: seq<Lot>, i: nat, v: int)
    requires i < |lots|
    ensures Held(f, lots[i := lots[i].(value := v)])
         == Held(f, lots) + if Counted(f, lots[i].chromo) then v - lots[i].value else 0
  {
    var n := |lots| - 1;
    var lots' := lots[i := lots[i].(value := v)];
    if i == n {
      assert lots'[..n] == lots[..n];
    } else {
      assert lots'[..n] == lots[..n][i := lots[i].(value := v)];
      HeldUpdate(f, lots[..n], i, v);
    }
  }

  lemma {:induction false} HeldRemove(f: Filter, lots: seq<Lot>, i: nat)
    requires i < |lots|
    ensures Held(f, lots[..i] + lots[i + 1..])
         == Held(f, lots) - if Counted(f, lots[i].chromo) then lots[i].value else 0
  {
    assert lots == lots[..i] + [lots[i]] + lots[i + 1..];
    HeldAppend(f, lots[..i] + [lots[i]], lots[i + 1..]);
    HeldAppend(f, lots[..i], [lots[i]]);
    HeldAppend(f, lots[..i], lots[i + 1..]);
    HeldSingle(f, lots[i]);
  }

  lemma {:induction false} HeldNonNegative(f: Filter, lots: seq<Lot>)
    requires NonNegative(lots)
    ensures Held(f, lots) >= 0
    ensures forall i :: 0 <= i < |lots| && Counted(f, lots[i].chromo) ==> lots[i].value <= Held(f, lots)
  {
    if lots != [] {
      HeldNonNegative(f, lots[..|lots| - 1]);
    }
  }

  lemma {:induction false} HeldUnlisted(lots: seq<Lot>, c: Chromo)
    requires !Lists(lots, c)
    ensures Held(Only(c), lots) == 0
  {
    if lots != [] {
      HeldUnlisted(lots[..|lots| - 1], c);
    }
  }

  // ----- one proportional round ----------------------------------------------

  /** What a proportional round leaves with the sender and what it pays out. */
  datatype Round = Invalid | Done(kept: seq<Lot>, paid: seq<Lot>, spent: int)

  /** The exactly proportional share of a lot, rounded down. */
  function Proportion(v: int, value: int, total: int): int
    requires total > 0
  {
    value * v / total
  }

  /** The share of one non-empty lot while `surplus` is still to be paid. */
  function ShareOf(v: int, value: int, total: int, surplus: int): int
    requires total > 0
  {
    var share := Proportion(v, value, total);
    if share > surplus then surplus else if share == 0 then 1 else share
  }

  /** Moves `share` out of a lot. */
  function Move(r: Round, lot: Lot, share: int): Round
    requires r.Done?
  {
    Done(if lot.value - share > 0 then r.kept + [lot.(value := lot.value - share)] else r.kept,
         r.paid + [lot.(value := share)],
         r.spent + share)
  }

  function Proceed(r: Round, lot: Lot, value: int, total: int): Round
    requires total > 0
  {
    if r.Invalid? || lot.value == 0 then r
    else if r.spent == value then r.(kept := r.kept + [lot])
    else if r.spent > value || Proportion(lot.value, value, total) > lot.value then Invalid
    else Move(r, lot, ShareOf(lot.value, value, total, value - r.spent))
  }

  /** The round after all lots of the list, for a payment out of `total`. */
  function Split(lots: seq<Lot>, value: int, total: int): Round
    requires total > 0
  {
    if lots == [] then Done([], [], 0)
    else Proceed(Split(lots[..|lots| - 1], value, total), lots[|lots| - 1], value, total)
  }

  /** The loop of calcTransferBybChromo. */
  method CalcTransfer(lots: seq<Lot>, value: int) returns (r: Round)
    requires Held(Every, lots) > 0
    ensures r == Split(lots, value, Held(Every, lots))
  {
    hide Held, Split;
    NothingSplitAt(value, lots);
    var total := CalcTotal(lots);
    var kept, paid, spent := [], [], 0;
    for i := 0 to |lots|
      invariant Split(lots[..i], value, total) == Done(kept, paid, spent)
    {
      SplitNext(lots, i, value, total);
      var lot := lots[i];
      if lot.value == 0 {
        continue;
      }
      var surplus := value - spent;
      if surplus == 0 {
        kept := kept + [lot];
        continue;
      }
      var share := value * lot.value / total;
      if surplus < 0 || share > lot.value {
        ghost var head, tail := lots[..i + 1], lots[i + 1..];
        assert Split(head, value, total) == Invalid;
        InvalidStays(lots, i + 1, value, total);
        return Invalid;
      }
      if share > surplus {
        share := surplus;
      } else if share == 0 {
        share := 1;
      }
      spent := spent + share;
      paid := paid + [lot.(value := share)];
      if lot.value - share > 0 {
        kept := kept + [lot.(value := lot.value - share)];
      }
    }
    assert lots[..|lots|] == lots;
    r := Done(kept, paid, spent);
  }

  lemma NothingSplitAt(value: int, lots: seq<Lot>)
    requires Held(Every, lots) > 0
    ensures Split([], value, Held(Every, lots)) == Done([], [], 0)
  {
  }

  lemma SplitNext(lots: seq<Lot>, i: nat, value: int, total: int)
    requires total > 0 && i < |lots|
    ensures Split(lots[..i + 1], value, total) == Proceed(Split(lots[..i], value, total), lots[i], value, total)
  {
    assert lots[..i + 1][..i] == lots[..i];
  }

  lemma {:induction false} InvalidStays(lots: seq<Lot>, i: nat, value: int, total: int)
    requires total > 0 && i <= |lots| && Split(lots[..i], value, total) == Invalid
    ensures Split(lots, value, total) == Invalid
    decreases |lots| - i
  {
    if i == |lots| {
      assert lots[..i] == lots;
    } else {
      assert lots[..i + 1][..i] == lots[..i];
      InvalidStays(lots, i + 1, value, total);
    }
  }

  /** The loop of calcTotalBalance, also the one inside setBybBalance. */
  method CalcTotal(lots: seq<Lot>) returns (total: int)
    ensures total == Held(Every, lots)
  {
    total := 0;
    for i := 0 to |lots|
      invariant total == Held(Every, lots[..i])
    {
      assert lots[..i + 1][..i] == lots[..i];
      total := total + lots[i].value;
    }
    assert lots[..|lots|] == lots;
  }

  // ----- what one round does ---------------------------------------------------

  lemma MulMonotone(a: int, b: int, k: int)
    requires a <= b && k >= 0
    ensures a * k <= b * k
  {
  }

  lemma QuotientBounds(a: int, b: int)
    requires b > 0
    ensures a / b * b <= a < a / b * b + b
  {
  }

  lemma ProportionBounds(v: int, value: int, total: int)
    requires 0 < v && 0 < value <= total
    ensures 0 <= Proportion(v, value, total) <= v
    ensures Proportion(v, value, total) * total <= value * v < (Proportion(v, value, total) + 1) * total
  {
    var q := value * v / total;
    QuotientBounds(value * v, total);
    assert 0 <= value * v <= v * total;
    if q > v {
      MulMonotone(v + 1, q, total);
    }
    if q < 0 {
      MulMonotone(q + 1, 0, total);
    }
  }

  lemma ShareBounds(v: int, value: int, total: int, surplus: int)
    requires 0 < v && 0 < value <= total && surplus > 0
    ensures 0 <= Proportion(v, value, total) <= v
    ensures 1 <= ShareOf(v, value, total, surplus) <= surplus
    ensures ShareOf(v, value, total, surplus) <= v
  {
    ProportionBounds(v, value, total);
    hide Proportion;
  }

  /** A round on non-negative lots never fails and never overspends. */
  lemma {:induction false} SplitBounds(lots: seq<Lot>, value: int, total: int)
    requires NonNegative(lots) && 0 < value <= total
    ensures var r := Split(lots, value, total);
            && r.Done? && 0 <= r.spent <= value && Positive(r.kept) && Positive(r.paid)
  {
    hide Proportion, ShareOf;
    if lots != [] {
      var n := |lots| - 1;
      SplitBounds(lots[..n], value, total);
      var p := Split(lots[..n], value, total);
      if lots[n].value != 0 && p.spent < value {
        ShareBounds(lots[n].value, value, total, value - p.spent);
      }
    }
  }

  /** What is kept and what is paid add up to the list, chromo by chromo. */
  lemma {:induction false} SplitBalances(f: Filter, lots: seq<Lot>, value: int, total: int)
    requires NonNegative(lots) && 0 < value <= total
    ensures var r := Split(lots, value, total);
            && r.Done?
            && Held(f, r.kept) + Held(f, r.paid) == Held(f, lots)
            && (f.Every? ==> r.spent == Held(f, r.paid))
  {
    hide Proportion, ShareOf, Move;
    SplitBounds(lots, value, total);
    if lots != [] {
      var n := |lots| - 1;
      SplitBounds(lots[..n], value, total);
      SplitBalances(f, lots[..n], value, total);
      var p, lot := Split(lots[..n], value, total), lots[n];
      if lot.value != 0 {
        if p.spent < value {
          ShareBounds(lot.value, value, total, value - p.spent);
          MoveBalances(f, p, lot, ShareOf(lot.value, value, total, value - p.spent));
        } else {
          HeldAppend(f, p.kept, [lot]);
          HeldSingle(f, lot);
        }
      }
    }
  }

  lemma MoveBalances(f: Filter, p: Round, lot: Lot, share: int)
    requires p.Done? && share <= lot.value
    ensures var r := Move(p, lot, share);
            && Held(f, r.kept) + Held(f, r.paid)
               == Held(f, p.kept) + Held(f, p.paid) + (if Counted(f, lot.chromo) then lot.value else 0)
            && (f.Every? ==> Held(f, r.paid) == Held(f, p.paid) + share)
            && r.spent == p.spent + share
  {
    var rest, pay := lot.(value := lot.value - share), lot.(value := share);
    HeldAppend(f, p.kept, [rest]);
    HeldAppend(f, p.paid, [pay]);
    HeldSingle(f, rest);
    HeldSingle(f, pay);
  }

  /** The chromos of both results come from the list, in the order of the list. */
  lemma {:induction false} SplitChromos(lots: seq<Lot>, value: int, total: int)
    requires total > 0 && NoRepeat(lots, {}) && Split(lots, value, total).Done?
    ensures var r := Split(lots, value, total);
            && NoRepeat(r.kept, {}) && NoRepeat(r.paid, {})
            && (forall c :: Lists(r.kept, c) || Lists(r.paid, c) ==> Lists(lots, c))
            && (r.spent < value ==> forall c :: Lists(r.kept, c) ==> Lists(r.paid, c))
  {
    if lots != [] {
      var n := |lots| - 1;
      SplitChromos(lots[..n], value, total);
      var p, lot := Split(lots[..n], value, total), lots[n];
      assert !Lists(lots[..n], lot.chromo);
      forall c | Lists(lots[..n], c) ensures Lists(lots, c) {
        var i :| 0 <= i < n && lots[..n][i].chromo == c;
        assert lots[i].chromo == c;
      }
      assert Lists(lots, lot.chromo);
      if lot.value != 0 {
        if p.spent == value {
          AppendChromos(p.kept, lot);
        } else {
          var share := ShareOf(lot.value, value, total, value - p.spent);
          AppendChromos(p.kept, lot.(value := lot.value - share));
          AppendChromos(p.paid, lot.(value := share));
        }
      }
    }
  }

  lemma AppendChromos(lots: seq<Lot>, lot: Lot)
    ensures forall c :: Lists(lots + [lot], c) <==> Lists(lots, c) || c == lot.chromo
    ensures forall but :: NoRepeat(lots, but) && !Lists(lots, lot.chromo) ==> NoRepeat(lots + [lot], but)
  {
    var all := lots + [lot];
    forall c ensures Lists(all, c) <==> Lists(lots, c) || c == lot.chromo {
      if c == lot.chromo {
        assert all[|lots|].chromo == c;
      } else if Lists(lots, c) {
        var i :| 0 <= i < |lots| && lots[i].chromo == c;
        assert all[i].chromo == c;
      }
    }
  }

  // ----- two rounds suffice -----------------------------------------------------

  /**
   * While the payment is not exhausted, the shortfall against exact proportion is
   * less than one unit for each lot that keeps something.
   */
  lemma {:induction false} ShortfallBound(lots: seq<Lot>, value: int, total: int)
    requires NonNegative(lots) && 0 < value < total
    requires Split(lots, value, total).Done? && Split(lots, value, total).spent < value
    ensures var r := Split(lots, value, total);
            && value * Held(Every, lots) <= (r.spent + |r.kept|) * total
            && (Held(Every, lots) > 0 ==> value * Held(Every, lots) < (r.spent + |r.kept|) * total)
  {
    hide Proportion, ShareOf;
    if lots != [] {
      var n := |lots| - 1;
      var p, lot := Split(lots[..n], value, total), lots[n];
      SplitBounds(lots[..n], value, total);
      HeldNonNegative(Every, lots[..n]);
      if lot.value != 0 {
        ShareBounds(lot.value, value, total, value - p.spent);
      }
      ShortfallBound(lots[..n], value, total);
      if lot.value != 0 {
        ShortfallStep(lot.value, Held(Every, lots[..n]), value, total, p.spent, |p.kept|);
      }
    }
  }

  lemma ShortfallStep(v: int, h: int, value: int, total: int, spent: int, kept: int)
    requires 0 < v && 0 < value < total && spent < value && h >= 0
    requires spent + ShareOf(v, value, total, value - spent) < value
    requires value * h <= (spent + kept) * total
    ensures var share := ShareOf(v, value, total, value - spent);
            value * (h + v) < (spent + share + kept + if v > share then 1 else 0) * total
  {
    ShareBounds(v, value, total, value - spent);
    ProportionBounds(v, value, total);
    var q := Proportion(v, value, total);
    var share := ShareOf(v, value, total, value - spent);
    hide Proportion;
    var k := share + if v > share then 1 else 0;
    if v == share {
      MulStrict(value, total, v);
    } else {
      MulMonotone(q + 1, k, total);
    }
    Distribute(value, h, v);
    Distribute(total, spent + kept, k);
  }

  lemma MulStrict(a: int, b: int, k: int)
    requires a < b && k > 0
    ensures a * k < k * b
  {
  }

  lemma Distribute(k: int, a: int, b: int)
    ensures k * (a + b) == k * a + k * b == (a + b) * k
  {
  }

  /** On positive lots each round pays at least one unit per lot until it is done. */
  lemma {:induction false} EveryLotPays(lots: seq<Lot>, value: int, total: int)
    requires Positive(lots) && 0 < value <= total
    ensures var r := Split(lots, value, total);
            r.Done? && (r.spent == value || r.spent >= |lots|)
  {
    hide Proportion, ShareOf;
    if lots != [] {
      var n := |lots| - 1;
      EveryLotPays(lots[..n], value, total);
      SplitBounds(lots[..n], value, total);
      var p := Split(lots[..n], value, total);
      if p.spent < value {
        ShareBounds(lots[n].value, value, total, value - p.spent);
      }
    }
  }

  /**
   * Two proportional rounds always cover the payment: whatever the first round
   * leaves over, the second pays in full.
   */
  lemma {:induction false} TwoRoundsSuffice(lots: seq<Lot>, value: int)
    requires NonNegative(lots) && 0 < value < Held(Every, lots)
    ensures var first := Split(lots, value, Held(Every, lots));
            && first.Done?
            && 0 <= first.spent <= value
            && (first.spent < value ==>
                  && 0 < value - first.spent < Held(Every, first.kept)
                  && var second := Split(first.kept, value - first.spent, Held(Every, first.kept));
                     second.Done? && second.spent == value - first.spent)
  {
    hide Proportion, ShareOf, Proceed;
    var total := Held(Every, lots);
    SplitBalances(Every, lots, value, total);
    SplitBounds(lots, value, total);
    var first := Split(lots, value, total);
    var surplus := value - first.spent;
    var rest := Held(Every, first.kept);
    if first.spent < value {
      ShortfallBound(lots, value, total);
      CancelFactor(value, first.spent + |first.kept|, total);
      assert rest + Held(Every, first.paid) == total;
      EveryLotPays(first.kept, surplus, rest);
      SplitBounds(first.kept, surplus, rest);
    }
  }

  lemma CancelFactor(a: int, b: int, k: int)
    requires k > 0 && a * k < b * k
    ensures a < b
  {
    if b <= a {
      MulMonotone(b, a, k);
    }
  }

  // ----- the shares are proportional ----------------------------------------------

  /**
   * The share of each lot, without its formula: it is at least 1 and at most what is left
   * to pay; beyond 1 it is not more than exact proportion, and short of what is left it
   * is not a whole unit less.  The share is what the lot loses and what is paid out.
   */
  lemma NextShare(lots: seq<Lot>, value: int, total: int)
    requires NonNegative(lots) && lots != [] && 0 < value <= total
    ensures var p, r, lot := Split(lots[..|lots| - 1], value, total), Split(lots, value, total), lots[|lots| - 1];
            && p.Done? && r.Done? && 0 <= p.spent <= r.spent <= value
            && (lot.value == 0 ==> r == p)
            && (lot.value > 0 && p.spent == value ==> r == p.(kept := p.kept + [lot]))
            && (lot.value > 0 && p.spent < value ==>
                  var share, left := r.spent - p.spent, value - p.spent;
                  && 1 <= share <= left && share <= lot.value
                  && (share == 1 || share * total <= value * lot.value)
                  && (share == left || value * lot.value < (share + 1) * total)
                  && r.paid == p.paid + [lot.(value := share)]
                  && r.kept == if share < lot.value then p.kept + [lot.(value := lot.value - share)] else p.kept)
  {
    var n := |lots| - 1;
    SplitBounds(lots[..n], value, total);
    SplitBounds(lots, value, total);
    var p, v := Split(lots[..n], value, total), lots[n].value;
    if v > 0 && p.spent < value {
      ShareBounds(v, value, total, value - p.spent);
      ProportionBounds(v, value, total);
      ShareTimes(v, value, total, value - p.spent);
    }
  }

  lemma ShareTimes(v: int, value: int, total: int, left: int)
    requires 0 < v && 0 < value <= total && left > 0
    ensures var share := ShareOf(v, value, total, left);
            && (share == 1 || share * total <= value * v)
            && (share == left || value * v < (share + 1) * total)
  {
    ProportionBounds(v, value, total);
    var q, share := Proportion(v, value, total), ShareOf(v, value, total, left);
    hide Proportion;
    if share < q {
      MulMonotone(share, q, total);
    }
    if q < share {
      MulMonotone(q + 1, share + 1, total);
    }
  }

  /** The lots of other chromos are paid at most exact proportion and a unit for each lot. */
  lemma {:induction false} OthersPayAtMost(c: Chromo, lots: seq<Lot>, value: int, total: int)
    requires NonNegative(lots) && 0 < value <= total
    ensures var r := Split(lots, value, total);
            && r.Done?
            && (r.spent - Held(Only(c), r.paid)) * total
               <= value * (Held(Every, lots) - Held(Only(c), lots)) + |lots| * total
  {
    hide Split, NonNegative;
    if lots == [] {
      NothingSplit(value, total);
    } else {
      var n := |lots| - 1;
      PrefixNonNegative(lots);
      OthersPayAtMost(c, lots[..n], value, total);
      var p, r, lot := Split(lots[..n], value, total), Split(lots, value, total), lots[n];
      NextShare(lots, value, total);
      var share := r.spent - p.spent;
      PaidBy(c, p, r, lot, share);
      if lot.chromo != c {
        ShareAtMost(share, lot.value, value, total);
      }
      OthersStep(p.spent - Held(Only(c), p.paid), Held(Every, lots[..n]) - Held(Only(c), lots[..n]),
                 if lot.chromo == c then 0 else share, if lot.chromo == c then 0 else lot.value, n, value, total);
    }
  }

  lemma NothingSplit(value: int, total: int)
    requires total > 0
    ensures Split([], value, total) == Done([], [], 0)
  {
  }

  lemma PrefixNonNegative(lots: seq<Lot>)
    requires NonNegative(lots) && lots != []
    ensures NonNegative(lots[..|lots| - 1]) && lots[|lots| - 1].value >= 0
  {
  }

  /** What a lot pays is paid in its chromo. */
  lemma PaidBy(c: Chromo, p: Round, r: Round, lot: Lot, share: int)
    requires p.Done? && r.Done?
    requires (r.paid == p.paid && share == 0) || r.paid == p.paid + [lot.(value := share)]
    ensures Held(Only(c), r.paid) == Held(Only(c), p.paid) + if lot.chromo == c then share else 0
  {
    HeldAppend(Only(c), p.paid, [lot.(value := share)]);
    HeldSingle(Only(c), lot.(value := share));
  }

  lemma ShareAtMost(share: int, v: int, value: int, total: int)
    requires 0 < value <= total && v >= 0
    requires share == 0 || share == 1 || share * total <= value * v
    ensures share * total <= value * v + total
  {
    ProductNonNegative(value, v);
  }

  lemma ProductNonNegative(a: int, b: int)
    requires a >= 0 && b >= 0
    ensures a * b >= 0
  {
  }

  lemma OthersStep(spent: int, held: int, share: int, v: int, n: nat, value: int, total: int)
    requires total > 0 && value > 0 && v >= 0
    requires spent * total <= value * held + n * total && (share == 0 == v || share * total <= value * v + total)
    ensures (spent + share) * total <= value * (held + v) + (n + 1) * total
  {
    Distribute(total, spent, share);
    Distribute(value, held, v);
    Distribute(total, n, 1);
    ProductNonNegative(value, v);
  }

  /** No more than a unit above exact proportion. */
  predicate AtMostOneMore(paid: int, held: int, value: int, total: int) {
    paid * total <= value * held + total
  }

  lemma NothingPaid(value: int, total: int)
    requires total > 0
    ensures AtMostOneMore(0, 0, value, total)
  {
  }

  /** A chromo with one lot is paid at most exact proportion and a unit. */
  lemma {:induction false} OwnPaysAtMost(c: Chromo, lots: seq<Lot>, value: int, total: int)
    requires NonNegative(lots) && NoRepeat(lots, {}) && 0 < value <= total
    ensures var r := Split(lots, value, total);
            && r.Done? && 0 <= Held(Only(c), r.paid)
            && AtMostOneMore(Held(Only(c), r.paid), Held(Only(c), lots), value, total)
            && (!Lists(lots, c) ==> Held(Only(c), r.paid) == 0)
  {
    hide Split, NonNegative, NoRepeat, Lists, AtMostOneMore;
    if lots == [] {
      NothingSplit(value, total);
      NothingPaid(value, total);
    } else {
      var n := |lots| - 1;
      PrefixNonNegative(lots);
      PrefixOnce(lots);
      OwnPaysAtMost(c, lots[..n], value, total);
      var p, r, lot := Split(lots[..n], value, total), Split(lots, value, total), lots[n];
      NextShare(lots, value, total);
      var share := r.spent - p.spent;
      PaidBy(c, p, r, lot, share);
      if lot.chromo == c {
        HeldUnlisted(lots[..n], c);
        ShareAtMost(share, lot.value, value, total);
        assert AtMostOneMore(share, lot.value, value, total) by {
          UnfoldAtMost(share, lot.value, value, total);
        }
        assert Held(Only(c), lots) == lot.value && Held(Only(c), r.paid) == share;
      } else {
        assert Held(Only(c), lots) == Held(Only(c), lots[..n]) && Held(Only(c), r.paid) == Held(Only(c), p.paid);
      }
    }
  }

  lemma UnfoldAtMost(paid: int, held: int, value: int, total: int)
    ensures AtMostOneMore(paid, held, value, total) <==> paid * total <= value * held + total
  {
  }

  lemma PrefixOnce(lots: seq<Lot>)
    requires NoRepeat(lots, {}) && lots != []
    ensures var n := |lots| - 1;
            && NoRepeat(lots[..n], {}) && !Lists(lots[..n], lots[n].chromo)
            && (forall c :: Lists(lots, c) <==> Lists(lots[..n], c) || c == lots[n].chromo)
  {
    assert lots == lots[..|lots| - 1] + [lots[|lots| - 1]];
    AppendChromos(lots[..|lots| - 1], lots[|lots| - 1]);
  }

  /** While something is left to pay, a chromo is behind by at most a unit for each lot. */
  lemma {:induction false} UnfinishedPaysAtLeast(c: Chromo, lots: seq<Lot>, value: int, total: int)
    requires NonNegative(lots) && 0 < value <= total
    requires Split(lots, value, total).Done? && Split(lots, value, total).spent < value
    ensures var r := Split(lots, value, total);
            value * Held(Only(c), lots) <= Held(Only(c), r.paid) * total + |lots| * total
  {
    hide Split, NonNegative;
    if lots == [] {
      NothingSplit(value, total);
    } else {
      var n := |lots| - 1;
      PrefixNonNegative(lots);
      var p, r, lot := Split(lots[..n], value, total), Split(lots, value, total), lots[n];
      NextShare(lots, value, total);
      UnfinishedPaysAtLeast(c, lots[..n], value, total);
      var share := r.spent - p.spent;
      PaidBy(c, p, r, lot, share);
      AtLeastStep(Held(Only(c), p.paid), Held(Only(c), lots[..n]),
                  if lot.chromo == c then share else 0, if lot.chromo == c then lot.value else 0, n, value, total);
    }
  }

  lemma AtLeastStep(paid: int, held: int, share: int, v: int, n: nat, value: int, total: int)
    requires total > 0 && value * held <= paid * total + n * total
    requires share == 0 == v || value * v < (share + 1) * total
    ensures value * (held + v) <= (paid + share) * total + (n + 1) * total
  {
    Distribute(total, paid, share);
    Distribute(total, share, 1);
    Distribute(value, held, v);
    Distribute(total, n, 1);
  }

  /** One round over the whole holding moves every chromo in proportion, up to a unit for each lot. */
  lemma RoundIsProportional(c: Chromo, lots: seq<Lot>, value: int)
    requires NonNegative(lots) && NoRepeat(lots, {}) && 0 < value < Held(Every, lots)
    ensures var total := Held(Every, lots);
            var r := Split(lots, value, total);
            && r.Done?
            && value * Held(Only(c), lots) - |lots| * total <= Held(Only(c), r.paid) * total
            && Held(Only(c), r.paid) * total <= value * Held(Only(c), lots) + total
  {
    hide Split, NonNegative, NoRepeat, Held;
    var total := Held(Every, lots);
    SplitBounds(lots, value, total);
    OwnPaysAtMost(c, lots, value, total);
    var r := Split(lots, value, total);
    if r.spent < value {
      UnfinishedPaysAtLeast(c, lots, value, total);
    } else {
      OthersPayAtMost(c, lots, value, total);
      Complement(value, total, Held(Only(c), r.paid), Held(Only(c), lots));
    }
  }

  lemma Complement(value: int, total: int, paid: int, held: int)
    ensures (value - paid) * total == value * total - paid * total
    ensures value * (total - held) == value * total - value * held
  {
  }
}
