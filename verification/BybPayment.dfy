/**
 * A whole BYB payment on lot lists: taking an amount from the sender's lots in at
 * most two proportional rounds, and merging the lots paid into the payee's list.
 */
module BybPayment {
  import opened BybLots

  // ----- the payee's side -------------------------------------------------------

  /** The payee's list so far, and what is left of the lots to be added. */
  datatype Credited = Credited(lots: seq<Lot>, rest: seq<Lot>)

  function CreditOne(c: Credited, lot: Lot): Credited {
    var i := IndexOf(c.rest, lot.chromo);
    if i < |c.rest|
    then Credited(c.lots + [lot.(value := lot.value + c.rest[i].value)], c.rest[i := c.rest[i].(value := 0)])
    else Credited(c.lots + [lot], c.rest)
  }

  /** First pass: every old lot absorbs the first added lot of its chromo. */
  function CreditOld(old': seq<Lot>, added: seq<Lot>): Credited {
    if old' == [] then Credited([], added)
    else CreditOne(CreditOld(old'[..|old'| - 1], added), old'[|old'| - 1])
  }

  function NonZero(lots: seq<Lot>): seq<Lot> {
    if lots == [] then []
    else
      var n := |lots| - 1;
      if lots[n].value == 0 then NonZero(lots[..n]) else NonZero(lots[..n]) + [lots[n]]
  }

  /** Both passes: what is left of the added lots is appended, empty lots aside. */
  function Credit(old': seq<Lot>, added: seq<Lot>): seq<Lot> {
    var c := CreditOld(old', added);
    c.lots + NonZero(c.rest)
  }

  /** The inner loops: the first lot of a chromo. */
  method FindChromo(lots: seq<Lot>, c: Chromo) returns (i: nat)
    ensures i == IndexOf(lots, c)
  {
    i := 0;
    while i < |lots| && lots[i].chromo != c
      invariant i <= |lots| && forall k :: 0 <= k < i ==> lots[k].chromo != c
    {
      i := i + 1;
    }
  }

  /** The outer loops of setPayeeBalance. */
  method CreditPayee(old': seq<Lot>, added: seq<Lot>) returns (lots: seq<Lot>)
    ensures lots == Credit(old', added)
  {
    var rest := added;
    lots := [];
    for i := 0 to |old'|
      invariant CreditOld(old'[..i], added) == Credited(lots, rest)
    {
      assert old'[..i + 1][..i] == old'[..i];
      var lot := old'[i];
      var j := FindChromo(rest, lot.chromo);
      if j < |rest| {
        lots := lots + [lot.(value := lot.value + rest[j].value)];
        rest := rest[j := rest[j].(value := 0)];
      } else {
        lots := lots + [lot];
      }
    }
    assert old'[..|old'|] == old';
    lots := AppendRest(lots, rest);
  }

  method AppendRest(head: seq<Lot>, rest: seq<Lot>) returns (lots: seq<Lot>)
    ensures lots == head + NonZero(rest)
  {
    lots := head;
    for i := 0 to |rest|
      invariant lots == head + NonZero(rest[..i])
    {
      assert rest[..i + 1][..i] == rest[..i];
      if rest[i].value != 0 {
        lots := lots + [rest[i]];
      }
    }
    assert rest[..|rest|] == rest;
  }

  lemma {:induction false} NonZeroHeld(f: Filter, lots: seq<Lot>)
    ensures Held(f, NonZero(lots)) == Held(f, lots)
  {
    if lots != [] {
      var n := |lots| - 1;
      NonZeroHeld(f, lots[..n]);
      HeldAppend(f, NonZero(lots[..n]), [lots[n]]);
      HeldSingle(f, lots[n]);
    }
  }

  lemma {:induction false} CreditOldHeld(f: Filter, old': seq<Lot>, added: seq<Lot>)
    ensures var c := CreditOld(old', added);
            Held(f, c.lots) + Held(f, c.rest) == Held(f, old') + Held(f, added)
  {
    if old' != [] {
      var n := |old'| - 1;
      CreditOldHeld(f, old'[..n], added);
      var p, lot := CreditOld(old'[..n], added), old'[n];
      var i := IndexOf(p.rest, lot.chromo);
      if i < |p.rest| {
        var grown := lot.(value := lot.value + p.rest[i].value);
        HeldAppend(f, p.lots, [grown]);
        HeldSingle(f, grown);
        HeldUpdate(f, p.rest, i, 0);
      } else {
        HeldAppend(f, p.lots, [lot]);
        HeldSingle(f, lot);
      }
    }
  }

  /** Nothing is lost or made by a credit, in any chromo, on any lists. */
  lemma {:induction false} CreditHeld(f: Filter, old': seq<Lot>, added: seq<Lot>)
    ensures Held(f, Credit(old', added)) == Held(f, old') + Held(f, added)
  {
    var c := CreditOld(old', added);
    CreditOldHeld(f, old', added);
    NonZeroHeld(f, c.rest);
    HeldAppend(f, c.lots, NonZero(c.rest));
  }

  /** After the first pass: old chromos in place, absorbed lots emptied. */
  lemma {:induction false} CreditOldShape(old': seq<Lot>, added: seq<Lot>)
    requires NoRepeat(added, {})
    ensures var c := CreditOld(old', added);
            && |c.lots| == |old'| && |c.rest| == |added|
            && (forall i :: 0 <= i < |old'| ==> c.lots[i].chromo == old'[i].chromo)
            && (forall j :: 0 <= j < |added| ==>
                  c.rest[j] == if Lists(old', added[j].chromo) then added[j].(value := 0) else added[j])
  {
    if old' != [] {
      var n := |old'| - 1;
      CreditOldShape(old'[..n], added);
      assert old' == old'[..n] + [old'[n]];
      AppendChromos(old'[..n], old'[n]);
      CreditOneShape(CreditOld(old'[..n], added), old'[n], added);
    }
  }

  lemma CreditOneShape(p: Credited, lot: Lot, added: seq<Lot>)
    requires NoRepeat(added, {}) && |p.rest| == |added|
    requires forall j :: 0 <= j < |added| ==> p.rest[j].chromo == added[j].chromo
    ensures var c := CreditOne(p, lot);
            && |c.lots| == |p.lots| + 1 && |c.rest| == |added|
            && c.lots[..|p.lots|] == p.lots && c.lots[|p.lots|].chromo == lot.chromo
            && (forall j :: 0 <= j < |added| ==>
                  c.rest[j] == if added[j].chromo == lot.chromo then added[j].(value := 0) else p.rest[j])
  {
  }

  lemma {:induction false} NonZeroShape(lots: seq<Lot>)
    ensures NoRepeat(lots, {}) ==> NoRepeat(NonZero(lots), {})
    ensures forall i :: 0 <= i < |NonZero(lots)| ==> NonZero(lots)[i] in lots && NonZero(lots)[i].value != 0
  {
    if lots != [] {
      var n := |lots| - 1;
      NonZeroShape(lots[..n]);
      assert forall x :: x in lots[..n] ==> x in lots;
      assert lots[n] in lots;
    }
  }

  lemma {:induction false} CreditOldValues(old': seq<Lot>, added: seq<Lot>)
    requires NonNegative(old') && NonNegative(added)
    ensures var c := CreditOld(old', added);
            NonNegative(c.lots) && NonNegative(c.rest) && (Positive(old') ==> Positive(c.lots))
  {
    if old' != [] {
      CreditOldValues(old'[..|old'| - 1], added);
    }
  }

  /** The chromos of what the second pass appends are new to the payee. */
  lemma {:induction false} AppendedAreNew(old': seq<Lot>, added: seq<Lot>)
    requires NoRepeat(added, {}) && NonNegative(added) && NonNegative(old')
    ensures var tail := NonZero(CreditOld(old', added).rest);
            && NoRepeat(tail, {}) && Positive(tail)
            && (forall c :: Lists(tail, c) ==> !Lists(old', c) && Lists(added, c))
  {
    var rest := CreditOld(old', added).rest;
    var tail := NonZero(rest);
    CreditOldShape(old', added);
    CreditOldValues(old', added);
    NonZeroShape(rest);
    forall c | Lists(tail, c) ensures !Lists(old', c) && Lists(added, c) {
      var i :| 0 <= i < |tail| && tail[i].chromo == c;
      var j :| 0 <= j < |rest| && rest[j] == tail[i];
      assert added[j].chromo == c;
    }
    forall i | 0 <= i < |tail| ensures tail[i].value > 0 {
      assert tail[i] in rest;
    }
  }

  /** Two lists without a common chromo, one after the other. */
  lemma {:induction false} Concatenated(head: seq<Lot>, tail: seq<Lot>, but: set<Chromo>)
    requires NoRepeat(head, but) && NoRepeat(tail, {})
    requires forall c :: Lists(tail, c) ==> !Lists(head, c)
    ensures NoRepeat(head + tail, but)
    ensures forall c :: Lists(head + tail, c) <==> Lists(head, c) || Lists(tail, c)
  {
    if tail == [] {
      assert head + tail == head;
    } else {
      var n := |tail| - 1;
      assert tail == tail[..n] + [tail[n]];
      AppendChromos(tail[..n], tail[n]);
      assert !Lists(tail[..n], tail[n].chromo);
      Concatenated(head, tail[..n], but);
      AppendChromos(head + tail[..n], tail[n]);
      assert head + tail == head + tail[..n] + [tail[n]];
    }
  }

  /** Lists that name the same chromos in the same order. */
  lemma {:induction false} SameChromos(a: seq<Lot>, b: seq<Lot>)
    requires |a| == |b| && forall i :: 0 <= i < |a| ==> a[i].chromo == b[i].chromo
    ensures forall c :: Lists(a, c) <==> Lists(b, c)
    ensures forall but :: NoRepeat(a, but) <==> NoRepeat(b, but)
    ensures forall c :: IndexOf(a, c) == IndexOf(b, c)
  {
    forall c ensures Lists(a, c) <==> Lists(b, c) {
      if Lists(a, c) {
        var i :| 0 <= i < |a| && a[i].chromo == c;
        assert b[i].chromo == c;
      }
      if Lists(b, c) {
        var i :| 0 <= i < |b| && b[i].chromo == c;
        assert a[i].chromo == c;
      }
    }
    forall but ensures NoRepeat(a, but) <==> NoRepeat(b, but) {
    }
  }

  /** A credit keeps lists free of repeats and of negative or empty lots. */
  lemma {:induction false} CreditShape(old': seq<Lot>, added: seq<Lot>, but: set<Chromo>)
    requires NoRepeat(old', but) && NoRepeat(added, {})
    requires NonNegative(old') && NonNegative(added)
    ensures var r := Credit(old', added);
            && NoRepeat(r, but) && NonNegative(r)
            && (Positive(old') ==> Positive(r))
            && (forall c :: Lists(r, c) ==> Lists(old', c) || Lists(added, c))
            && (forall c :: Lists(old', c) ==> Lists(r, c))
  {
    var c := CreditOld(old', added);
    CreditOldShape(old', added);
    SameChromos(c.lots, old');
    CreditOldValues(old', added);
    AppendedAreNew(old', added);
    Concatenated(c.lots, NonZero(c.rest), but);
  }

  // ----- the sender's side --------------------------------------------------------

  /** Adds the lots of the second round to those of the first. */
  function Merge(paid: seq<Lot>, second: seq<Lot>): seq<Lot> {
    if paid == [] then []
    else
      var n := |paid| - 1;
      var i := IndexOf(second, paid[n].chromo);
      Merge(paid[..n], second)
      + [if i < |second| then paid[n].(value := paid[n].value + second[i].value) else paid[n]]
  }

  datatype Debit = Insufficient | InvalidBalance | Paid(kept: seq<Lot>, out: seq<Lot>)

  /** What calcAndSetSenderBalance leaves with the sender and hands to the payee. */
  function DebitLots(lots: seq<Lot>, value: int): Debit
    requires value > 0
  {
    var total := Held(Every, lots);
    if total < value then Insufficient
    else if total == value then Paid([], lots)
    else
      var first := Split(lots, value, total);
      if first.Invalid? then InvalidBalance
      else
        var surplus := value - Held(Every, first.paid);
        if surplus == 0 then Paid(first.kept, first.paid)
        else SecondRound(first, surplus)
  }

  function SecondRound(first: Round, surplus: int): Debit
    requires first.Done?
  {
    var rest := Held(Every, first.kept);
    if rest <= 0 then InvalidBalance
    else
      var second := Split(first.kept, surplus, rest);
      if second.Invalid? || surplus != Held(Every, second.paid) then InvalidBalance
      else Paid(second.kept, Merge(first.paid, second.paid))
  }

  /** The body of calcAndSetSenderBalance up to the writes. */
  method CalcSenderBalance(lots: seq<Lot>, value: int) returns (r: Debit)
    requires value > 0
    ensures r == DebitLots(lots, value)
  {
    var total := CalcTotal(lots);
    if total < value {
      return Insufficient;
    }
    if total == value {
      return Paid([], lots);
    }
    var first := CalcTransfer(lots, value);
    if first.Invalid? {
      return InvalidBalance;
    }
    var payeeTotal := CalcTotal(first.paid);
    var surplus := value - payeeTotal;
    if surplus == 0 {
      return Paid(first.kept, first.paid);
    }
    var rest := CalcTotal(first.kept);
    if rest <= 0 {
      return InvalidBalance;
    }
    var second := CalcTransfer(first.kept, surplus);
    if second.Invalid? {
      return InvalidBalance;
    }
    var secondTotal := CalcTotal(second.paid);
    if surplus != secondTotal {
      return InvalidBalance;
    }
    var out := MergeRounds(first.paid, second.paid);
    r := Paid(second.kept, out);
  }

  method MergeRounds(paid: seq<Lot>, second: seq<Lot>) returns (out: seq<Lot>)
    ensures out == Merge(paid, second)
  {
    out := [];
    for i := 0 to |paid|
      invariant out == Merge(paid[..i], second)
    {
      assert paid[..i + 1][..i] == paid[..i];
      var lot := paid[i];
      var j := FindChromo(second, lot.chromo);
      if j < |second| {
        lot := lot.(value := lot.value + second[j].value);
      }
      out := out + [lot];
    }
    assert paid[..|paid|] == paid;
  }

  /** On lists without repeats the merge is the first pass of a credit. */
  lemma {:induction false} MergeIsCredit(paid: seq<Lot>, second: seq<Lot>)
    requires NoRepeat(paid, {}) && NoRepeat(second, {})
    ensures Merge(paid, second) == CreditOld(paid, second).lots
  {
    if paid != [] {
      var n := |paid| - 1;
      MergeIsCredit(paid[..n], second);
      UntouchedLot(paid[..n], second, paid[n]);
      hide NoRepeat, Lists;
    }
  }

  /** The first pass leaves alone the added lot of a chromo not among the old ones. */
  lemma {:induction false} UntouchedLot(old': seq<Lot>, added: seq<Lot>, lot: Lot)
    requires NoRepeat(added, {}) && !Lists(old', lot.chromo)
    ensures var rest := CreditOld(old', added).rest;
            && |rest| == |added| && IndexOf(rest, lot.chromo) == IndexOf(added, lot.chromo)
            && forall i :: i == IndexOf(added, lot.chromo) && i < |added| ==> rest[i] == added[i]
  {
    CreditOldShape(old', added);
    SameChromos(CreditOld(old', added).rest, added);
  }

  /** Nothing of the second round is lost when all its chromos were in the first. */
  lemma {:induction false} MergeHeld(f: Filter, paid: seq<Lot>, second: seq<Lot>)
    requires NoRepeat(paid, {}) && NoRepeat(second, {})
    requires forall c :: Lists(second, c) ==> Lists(paid, c)
    ensures Held(f, Merge(paid, second)) == Held(f, paid) + Held(f, second)
  {
    var c := CreditOld(paid, second);
    MergeIsCredit(paid, second);
    CreditOldHeld(f, paid, second);
    CreditOldShape(paid, second);
    forall j | 0 <= j < |second| ensures c.rest[j].value == 0 {
      assert Lists(second, second[j].chromo);
    }
    HeldAllZero(f, c.rest);
  }

  lemma {:induction false} HeldAllZero(f: Filter, lots: seq<Lot>)
    requires forall i :: 0 <= i < |lots| ==> lots[i].value == 0
    ensures Held(f, lots) == 0
  {
    if lots != [] {
      HeldAllZero(f, lots[..|lots| - 1]);
    }
  }

  /**
   * A payment succeeds exactly when the sender holds enough: the InvalidBalance
   * exits are unreachable.  The lots paid sum to exactly the value, and in every
   * chromo the lots paid and the lots kept add up to the lots there were.
   */
  lemma {:induction false} DebitIsExact(f: Filter, lots: seq<Lot>, value: int)
    requires NonNegative(lots) && NoRepeat(lots, {}) && value > 0
    ensures DebitLots(lots, value) == Insufficient <==> Held(Every, lots) < value
    ensures DebitLots(lots, value) != InvalidBalance
    ensures var r := DebitLots(lots, value);
            r.Paid? ==> && Held(Every, r.out) == value
                        && Held(Every, r.kept) == Held(Every, lots) - value
                        && Held(f, r.kept) + Held(f, r.out) == Held(f, lots)
  {
    hide Proportion, ShareOf, Proceed, Held, Split, Merge, NoRepeat;
    HeldEmpty(f);
    HeldEmpty(Every);
    var total := Held(Every, lots);
    if value < total {
      TwoRoundsSuffice(lots, value);
      var first := Split(lots, value, total);
      SplitBalances(f, lots, value, total);
      SplitBalances(Every, lots, value, total);
      SplitChromos(lots, value, total);
      if first.spent < value {
        var rest := Held(Every, first.kept);
        SplitBounds(lots, value, total);
        var second := Split(first.kept, value - first.spent, rest);
        SplitBalances(f, first.kept, value - first.spent, rest);
        SplitBalances(Every, first.kept, value - first.spent, rest);
        SplitChromos(first.kept, value - first.spent, rest);
        MergeHeld(f, first.paid, second.paid);
        MergeHeld(Every, first.paid, second.paid);
      }
    }
  }

  /** What is kept and what is paid are again lists without repeats. */
  lemma {:induction false} DebitShape(lots: seq<Lot>, value: int)
    requires NonNegative(lots) && NoRepeat(lots, {}) && value > 0
    ensures var r := DebitLots(lots, value);
            r.Paid? ==> && Positive(r.kept) && NoRepeat(r.kept, {}) && NoRepeat(r.out, {})
                        && NonNegative(r.out) && (Positive(lots) ==> Positive(r.out))
                        && (forall c :: Lists(r.kept, c) ==> Lists(lots, c))
                        && (forall c :: Lists(r.out, c) ==> Lists(lots, c))
  {
    hide Proportion, ShareOf, Proceed;
    var total := Held(Every, lots);
    if value < total {
      TwoRoundsSuffice(lots, value);
      var first := Split(lots, value, total);
      SplitBalances(Every, lots, value, total);
      SplitBounds(lots, value, total);
      SplitChromos(lots, value, total);
      if first.spent < value {
        var surplus, rest := value - first.spent, Held(Every, first.kept);
        SplitBounds(first.kept, surplus, rest);
        SplitChromos(first.kept, surplus, rest);
        MergeShape(first.paid, Split(first.kept, surplus, rest).paid);
      }
    }
  }

  lemma {:induction false} MergeShape(paid: seq<Lot>, second: seq<Lot>)
    requires NoRepeat(paid, {}) && NoRepeat(second, {}) && Positive(paid) && Positive(second)
    ensures var r := Merge(paid, second);
            && NoRepeat(r, {}) && Positive(r)
            && (forall c :: Lists(r, c) ==> Lists(paid, c))
  {
    var r := Merge(paid, second);
    MergeIsCredit(paid, second);
    CreditOldShape(paid, second);
    CreditOldValues(paid, second);
    forall c | Lists(r, c) ensures Lists(paid, c) {
      var i :| 0 <= i < |r| && r[i].chromo == c;
      assert paid[i].chromo == c;
    }
  }

  /** To what the first round moves, the second adds less than a unit for each lot. */
  lemma SecondAddsLittle(c: Chromo, lots: seq<Lot>, value: int)
    requires NonNegative(lots) && NoRepeat(lots, {}) && 0 < value < Held(Every, lots)
    ensures DebitLots(lots, value).Paid? && Split(lots, value, Held(Every, lots)).Done?
    ensures var moved := Held(Only(c), lots) - Held(Only(c), DebitLots(lots, value).kept);
            0 <= moved - Held(Only(c), Split(lots, value, Held(Every, lots)).paid) <= |lots| - 1
  {
    hide Held, Split, NoRepeat, Merge;
    var total := Held(Every, lots);
    DebitIsExact(Only(c), lots, value);
    TwoRoundsSuffice(lots, value);
    SplitBounds(lots, value, total);
    SplitBalances(Only(c), lots, value, total);
    SplitBalances(Every, lots, value, total);
    var first := Split(lots, value, total);
    if first.spent == value {
      AtLeastOneLot(lots);
    } else {
      var surplus, rest := value - first.spent, Held(Every, first.kept);
      SplitBounds(first.kept, surplus, rest);
      var second := Split(first.kept, surplus, rest);
      SplitBalances(Only(c), first.kept, surplus, rest);
      SplitBalances(Every, first.kept, surplus, rest);
      PartOfAll(c, second.paid);
      SurplusIsSmall(lots, value);
    }
  }

  /**
   * A payment is proportional: of every chromo the sender parts with the part that the
   * value is of the whole holding, up to a unit for each lot.
   */
  lemma DebitIsProportional(c: Chromo, lots: seq<Lot>, value: int)
    requires NonNegative(lots) && NoRepeat(lots, {}) && 0 < value < Held(Every, lots)
    ensures DebitLots(lots, value).Paid?
    ensures var total := Held(Every, lots);
            var moved := Held(Only(c), lots) - Held(Only(c), DebitLots(lots, value).kept);
            && value * Held(Only(c), lots) - |lots| * total <= moved * total
            && moved * total <= value * Held(Only(c), lots) + |lots| * total
  {
    hide Held, Split, NoRepeat, NonNegative, DebitLots;
    var total := Held(Every, lots);
    SecondAddsLittle(c, lots, value);
    RoundIsProportional(c, lots, value);
    var paid := Held(Only(c), Split(lots, value, total).paid);
    var moved := Held(Only(c), lots) - Held(Only(c), DebitLots(lots, value).kept);
    SecondIsSmall(paid, moved - paid, |lots|, total);
  }

  lemma AtLeastOneLot(lots: seq<Lot>)
    requires Held(Every, lots) > 0
    ensures |lots| >= 1
  {
  }

  lemma Scale(a: int, b: int, k: int)
    requires a <= b && k >= 0
    ensures a * k <= b * k
  {
  }

  /** A second round of less than a unit for each lot. */
  lemma SecondIsSmall(paid: int, second: int, n: int, total: int)
    requires 0 <= second <= n - 1 && total > 0
    ensures paid * total <= (paid + second) * total <= paid * total + (n - 1) * total
    ensures (n - 1) * total == n * total - total
  {
    Scale(0, second, total);
    Scale(second, n - 1, total);
    assert (paid + second) * total == paid * total + second * total;
  }

  lemma PartOfAll(c: Chromo, lots: seq<Lot>)
    requires Positive(lots)
    ensures 0 <= Held(Only(c), lots) <= Held(Every, lots)
  {
    HeldNonNegative(Only(c), lots);
    OnlyAtMostEvery(c, lots);
  }

  lemma {:induction false} OnlyAtMostEvery(c: Chromo, lots: seq<Lot>)
    requires Positive(lots)
    ensures Held(Only(c), lots) <= Held(Every, lots)
  {
    if lots != [] {
      OnlyAtMostEvery(c, lots[..|lots| - 1]);
    }
  }

  lemma SurplusIsSmall(lots: seq<Lot>, value: int)
    requires NonNegative(lots) && 0 < value < Held(Every, lots)
    requires Split(lots, value, Held(Every, lots)).Done? && Split(lots, value, Held(Every, lots)).spent < value
    ensures value - Split(lots, value, Held(Every, lots)).spent <= |lots| - 1
  {
    hide Proportion, ShareOf;
    var total := Held(Every, lots);
    var r := Split(lots, value, total);
    ShortfallBound(lots, value, total);
    CancelFactor(value, r.spent + |r.kept|, total);
    KeptAtMost(lots, value, total);
  }

  lemma {:induction false} KeptAtMost(lots: seq<Lot>, value: int, total: int)
    requires total > 0 && Split(lots, value, total).Done?
    ensures |Split(lots, value, total).kept| <= |lots|
  {
    hide Proportion, ShareOf;
    if lots != [] {
      KeptAtMost(lots[..|lots| - 1], value, total);
    }
  }
}
