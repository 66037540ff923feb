/**
 * What holds in every reachable state of the BYB contract, and what a transfer
 * conserves.
 */
module BybInvariant {
  import opened BybLots
  import opened BybPayment
  import opened BybLedger
  import opened Sums

  // ----- chain-wide sums ----------------------------------------------------------

  ghost function HeldBy(f: Filter, lots: map<Address, seq<Lot>>): map<Address, int> {
    map a | a in lots :: Held(f, lots[a])
  }

  /** The amount held over all accounts, in all chromos or in one. */
  ghost function ChainWide(f: Filter, lots: map<Address, seq<Lot>>): int {
    Sum(HeldBy(f, lots))
  }

  lemma {:induction false} ChainWideSet(f: Filter, lots: map<Address, seq<Lot>>, a: Address, l: seq<Lot>)
    ensures ChainWide(f, lots[a := l]) == ChainWide(f, lots) - Held(f, LotsIn(lots, a)) + Held(f, l)
  {
    SumSet(HeldBy(f, lots), a, Held(f, l));
    assert HeldBy(f, lots[a := l]) == HeldBy(f, lots)[a := Held(f, l)];
  }

  // ----- the invariant ----------------------------------------------------------------

  function Supply(s: Ledger): int {
    if s.token.Some? then s.token.value.supply else 0
  }

  predicate InCommittee(s: Ledger, a: Address) {
    a == s.owner || a == s.account || a == s.contract
  }

  /** Committee, black holes and stockholders are disjoint; at most 100 stockholders. */
  ghost predicate RolesApart(s: Ledger) {
    && |s.holders| <= MAX_STOCK_HOLDER
    && (forall i, j :: 0 <= i < j < |s.holders| ==> s.holders[i] != s.holders[j])
    && (forall i, j :: 0 <= i < j < |s.holes| ==> s.holes[i] != s.holes[j])
    && (forall a :: a in s.holders ==> !InCommittee(s, a) && a !in s.holes)
    && (forall a :: a in s.holes ==> !InCommittee(s, a))
  }

  /** A coloured chromo in circulation is one that was issued. */
  predicate Issued(current: Option<Chromo>, c: Chromo) {
    c == WHITE || (current.Some? && (current.value == 0 || c <= current.value))
  }

  /** The chromos an account may list twice: white, for a stockholder only. */
  function Twins(s: Ledger, a: Address): set<Chromo> {
    if a in s.holders then {WHITE} else {}
  }

  ghost predicate SoundList(s: Ledger, a: Address, l: seq<Lot>) {
    && NonNegative(l)
    && NoRepeat(l, Twins(s, a))
    && (a !in s.holders && a != s.account ==> Positive(l))
    && (forall c :: Lists(l, c) ==> Issued(s.current, c))
  }

  ghost predicate SoundLists(s: Ledger) {
    forall a :: a in s.lots ==> SoundList(s, a, s.lots[a])
  }

  /** Every stored token balance is the sum of the account's own lots. */
  ghost predicate BooksAgree(s: Ledger) {
    && s.balances.Keys == s.lots.Keys
    && (forall a :: a in s.lots ==> s.balances[a] == Held(Every, s.lots[a]))
  }

  /** No coloured chromo is with two stockholders. */
  ghost predicate ColoursApart(s: Ledger) {
    forall a, b, c ::
      (a in s.holders && b in s.holders && a != b && c != WHITE && Lists(LotsOf(s, a), c))
      ==> !Lists(LotsOf(s, b), c)
  }

  /** From Init on the contract's account holds exactly one lot, a white one. */
  ghost predicate VaultIsWhite(s: Ledger) {
    if s.token.Some?
    then |LotsOf(s, s.account)| == 1 && LotsOf(s, s.account)[0].chromo == WHITE
    else s.lots == map[]
  }

  /** The part of the invariant that concerns the lot lists. */
  ghost predicate Core(s: Ledger) {
    SoundLists(s) && BooksAgree(s) && ColoursApart(s)
  }

  ghost predicate Inv(s: Ledger) {
    && RolesApart(s)
    && Core(s)
    && VaultIsWhite(s)
    && ChainWide(Every, s.lots) == Supply(s)
    && (s.current.Some? ==> s.current.value < UINT64)
  }

  // ----- writing one list ---------------------------------------------------------------

  /** No coloured chromo of the list is with another stockholder. */
  ghost predicate NoClash(s: Ledger, a: Address, l: seq<Lot>) {
    a in s.holders ==>
      forall b, c :: b in s.holders && b != a && c != WHITE && Lists(l, c) ==> !Lists(LotsOf(s, b), c)
  }

  lemma WithLotsSound(s: Ledger, a: Address, l: seq<Lot>)
    requires SoundLists(s) && BooksAgree(s) && SoundList(s, a, l)
    ensures SoundLists(WithLots(s, a, l)) && BooksAgree(WithLots(s, a, l))
  {
    var s' := WithLots(s, a, l);
    forall b | b in s'.lots ensures SoundList(s', b, s'.lots[b]) {
      assert b != a ==> SoundList(s, b, s.lots[b]);
      assert Twins(s', b) == Twins(s, b);
    }
  }

  lemma WithLotsApart(s: Ledger, a: Address, l: seq<Lot>)
    requires ColoursApart(s) && NoClash(s, a, l)
    ensures ColoursApart(WithLots(s, a, l))
  {
    var s' := WithLots(s, a, l);
    forall x | x != a ensures LotsOf(s', x) == LotsOf(s, x) {
    }
  }

  lemma WithLotsKeeps(s: Ledger, a: Address, l: seq<Lot>)
    requires Core(s) && SoundList(s, a, l) && NoClash(s, a, l)
    ensures Core(WithLots(s, a, l))
  {
    hide SoundLists, BooksAgree, ColoursApart, SoundList, NoClash, WithLots;
    WithLotsSound(s, a, l);
    WithLotsApart(s, a, l);
  }

  lemma SoundOf(s: Ledger, a: Address)
    requires Core(s)
    ensures SoundList(s, a, LotsOf(s, a))
    ensures NoClash(s, a, LotsOf(s, a))
  {
  }

  /** Fewer chromos clash no more, and values may change. */
  lemma NoClashSubset(s: Ledger, a: Address, l: seq<Lot>, l': seq<Lot>)
    requires NoClash(s, a, l) && forall c :: Lists(l', c) ==> Lists(l, c) || c == WHITE
    ensures NoClash(s, a, l')
  {
  }

  lemma Revalued(s: Ledger, a: Address, l: seq<Lot>, i: nat, v: int)
    requires i < |l| && SoundList(s, a, l) && NoClash(s, a, l)
    requires if a in s.holders || a == s.account then v >= 0 else v > 0
    ensures var l' := l[i := l[i].(value := v)];
            && SoundList(s, a, l') && NoClash(s, a, l')
            && (forall c :: Lists(l', c) <==> Lists(l, c))
  {
    SameChromos(l, l[i := l[i].(value := v)]);
  }

  /** The lot lists' part does not look at the token record, the owner or the holes. */
  lemma CoreFrame(s: Ledger, s': Ledger)
    requires Core(s)
    requires s'.lots == s.lots && s'.balances == s.balances && s'.account == s.account
    requires s'.holders == s.holders && s'.current == s.current
    ensures Core(s')
  {
    forall a | a in s'.lots ensures SoundList(s', a, s'.lots[a]) {
      assert SoundList(s, a, s.lots[a]);
    }
    forall a, b, c | a in s.holders && b in s.holders && a != b && c != WHITE && Lists(LotsOf(s', a), c)
      ensures !Lists(LotsOf(s', b), c)
    {
      assert Lists(LotsOf(s, a), c);
    }
  }

  // ----- each method keeps the invariant ---------------------------------------------------

  lemma InitKeeps(s: Ledger, sender: Address, supply: int, add: bool, burn: bool, names: Registration)
    requires Inv(s) && InitStep(s, sender, supply, add, burn, names).Ok?
    ensures Inv(InitStep(s, sender, supply, add, burn, names).state)
  {
    var s0 := s.(token := Some(Token(supply, add, burn)));
    var l := [Lot(WHITE, supply)];
    hide Core, SoundList, NoClash, RolesApart, Held, ChainWide;
    CoreFrame(s, s0);
    RolesFrame(s, s0);
    WhiteIsSound(s0, supply);
    WithLotsKeeps(s0, s.account, l);
    ChainWideSet(Every, s0.lots, s.account, l);
    HeldSingle(Every, l[0]);
    HeldEmpty(Every);
    RolesFrame(s, WithLots(s0, s.account, l));
  }

  lemma WhiteIsSound(s: Ledger, supply: int)
    requires RolesApart(s) && supply >= 0
    ensures SoundList(s, s.account, [Lot(WHITE, supply)]) && NoClash(s, s.account, [Lot(WHITE, supply)])
  {
  }

  lemma NewBlackHoleKeeps(s: Ledger, sender: Address, hole: Address)
    requires Inv(s) && NewBlackHoleStep(s, sender, hole).Ok?
    ensures Inv(NewBlackHoleStep(s, sender, hole).state)
  {
    CoreFrame(s, s.(holes := s.holes + [hole]));
    hide Core, ChainWide;
  }

  lemma SetOwnerKeeps(s: Ledger, sender: Address, newOwner: Address)
    requires Inv(s) && SetOwnerStep(s, sender, newOwner).Ok?
    ensures Inv(SetOwnerStep(s, sender, newOwner).state)
  {
    CoreFrame(s, s.(owner := newOwner));
    hide Core, ChainWide;
  }

  lemma {:induction false} WithoutFacts(l: seq<Address>, a: Address)
    requires forall i, j :: 0 <= i < j < |l| ==> l[i] != l[j]
    ensures var r := Without(l, a);
            && (forall x :: x in r <==> x in l && x != a)
            && |r| <= |l|
            && (forall i, j :: 0 <= i < j < |r| ==> r[i] != r[j])
  {
    if l != [] {
      WithoutFacts(l[1..], a);
      assert forall x :: x in l <==> x == l[0] || x in l[1..];
      assert l[0] !in l[1..];
    }
  }

  lemma DelStockHolderKeeps(s: Ledger, sender: Address, holder: Address)
    requires Inv(s) && DelStockHolderStep(s, sender, holder).Ok?
    ensures Inv(DelStockHolderStep(s, sender, holder).state)
  {
    hide Without, ChainWide;
    var s' := DelStockHolderStep(s, sender, holder).state;
    WithoutFacts(s.holders, holder);
    assert Core(s') by {
      DismissedCore(s, s', holder);
    }
    hide Core;
  }

  /** An account without lots may leave the list of stockholders. */
  lemma DismissedCore(s: Ledger, s': Ledger, holder: Address)
    requires Core(s) && LotsOf(s, holder) == []
    requires s' == s.(holders := s'.holders)
    requires forall a :: a in s'.holders <==> a in s.holders && a != holder
    ensures Core(s')
  {
    forall a | a in s'.lots ensures SoundList(s', a, s'.lots[a]) {
      assert SoundList(s, a, s.lots[a]);
      assert a != holder ==> Twins(s', a) == Twins(s, a);
    }
    forall a, b, c | a in s'.holders && b in s'.holders && a != b && c != WHITE && Lists(LotsOf(s', a), c)
      ensures !Lists(LotsOf(s', b), c)
    {
      assert Lists(LotsOf(s, a), c);
    }
  }

  lemma ChangeSupplyKeeps(s: Ledger, delta: int)
    requires Inv(s) && s.token.Some? && LotsOf(s, s.account)[0].value + delta >= 0
    ensures Inv(ChangeSupply(s, delta))
  {
    hide Core, SoundList, NoClash, ChainWide, Held;
    var own := LotsOf(s, s.account);
    var own' := own[0 := own[0].(value := own[0].value + delta)];
    var s0 := s.(token := Some(s.token.value.(supply := s.token.value.supply + delta)));
    CoreFrame(s, s0);
    SoundOf(s0, s.account);
    Revalued(s0, s.account, own, 0, own[0].value + delta);
    WithLotsKeeps(s0, s.account, own');
    ChainWideSet(Every, s.lots, s.account, own');
    HeldUpdate(Every, own, 0, own[0].value + delta);
  }

  // ----- stockholders ------------------------------------------------------------------------

  lemma NewStockHolderKeeps(s: Ledger, sender: Address, holder: Address, value: int)
    requires Inv(s) && NewStockHolderStep(s, sender, holder, value).Ok?
    ensures Inv(NewStockHolderStep(s, sender, holder, value).state)
  {
    hide Core, ChainWide, Held, SoundList, NoClash, WithLots;
    var lots := LotsOf(s, holder);
    if lots == [] {
      var c := NextChromo(s.current).value;
      var s0 := s.(current := Some(c));
      var s1 := Enlist(s0, holder);
      EnlistedCore(s, c, holder);
      HeldSingle(Every, Lot(c, value));
      assert Held(Every, lots) == 0 by { HeldEmpty(Every); }
      EndowKeeps(s1, holder, [Lot(c, value)], value);
    } else {
      var lots' := lots[0 := lots[0].(value := lots[0].value + value)];
      SoundOf(s, holder);
      SoundValues(s, holder, lots);
      Revalued(s, holder, lots, 0, lots[0].value + value);
      HeldUpdate(Every, lots, 0, lots[0].value + value);
      EndowKeeps(s, holder, lots', value);
    }
  }

  lemma SoundValues(s: Ledger, a: Address, l: seq<Lot>)
    requires SoundList(s, a, l)
    ensures NonNegative(l)
  {
  }

  /** A newly issued chromo is with nobody. */
  lemma EnlistedCore(s: Ledger, c: Chromo, holder: Address)
    requires Core(s) && NextChromo(s.current) == Some(c) && LotsOf(s, holder) == []
    requires s.current.Some? ==> s.current.value < UINT64
    ensures var s1 := Enlist(s.(current := Some(c)), holder);
            && Core(s1)
            && (forall v :: v > 0 ==> SoundList(s1, holder, [Lot(c, v)]) && NoClash(s1, holder, [Lot(c, v)]))
  {
    var s1 := Enlist(s.(current := Some(c)), holder);
    forall a | a in s1.lots ensures SoundList(s1, a, s1.lots[a]) {
      assert SoundList(s, a, s.lots[a]);
      assert a != holder ==> Twins(s1, a) == Twins(s, a);
    }
    assert ColoursApart(s1) by {
      EnlistedApart(s, s1, holder);
    }
    forall v | v > 0 ensures SoundList(s1, holder, [Lot(c, v)]) && NoClash(s1, holder, [Lot(c, v)]) {
      IssuedToNobodyElse(s, s1, c, holder, v);
    }
  }

  lemma EnlistedApart(s: Ledger, s1: Ledger, holder: Address)
    requires ColoursApart(s) && LotsOf(s, holder) == [] && s1.lots == s.lots
    requires s1.holders == s.holders || s1.holders == s.holders + [holder]
    ensures ColoursApart(s1)
  {
    forall a, b, d | a in s1.holders && b in s1.holders && a != b && d != WHITE && Lists(LotsOf(s1, a), d)
      ensures !Lists(LotsOf(s1, b), d)
    {
      assert Lists(LotsOf(s, a), d);
    }
  }

  lemma IssuedToNobodyElse(s: Ledger, s1: Ledger, c: Chromo, holder: Address, v: int)
    requires Core(s) && NextChromo(s.current) == Some(c) && v > 0 && s1.lots == s.lots && s1.current == Some(c)
    requires s.current.Some? ==> s.current.value < UINT64
    ensures SoundList(s1, holder, [Lot(c, v)]) && NoClash(s1, holder, [Lot(c, v)])
  {
    forall b, d | b in s1.holders && b != holder && d != WHITE && Lists([Lot(c, v)], d)
      ensures !Lists(LotsOf(s1, b), d)
    {
      SoundOf(s, b);
    }
  }

  lemma VaultBalance(s: Ledger)
    requires Core(s) && VaultIsWhite(s) && s.token.Some?
    ensures Held(Every, LotsOf(s, s.account)) == BalanceOf(s, s.account) == LotsOf(s, s.account)[0].value
  {
    var own := LotsOf(s, s.account);
    HeldSingle(Every, own[0]);
    assert own == [own[0]];
  }

  lemma EndowCore(s: Ledger, holder: Address, lots: seq<Lot>, value: int)
    requires Core(s) && LotsOf(s, s.account) != [] && holder != s.account
    requires value < BalanceOf(s, s.account)
    requires SoundList(s, holder, lots) && NoClash(s, holder, lots)
    ensures Core(Endow(s, holder, lots, value))
  {
    hide Core, Held, SoundList, NoClash, WithLots;
    var own, rest := LotsOf(s, s.account), BalanceOf(s, s.account) - value;
    var s1 := WithLots(s, holder, lots);
    WithLotsFacts(s, holder, lots);
    WithLotsKeeps(s, holder, lots);
    SoundOf(s1, s.account);
    Revalued(s1, s.account, own, 0, rest);
    WithLotsKeeps(s1, s.account, own[0 := own[0].(value := rest)]);
  }

  lemma WithLotsFacts(s: Ledger, a: Address, l: seq<Lot>)
    ensures var s' := WithLots(s, a, l);
            && s' == s.(lots := s'.lots, balances := s'.balances)
            && s'.lots == s.lots[a := l]
            && (forall b :: LotsOf(s', b) == if b == a then l else LotsOf(s, b))
  {
  }

  lemma EndowSums(f: Filter, s: Ledger, holder: Address, lots: seq<Lot>, value: int)
    requires Core(s) && VaultIsWhite(s) && s.token.Some? && holder != s.account
    ensures ChainWide(f, Endow(s, holder, lots, value).lots)
         == ChainWide(f, s.lots) - Held(f, LotsOf(s, holder)) + Held(f, lots)
            - if Counted(f, WHITE) then value else 0
  {
    hide Core, Held, ChainWide, WithLots;
    var own, rest := LotsOf(s, s.account), BalanceOf(s, s.account) - value;
    WithLotsFacts(s, holder, lots);
    VaultBalance(s);
    ChainWideSet(f, s.lots, holder, lots);
    var s1 := WithLots(s, holder, lots);
    var own' := own[0 := own[0].(value := rest)];
    WithLotsFacts(s1, s.account, own');
    ChainWideSet(f, s1.lots, s.account, own');
    HeldUpdate(f, own, 0, rest);
  }

  lemma EndowKeeps(s: Ledger, holder: Address, lots: seq<Lot>, value: int)
    requires RolesApart(s) && Core(s) && VaultIsWhite(s) && s.token.Some?
    requires ChainWide(Every, s.lots) == Supply(s) && (s.current.Some? ==> s.current.value < UINT64)
    requires holder != s.account && 0 < value < BalanceOf(s, s.account)
    requires SoundList(s, holder, lots) && NoClash(s, holder, lots)
    requires Held(Every, lots) == Held(Every, LotsOf(s, holder)) + value
    ensures Inv(Endow(s, holder, lots, value))
  {
    hide Core, ChainWide, Held, SoundList, NoClash, RolesApart;
    EndowCore(s, holder, lots, value);
    EndowSums(Every, s, holder, lots, value);
    RolesFrame(s, Endow(s, holder, lots, value));
  }

  lemma RolesFrame(s: Ledger, s': Ledger)
    requires RolesApart(s)
    requires s'.owner == s.owner && s'.account == s.account && s'.contract == s.contract
    requires s'.holders == s.holders && s'.holes == s.holes
    ensures RolesApart(s')
  {
  }

  lemma ChangeChromoOwnershipKeeps(s: Ledger, sender: Address, c: Chromo, to: Address)
    requires Inv(s) && ChangeChromoOwnershipStep(s, sender, c, to).Ok?
    ensures Inv(ChangeChromoOwnershipStep(s, sender, c, to).state)
  {
    hide Core, ChainWide, Held, SoundList, NoClash;
    var lots := LotsOf(s, sender);
    var i := IndexOf(lots, c);
    var kept, lot := lots[..i] + lots[i + 1..], lots[i];
    SoundOf(s, sender);
    Removed(s, sender, lots, i);
    WithLotsKeeps(s, sender, kept);
    var s1 := WithLots(s, sender, kept);
    var old' := LotsOf(s, to);
    SoundOf(s1, to);
    HandedOver(s, sender, to, i);
    WithLotsKeeps(s1, to, old' + [lot]);
    ChainWideSet(Every, s.lots, sender, kept);
    ChainWideSet(Every, s1.lots, to, old' + [lot]);
    HeldRemove(Every, lots, i);
    HeldAppend(Every, old', [lot]);
    HeldSingle(Every, lot);
  }

  lemma Removed(s: Ledger, a: Address, l: seq<Lot>, i: nat)
    requires i < |l| && SoundList(s, a, l) && NoClash(s, a, l)
    ensures var l' := l[..i] + l[i + 1..];
            && SoundList(s, a, l') && NoClash(s, a, l')
            && (forall c :: Lists(l', c) ==> Lists(l, c))
            && (l[i].chromo !in Twins(s, a) ==> !Lists(l', l[i].chromo))
  {
    var l' := l[..i] + l[i + 1..];
    forall c | Lists(l', c) ensures Lists(l, c) && (c == l[i].chromo ==> c in Twins(s, a)) {
      var j :| 0 <= j < |l'| && l'[j].chromo == c;
      var k := if j < i then j else j + 1;
      assert l[k].chromo == c;
    }
  }

  /** A lot that a stockholder hands over is new to the other's list, unless it is white. */
  lemma HandedOver(s: Ledger, from: Address, to: Address, i: nat)
    requires Core(s) && from in s.holders && to in s.holders && from != to && i < |LotsOf(s, from)|
    ensures var lots := LotsOf(s, from);
            var s1 := WithLots(s, from, lots[..i] + lots[i + 1..]);
            var l := LotsOf(s, to) + [lots[i]];
            SoundList(s1, to, l) && NoClash(s1, to, l)
  {
    var lots, old' := LotsOf(s, from), LotsOf(s, to);
    var kept, lot := lots[..i] + lots[i + 1..], lots[i];
    var s1 := WithLots(s, from, kept);
    SoundOf(s, from);
    SoundOf(s, to);
    Removed(s, from, lots, i);
    assert Lists(lots, lot.chromo);
    AppendChromos(old', lot);
    var l := old' + [lot];
    assert NoRepeat(l, {WHITE}) by {
      assert lot.chromo != WHITE ==> !Lists(old', lot.chromo);
    }
    forall b, c | b in s1.holders && b != to && c != WHITE && Lists(l, c) ensures !Lists(LotsOf(s1, b), c) {
      if b == from {
        assert LotsOf(s1, b) == kept;
      } else {
        assert LotsOf(s1, b) == LotsOf(s, b);
      }
    }
  }

  // ----- payments ---------------------------------------------------------------------------

  /** The white lots a black hole hands out, or the lots it was asked for. */
  ghost predicate Deliverable(s: Ledger, to: Address, out: seq<Lot>) {
    && NonNegative(out) && NoRepeat(out, {})
    && (forall c :: Lists(out, c) ==> Issued(s.current, c))
    && (to in s.holders ==> forall c :: Lists(out, c) ==> Lists(LotsOf(s, to), c) || c == WHITE)
  }

  lemma Receivable(s: Ledger, to: Address, out: seq<Lot>)
    requires Core(s) && Deliverable(s, to, out) && to != s.account
    ensures var l := Credit(LotsOf(s, to), out);
            SoundList(s, to, l) && NoClash(s, to, l)
  {
    var old' := LotsOf(s, to);
    SoundOf(s, to);
    CreditShape(old', out, Twins(s, to));
    NoClashSubset(s, to, old', if to in s.holders then Credit(old', out) else old');
  }

  lemma DeliverKeeps(s: Ledger, sender: Address, kept: seq<Lot>, to: Address, out: seq<Lot>)
    requires Inv(s) && sender != to && sender != s.account && to != s.account
    requires SoundList(s, sender, kept) && NoClash(s, sender, kept) && Deliverable(s, to, out)
    requires Held(Every, LotsOf(s, sender)) == Held(Every, kept) + Held(Every, out)
    requires s.token.Some?
    ensures Inv(Deliver(s, sender, kept, to, out))
  {
    hide Core, ChainWide, Held, SoundList, NoClash, Credit, RolesApart;
    var s1 := WithLots(s, sender, kept);
    RolesFrame(s, Deliver(s, sender, kept, to, out));
    WithLotsKeeps(s, sender, kept);
    Receivable(s1, to, out);
    WithLotsKeeps(s1, to, Credit(LotsOf(s, to), out));
    DeliverSums(Every, s, sender, kept, to, out);
  }

  lemma DeliverSums(f: Filter, s: Ledger, sender: Address, kept: seq<Lot>, to: Address, out: seq<Lot>)
    requires sender != to
    ensures ChainWide(f, Deliver(s, sender, kept, to, out).lots)
         == ChainWide(f, s.lots) - Held(f, LotsOf(s, sender)) + Held(f, kept) + Held(f, out)
  {
    hide ChainWide, Held, Credit;
    var s1 := WithLots(s, sender, kept);
    ChainWideSet(f, s.lots, sender, kept);
    ChainWideSet(f, s1.lots, to, Credit(LotsOf(s, to), out));
    CreditHeld(f, LotsOf(s, to), out);
  }

  lemma TransferKeeps(s: Ledger, sender: Address, to: Address, value: int)
    requires Inv(s) && TransferStep(s, sender, to, value).Ok?
    ensures Inv(TransferStep(s, sender, to, value).state)
  {
    hide ChainWide, Held, DebitLots, Deliver;
    var lots := LotsOf(s, sender);
    var r := DebitLots(lots, value);
    SoundOf(s, sender);
    DebitIsExact(Every, lots, value);
    DebitShape(lots, value);
    assert lots != [] by { HeldEmpty(Every); }
    var out := if RoleOf(s, sender) == Hole then [Lot(WHITE, value)] else r.out;
    HeldSingle(Every, Lot(WHITE, value));
    assert SoundList(s, sender, r.kept) && NoClash(s, sender, r.kept);
    assert Deliverable(s, to, out);
    DeliverKeeps(s, sender, r.kept, to, out);
  }

  lemma DebitChromoFacts(f: Filter, s: Ledger, a: Address, c: Chromo, value: int)
    requires Core(s) && a != s.account && value > 0
    requires DebitChromo(LotsOf(s, a), c, value, a in s.holders).Some?
    ensures var kept := DebitChromo(LotsOf(s, a), c, value, a in s.holders).value;
            && Held(f, kept) == Held(f, LotsOf(s, a)) - (if Counted(f, c) then value else 0)
            && SoundList(s, a, kept) && NoClash(s, a, kept)
            && (forall x :: Lists(kept, x) ==> Lists(LotsOf(s, a), x))
    ensures Lists(LotsOf(s, a), c) && Issued(s.current, c)
  {
    hide Held;
    var lots := LotsOf(s, a);
    var i := IndexOf(lots, c);
    SoundOf(s, a);
    assert Lists(lots, c);
    if a !in s.holders && lots[i].value == value {
      HeldRemove(f, lots, i);
      Removed(s, a, lots, i);
    } else {
      HeldUpdate(f, lots, i, lots[i].value - value);
      Revalued(s, a, lots, i, lots[i].value - value);
    }
  }

  lemma TransferByChromoKeeps(s: Ledger, sender: Address, c: Chromo, to: Address, value: int)
    requires Inv(s) && TransferByChromoStep(s, sender, c, to, value).Ok?
    ensures Inv(TransferByChromoStep(s, sender, c, to, value).state)
  {
    hide ChainWide, Held, DebitChromo, Deliver, Core, SoundList, NoClash;
    var role := RoleOf(s, sender);
    assert role == StockHolder <==> sender in s.holders;
    DebitChromoFacts(Every, s, sender, c, value);
    var kept := DebitChromo(LotsOf(s, sender), c, value, role == StockHolder).value;
    var lot := Lot(if role == Hole then WHITE else c, value);
    HeldSingle(Every, lot);
    assert LotsOf(s, sender) != [];
    assert Deliverable(s, to, [lot]);
    DeliverKeeps(s, sender, kept, to, [lot]);
  }

  // ----- every reachable state --------------------------------------------------------------

  lemma StepKeeps(s: Ledger, sender: Address, op: Op)
    requires Inv(s)
    ensures Inv(After(s, sender, op))
  {
    hide Inv;
    if Step(s, sender, op).Ok? {
      match op
      case Init(supply, add, burn, names) => InitKeeps(s, sender, supply, add, burn, names);
      case NewBlackHole(hole) => NewBlackHoleKeeps(s, sender, hole);
      case NewStockHolder(holder, value) => NewStockHolderKeeps(s, sender, holder, value);
      case DelStockHolder(holder) => DelStockHolderKeeps(s, sender, holder);
      case Transfer(to, value) => TransferKeeps(s, sender, to, value);
      case TransferByChromo(c, to, value) => TransferByChromoKeeps(s, sender, c, to, value);
      case SetOwner(newOwner) => SetOwnerKeeps(s, sender, newOwner);
      case AddSupply(value) => SupplyStepKeeps(s, sender, value);
      case Burn(value) => SupplyStepKeeps(s, sender, value);
      case ChangeChromoOwnership(c, to) => ChangeChromoOwnershipKeeps(s, sender, c, to);
    }
  }

  lemma SupplyStepKeeps(s: Ledger, sender: Address, value: int)
    requires Inv(s)
    ensures AddSupplyStep(s, sender, value).Ok? ==> Inv(AddSupplyStep(s, sender, value).state)
    ensures BurnStep(s, sender, value).Ok? ==> Inv(BurnStep(s, sender, value).state)
  {
    hide ChainWide, Held, ChangeSupply;
    if AddSupplyStep(s, sender, value).Ok? {
      SoundOf(s, s.account);
      ChangeSupplyKeeps(s, value);
    }
    if BurnStep(s, sender, value).Ok? {
      ChangeSupplyKeeps(s, -value);
    }
  }

  /**
   * In every state reachable from the deployed contract the invariant holds; in
   * particular the supply is the sum of all lots over all accounts and every stored
   * balance is the sum of the account's lots.
   */
  lemma {:induction false} EveryRunKeeps(owner: Address, account: Address, contract: Address, calls: seq<Call>)
    ensures Inv(Run(Deployed(owner, account, contract), calls))
  {
    if calls != [] {
      var n := |calls| - 1;
      EveryRunKeeps(owner, account, contract, calls[..n]);
      StepKeeps(Run(Deployed(owner, account, contract), calls[..n]), calls[n].sender, calls[n].op);
    }
  }
}
