/**
 * When "one stockholder per chromo" holds in the BYB contract, and when it does not.
 */
module BybExclusive {
  import opened BybLots
  import opened BybPayment
  import opened BybLedger
  import opened BybInvariant
  import opened BybTheorems

  // ----- one stockholder per chromo -------------------------------------------------------

  /** No stockholder lists white. */
  ghost predicate HoldersColoured(s: Ledger) {
    forall a :: a in s.holders ==> !Lists(LotsOf(s, a), WHITE)
  }

  /** No account lists a chromo twice and no two stockholders share one. */
  ghost predicate ChromosExclusive(s: Ledger) {
    && (forall a :: a in s.lots ==> NoRepeat(s.lots[a], {}))
    && (forall a, b, c ::
          a in s.holders && b in s.holders && a != b && Lists(LotsOf(s, a), c) ==> !Lists(LotsOf(s, b), c))
  }

  lemma ColouredIsExclusive(s: Ledger)
    requires Inv(s) && HoldersColoured(s)
    ensures ChromosExclusive(s)
  {
    forall a | a in s.lots ensures NoRepeat(s.lots[a], {}) {
      SoundOf(s, a);
      var l := s.lots[a];
      assert forall i :: 0 <= i < |l| ==> Lists(l, l[i].chromo);
    }
    forall a, b, c | a in s.holders && b in s.holders && a != b && Lists(LotsOf(s, a), c)
      ensures !Lists(LotsOf(s, b), c)
    {
    }
  }

  /** The sender's first lot of the chromo is worth at least the value. */
  predicate Covers(lots: seq<Lot>, c: Chromo, value: int) {
    var i := IndexOf(lots, c);
    i < |lots| && lots[i].value >= value
  }

  /**
   * The calls that put white into a stockholder's list: a black hole paying a
   * stockholder by chromo, and the issue after the last uint64 chromo.
   */
  predicate WhiteReachesHolder(s: Ledger, sender: Address, op: Op) {
    match op
    case TransferByChromo(c, to, value) =>
      && value > 0 && sender != to
      && RoleOf(s, sender) == Hole && RoleOf(s, to) == StockHolder
      && Lists(LotsOf(s, to), c) && Covers(LotsOf(s, sender), c, value)
    case NewStockHolder(holder, value) =>
      && sender == s.owner && 0 < value < BalanceOf(s, s.account)
      && (RoleOf(s, holder) == StockHolder || (RoleOf(s, holder) == User && |s.holders| < MAX_STOCK_HOLDER))
      && LotsOf(s, holder) == [] && s.current == Some(UINT64 - 1)
    case _ => false
  }

  /** These guards are the ones under which the calls succeed. */
  lemma WhiteReachesHolderIff(s: Ledger, sender: Address, op: Op)
    requires Inv(s)
    ensures WhiteReachesHolder(s, sender, op) <==>
              && Step(s, sender, op).Ok?
              && match op
                 case TransferByChromo(c, to, value) => RoleOf(s, sender) == Hole && RoleOf(s, to) == StockHolder
                 case NewStockHolder(holder, value) => LotsOf(s, holder) == [] && s.current == Some(UINT64 - 1)
                 case _ => false
  {
    hide ChainWide, Held, Credit, Endow;
    if LotsOf(s, s.account) == [] {
      NoVaultNoBalance(s);
    }
  }

  lemma NoVaultNoBalance(s: Ledger)
    requires Inv(s) && LotsOf(s, s.account) == []
    ensures BalanceOf(s, s.account) == 0
  {
    BalanceIsHeld(s, s.account);
    HeldEmpty(Every);
  }

  lemma CreditWhite(s: Ledger, to: Address, lot: Lot)
    requires Core(s) && to in s.holders && lot.value > 0
    ensures var l := Credit(LotsOf(s, to), [lot]);
            Lists(l, WHITE) <==> Lists(LotsOf(s, to), WHITE) || lot.chromo == WHITE
  {
    var old' := LotsOf(s, to);
    SoundOf(s, to);
    CreditShape(old', [lot], {WHITE});
    CreditHeld(Only(WHITE), old', [lot]);
    HeldSingle(Only(WHITE), lot);
    HeldNonNegative(Only(WHITE), old');
    if !Lists(Credit(old', [lot]), WHITE) {
      HeldUnlisted(Credit(old', [lot]), WHITE);
    }
  }

  lemma ByChromoWhite(s: Ledger, sender: Address, c: Chromo, to: Address, value: int)
    requires Inv(s) && HoldersColoured(s) && TransferByChromoStep(s, sender, c, to, value).Ok?
    ensures HoldersColoured(TransferByChromoStep(s, sender, c, to, value).state)
       <==> !(RoleOf(s, sender) == Hole && RoleOf(s, to) == StockHolder)
  {
    hide ChainWide, Held, DebitChromo, Credit;
    var s' := TransferByChromoStep(s, sender, c, to, value).state;
    DebitChromoFacts(Every, s, sender, c, value);
    var lot := Lot(if RoleOf(s, sender) == Hole then WHITE else c, value);
    if to in s.holders {
      CreditWhite(s, to, lot);
    }
    forall a | a in s.holders
      ensures Lists(LotsOf(s', a), WHITE) <==> a == to && RoleOf(s, sender) == Hole
    {
    }
  }

  lemma HandoverWhite(s: Ledger, sender: Address, c: Chromo, to: Address)
    requires Inv(s) && HoldersColoured(s) && ChangeChromoOwnershipStep(s, sender, c, to).Ok?
    ensures HoldersColoured(ChangeChromoOwnershipStep(s, sender, c, to).state)
  {
    hide ChainWide, Held;
    var lots := LotsOf(s, sender);
    var i := IndexOf(lots, c);
    SoundOf(s, sender);
    Removed(s, sender, lots, i);
    AppendChromos(LotsOf(s, to), lots[i]);
  }

  lemma IssueWhite(s: Ledger, sender: Address, holder: Address, value: int)
    requires Inv(s) && HoldersColoured(s) && NewStockHolderStep(s, sender, holder, value).Ok?
    ensures HoldersColoured(NewStockHolderStep(s, sender, holder, value).state)
       <==> !(LotsOf(s, holder) == [] && s.current == Some(UINT64 - 1))
  {
    hide ChainWide, Held, Core;
    var s' := NewStockHolderStep(s, sender, holder, value).state;
    var lots := LotsOf(s, holder);
    assert holder in s'.holders;
    if lots == [] {
      var c := NextChromo(s.current).value;
      assert LotsOf(s', holder) == [Lot(c, value)];
      assert [Lot(c, value)][0].chromo == c;
      assert c == WHITE <==> s.current == Some(UINT64 - 1);
    } else {
      SameChromos(lots, lots[0 := lots[0].(value := lots[0].value + value)]);
      assert holder in s.holders;
    }
    forall a | a != holder && a != s.account ensures LotsOf(s', a) == LotsOf(s, a) {
    }
  }

  /**
   * From a state in which no stockholder lists white, exactly these calls break it.
   */
  lemma WhiteStaysOutIff(s: Ledger, sender: Address, op: Op)
    requires Inv(s) && HoldersColoured(s)
    ensures HoldersColoured(After(s, sender, op)) <==> !WhiteReachesHolder(s, sender, op)
  {
    hide ChainWide, Held, Core, DebitLots, DebitChromo, Credit;
    WhiteReachesHolderIff(s, sender, op);
    hide WhiteReachesHolder;
    if Step(s, sender, op).Ok? {
      match op
      case TransferByChromo(c, to, value) => ByChromoWhite(s, sender, c, to, value);
      case NewStockHolder(holder, value) => IssueWhite(s, sender, holder, value);
      case ChangeChromoOwnership(c, to) => HandoverWhite(s, sender, c, to);
      case DelStockHolder(holder) => WithoutFacts(s.holders, holder);
      case _ =>
        forall a | a in s.holders ensures LotsOf(After(s, sender, op), a) == LotsOf(s, a) {
        }
    }
  }

  // ----- exactly when chromos stay exclusive -----------------------------------------------

  /** Another stockholder already lists white. */
  ghost predicate WhiteElsewhere(s: Ledger, receiver: Address) {
    exists b :: b in s.holders && b != receiver && Lists(LotsOf(s, b), WHITE)
  }

  /** The calls that make a chromo shared: white reaches a second stockholder. */
  ghost predicate WhiteReachesSecond(s: Ledger, sender: Address, op: Op) {
    && WhiteReachesHolder(s, sender, op)
    && (op.TransferByChromo? ==> WhiteElsewhere(s, op.to))
    && (op.NewStockHolder? ==> WhiteElsewhere(s, op.holder))
  }

  /** Given the invariant only white among the stockholders matters. */
  lemma ExclusiveIs(s: Ledger)
    requires Inv(s)
    ensures ChromosExclusive(s) <==>
              && (forall a :: a in s.holders ==> NoRepeat(LotsOf(s, a), {}))
              && (forall a :: a in s.holders && Lists(LotsOf(s, a), WHITE) ==> !WhiteElsewhere(s, a))
  {
    hide ChainWide, Held, RolesApart;
    if ChromosExclusive(s) {
      forall a | a in s.holders && Lists(LotsOf(s, a), WHITE) ensures !WhiteElsewhere(s, a) {
      }
    } else {
      assert forall a :: a in s.lots && a !in s.holders ==> SoundList(s, a, s.lots[a]);
    }
  }

  /** Exclusive before, and white nowhere new among the stockholders: exclusive after. */
  lemma StaysExclusive(s: Ledger, s': Ledger)
    requires Inv(s) && ChromosExclusive(s) && Inv(s')
    requires forall a :: a in s'.holders ==> NoRepeat(LotsOf(s', a), {})
    requires forall a :: a in s'.holders && Lists(LotsOf(s', a), WHITE) ==> a in s.holders && Lists(LotsOf(s, a), WHITE)
    ensures ChromosExclusive(s')
  {
    hide Inv;
    ExclusiveIs(s);
    ExclusiveIs(s');
    hide ChromosExclusive;
    forall a | a in s'.holders && Lists(LotsOf(s', a), WHITE) ensures !WhiteElsewhere(s', a) {
      assert !WhiteElsewhere(s, a);
    }
  }

  /** White newly at one stockholder: exclusive after exactly if it is nowhere else. */
  lemma ExclusiveIffNotElsewhere(s: Ledger, s': Ledger, receiver: Address)
    requires Inv(s) && ChromosExclusive(s) && Inv(s')
    requires forall a :: a in s'.holders ==> NoRepeat(LotsOf(s', a), {})
    requires receiver in s'.holders && Lists(LotsOf(s', receiver), WHITE)
    requires forall a :: a != receiver ==>
               && (a in s'.holders <==> a in s.holders)
               && (a in s.holders ==> (Lists(LotsOf(s', a), WHITE) <==> Lists(LotsOf(s, a), WHITE)))
    ensures ChromosExclusive(s') <==> !WhiteElsewhere(s, receiver)
  {
    hide Inv;
    ExclusiveIs(s);
    ExclusiveIs(s');
    hide ChromosExclusive;
    assert WhiteElsewhere(s', receiver) <==> WhiteElsewhere(s, receiver);
    forall a | a in s'.holders && a != receiver && Lists(LotsOf(s', a), WHITE) && WhiteElsewhere(s', a)
      ensures WhiteElsewhere(s, receiver)
    {
    }
  }

  lemma ExclusiveList(s: Ledger, a: Address)
    requires ChromosExclusive(s)
    ensures NoRepeat(LotsOf(s, a), {})
  {
  }

  /** Lists that a payment by chromo leaves with stockholders. */
  lemma ByChromoLists(s: Ledger, sender: Address, c: Chromo, to: Address, value: int, a: Address)
    requires Inv(s) && ChromosExclusive(s) && TransferByChromoStep(s, sender, c, to, value).Ok? && a in s.holders
    ensures var l := LotsOf(TransferByChromoStep(s, sender, c, to, value).state, a);
            && NoRepeat(l, {})
            && (a != to ==> Lists(l, WHITE) ==> Lists(LotsOf(s, a), WHITE))
            && (a != to && a != sender ==> l == LotsOf(s, a))
            && (a == to ==> (Lists(l, WHITE) <==> Lists(LotsOf(s, to), WHITE) || RoleOf(s, sender) == Hole))
  {
    hide ChainWide, Held, DebitChromo, Credit, ChromosExclusive;
    ExclusiveList(s, a);
    DebitChromoFacts(Every, s, sender, c, value);
    var lot := Lot(if RoleOf(s, sender) == Hole then WHITE else c, value);
    if a == to {
      SoundOf(s, to);
      CreditWhite(s, to, lot);
      CreditShape(LotsOf(s, to), [lot], {});
    } else if a == sender {
      DrawnNoRepeat(LotsOf(s, sender), c, value, true);
    }
  }

  lemma DrawnNoRepeat(lots: seq<Lot>, c: Chromo, value: int, keepEmpty: bool)
    requires NoRepeat(lots, {}) && DebitChromo(lots, c, value, keepEmpty).Some?
    ensures NoRepeat(DebitChromo(lots, c, value, keepEmpty).value, {})
  {
    var i := IndexOf(lots, c);
    SameChromos(lots, lots[i := lots[i].(value := lots[i].value - value)]);
  }

  /** After a payment by chromo nothing changes for the stockholders other than its two parties. */
  lemma ByChromoElsewhere(s: Ledger, s': Ledger, sender: Address, c: Chromo, to: Address, value: int)
    requires Inv(s) && ChromosExclusive(s) && TransferByChromoStep(s, sender, c, to, value) == Ok(s')
    requires RoleOf(s, sender) == Hole && RoleOf(s, to) == StockHolder
    ensures s'.holders == s.holders && to in s.holders && Lists(LotsOf(s', to), WHITE)
    ensures forall a :: a in s.holders ==> NoRepeat(LotsOf(s', a), {})
    ensures forall a :: a in s.holders && a != to ==> (Lists(LotsOf(s', a), WHITE) <==> Lists(LotsOf(s, a), WHITE))
  {
    hide ChainWide, Held, DebitChromo, Credit, ChromosExclusive, Core;
    forall a | a in s.holders
      ensures NoRepeat(LotsOf(s', a), {})
      ensures a != to ==> LotsOf(s', a) == LotsOf(s, a)
      ensures a == to ==> Lists(LotsOf(s', a), WHITE)
    {
      ByChromoLists(s, sender, c, to, value, a);
    }
  }

  lemma ByChromoExclusive(s: Ledger, sender: Address, c: Chromo, to: Address, value: int)
    requires Inv(s) && ChromosExclusive(s) && TransferByChromoStep(s, sender, c, to, value).Ok?
    ensures ChromosExclusive(TransferByChromoStep(s, sender, c, to, value).state)
       <==> !(RoleOf(s, sender) == Hole && RoleOf(s, to) == StockHolder && WhiteElsewhere(s, to))
  {
    hide ChainWide, Held, DebitChromo, Credit, ChromosExclusive, Core, WhiteElsewhere, NoRepeat, Lists;
    var s' := TransferByChromoStep(s, sender, c, to, value).state;
    TransferByChromoKeeps(s, sender, c, to, value);
    if RoleOf(s, sender) == Hole && RoleOf(s, to) == StockHolder {
      ByChromoElsewhere(s, s', sender, c, to, value);
      ExclusiveIffNotElsewhere(s, s', to);
    } else {
      forall a | a in s.holders
        ensures NoRepeat(LotsOf(s', a), {})
        ensures Lists(LotsOf(s', a), WHITE) ==> Lists(LotsOf(s, a), WHITE)
      {
        ByChromoLists(s, sender, c, to, value, a);
      }
      StaysExclusive(s, s');
    }
  }

  /** The list an issue leaves with its stockholder. */
  lemma IssuedList(s: Ledger, sender: Address, holder: Address, value: int)
    requires Inv(s) && ChromosExclusive(s) && NewStockHolderStep(s, sender, holder, value).Ok?
    ensures var s', lots := NewStockHolderStep(s, sender, holder, value).state, LotsOf(s, holder);
            && holder in s'.holders && NoRepeat(LotsOf(s', holder), {})
            && (lots != [] ==> holder in s.holders && (Lists(LotsOf(s', holder), WHITE) <==> Lists(lots, WHITE)))
            && (lots == [] ==> (Lists(LotsOf(s', holder), WHITE) <==> s.current == Some(UINT64 - 1)))
            && (forall a :: a != holder ==>
                  (a in s'.holders <==> a in s.holders) && (a in s.holders ==> LotsOf(s', a) == LotsOf(s, a)))
  {
    hide ChainWide, Held, Core, ChromosExclusive;
    ExclusiveList(s, holder);
    var s', lots := NewStockHolderStep(s, sender, holder, value).state, LotsOf(s, holder);
    if lots == [] {
      var c := NextChromo(s.current).value;
      assert LotsOf(s', holder) == [Lot(c, value)];
      assert [Lot(c, value)][0].chromo == c;
      assert c == WHITE <==> s.current == Some(UINT64 - 1);
    } else {
      SameChromos(lots, lots[0 := lots[0].(value := lots[0].value + value)]);
    }
  }

  lemma IssueExclusive(s: Ledger, sender: Address, holder: Address, value: int)
    requires Inv(s) && ChromosExclusive(s) && NewStockHolderStep(s, sender, holder, value).Ok?
    ensures ChromosExclusive(NewStockHolderStep(s, sender, holder, value).state)
       <==> !(LotsOf(s, holder) == [] && s.current == Some(UINT64 - 1) && WhiteElsewhere(s, holder))
  {
    hide ChainWide, Held, Core, ChromosExclusive, NoRepeat, Lists, RolesApart, NewStockHolderStep, WhiteElsewhere;
    var s' := NewStockHolderStep(s, sender, holder, value).state;
    NewStockHolderKeeps(s, sender, holder, value);
    IssuedList(s, sender, holder, value);
    forall a | a in s'.holders ensures NoRepeat(LotsOf(s', a), {}) {
      if a != holder {
        ExclusiveList(s, a);
      }
    }
    if LotsOf(s, holder) == [] && s.current == Some(UINT64 - 1) {
      ExclusiveIffNotElsewhere(s, s', holder);
    } else {
      StaysExclusive(s, s');
    }
  }

  /** A handover moves the chromo, so white among the stockholders stays with one of them. */
  lemma HandoverLists(s: Ledger, sender: Address, c: Chromo, to: Address)
    requires Inv(s) && ChromosExclusive(s) && ChangeChromoOwnershipStep(s, sender, c, to).Ok?
    ensures var s' := ChangeChromoOwnershipStep(s, sender, c, to).state;
            && s'.holders == s.holders && sender in s.holders && to in s.holders
            && NoRepeat(LotsOf(s', sender), {}) && NoRepeat(LotsOf(s', to), {})
            && (Lists(LotsOf(s', sender), WHITE) <==> Lists(LotsOf(s, sender), WHITE) && c != WHITE)
            && (Lists(LotsOf(s', to), WHITE) <==> Lists(LotsOf(s, to), WHITE) || c == WHITE)
            && (c == WHITE ==> !WhiteElsewhere(s, sender))
            && (forall a :: a != sender && a != to ==> LotsOf(s', a) == LotsOf(s, a))
  {
    hide ChainWide, Held, Core;
    var lots := LotsOf(s, sender);
    var i := IndexOf(lots, c);
    ExclusiveList(s, sender);
    ExclusiveList(s, to);
    RemovedOnce(lots, i);
    AppendChromos(LotsOf(s, to), lots[i]);
  }

  lemma RemovedOnce(l: seq<Lot>, i: nat)
    requires i < |l| && NoRepeat(l, {})
    ensures var l' := l[..i] + l[i + 1..];
            NoRepeat(l', {}) && forall c :: Lists(l', c) <==> Lists(l, c) && c != l[i].chromo
  {
    var l' := l[..i] + l[i + 1..];
    forall c ensures Lists(l', c) <==> Lists(l, c) && c != l[i].chromo {
      if Lists(l', c) {
        var j :| 0 <= j < |l'| && l'[j].chromo == c;
        assert l[if j < i then j else j + 1].chromo == c;
      }
      if Lists(l, c) && c != l[i].chromo {
        var j :| 0 <= j < |l| && l[j].chromo == c;
        assert l'[if j < i then j else j - 1].chromo == c;
      }
    }
  }

  lemma HandoverExclusive(s: Ledger, sender: Address, c: Chromo, to: Address)
    requires Inv(s) && ChromosExclusive(s) && ChangeChromoOwnershipStep(s, sender, c, to).Ok?
    ensures ChromosExclusive(ChangeChromoOwnershipStep(s, sender, c, to).state)
  {
    hide ChainWide, Held, Core, ChromosExclusive, NoRepeat, Lists, RolesApart;
    var s' := ChangeChromoOwnershipStep(s, sender, c, to).state;
    ChangeChromoOwnershipKeeps(s, sender, c, to);
    HandoverLists(s, sender, c, to);
    forall a | a in s'.holders ensures NoRepeat(LotsOf(s', a), {}) {
      ExclusiveList(s, a);
    }
    if c == WHITE {
      ExclusiveIs(s');
      forall a | a in s'.holders && Lists(LotsOf(s', a), WHITE) ensures !WhiteElsewhere(s', a) {
        assert a == to;
      }
    } else {
      StaysExclusive(s, s');
    }
  }

  /**
   * A call makes a chromo shared or doubled exactly when it puts white into a
   * stockholder's list while another stockholder lists white already.
   */
  lemma ExclusiveIff(s: Ledger, sender: Address, op: Op)
    requires Inv(s) && ChromosExclusive(s)
    ensures ChromosExclusive(After(s, sender, op)) <==> !WhiteReachesSecond(s, sender, op)
  {
    hide ChainWide, Held, Core, DebitLots, DebitChromo, Credit, ChromosExclusive, WhiteElsewhere;
    WhiteReachesHolderIff(s, sender, op);
    hide WhiteReachesHolder;
    if Step(s, sender, op).Ok? {
      match op
      case TransferByChromo(c, to, value) => ByChromoExclusive(s, sender, c, to, value);
      case NewStockHolder(holder, value) => IssueExclusive(s, sender, holder, value);
      case ChangeChromoOwnership(c, to) => HandoverExclusive(s, sender, c, to);
      case _ => OtherExclusive(s, sender, op);
    }
  }

  lemma OtherExclusive(s: Ledger, sender: Address, op: Op)
    requires Inv(s) && ChromosExclusive(s) && Step(s, sender, op).Ok?
    requires !op.TransferByChromo? && !op.NewStockHolder? && !op.ChangeChromoOwnership?
    ensures ChromosExclusive(After(s, sender, op))
  {
    hide ChainWide, Held, Core, DebitLots, DebitChromo, Credit, ChromosExclusive, NoRepeat, Lists;
    var s' := After(s, sender, op);
    StepKeeps(s, sender, op);
    if op.DelStockHolder? {
      WithoutFacts(s.holders, op.holder);
    }
    forall a | a in s'.holders ensures a in s.holders && LotsOf(s', a) == LotsOf(s, a) && NoRepeat(LotsOf(s', a), {}) {
      ExclusiveList(s, a);
    }
    StaysExclusive(s, s');
  }

  /**
   * Chromos are exclusive all along a run exactly when no call of it brings white to a
   * second stockholder.
   */
  lemma {:induction false} ExclusiveRunIff(owner: Address, account: Address, contract: Address, calls: seq<Call>)
    ensures ExclusiveAlong(Deployed(owner, account, contract), calls)
       <==> NeverSecond(Deployed(owner, account, contract), calls)
  {
    hide ExclusiveAlong, NeverSecond, Inv;
    var s := Deployed(owner, account, contract);
    if calls == [] {
      DeployedIsExclusive(owner, account, contract);
    } else {
      var n := |calls| - 1;
      ExclusiveRunIff(owner, account, contract, calls[..n]);
      EveryRunKeeps(owner, account, contract, calls[..n]);
      AlongLast(s, calls);
      if ExclusiveAlong(s, calls[..n]) {
        ExclusiveIff(Run(s, calls[..n]), calls[n].sender, calls[n].op);
      }
    }
  }

  /** Chromos are exclusive after every call of the run. */
  ghost predicate ExclusiveAlong(s: Ledger, calls: seq<Call>) {
    forall k :: 0 <= k <= |calls| ==> ChromosExclusive(Run(s, calls[..k]))
  }

  /** No call of the run brings white to a second stockholder. */
  ghost predicate NeverSecond(s: Ledger, calls: seq<Call>) {
    forall i :: 0 <= i < |calls| ==> !WhiteReachesSecond(Run(s, calls[..i]), calls[i].sender, calls[i].op)
  }

  lemma AlongLast(s: Ledger, calls: seq<Call>)
    requires calls != []
    ensures var n := |calls| - 1;
            var s1 := Run(s, calls[..n]);
            && (ExclusiveAlong(s, calls) <==>
                  ExclusiveAlong(s, calls[..n]) && ChromosExclusive(After(s1, calls[n].sender, calls[n].op)))
            && (NeverSecond(s, calls) <==>
                  NeverSecond(s, calls[..n]) && !WhiteReachesSecond(s1, calls[n].sender, calls[n].op))
            && (ExclusiveAlong(s, calls[..n]) ==> ChromosExclusive(s1))
  {
    hide ChromosExclusive, WhiteReachesSecond, Run, After;
    var n := |calls| - 1;
    var most := calls[..n];
    RunNext(s, calls, n);
    assert calls[..n + 1] == calls;
    assert most[..n] == most;
    forall k | 0 <= k <= n ensures most[..k] == calls[..k] {
    }
    assert ExclusiveAlong(s, calls) <==>
           ExclusiveAlong(s, most) && ChromosExclusive(Run(s, calls[..n + 1]));
  }

  lemma DeployedIsExclusive(owner: Address, account: Address, contract: Address)
    ensures ExclusiveAlong(Deployed(owner, account, contract), [])
    ensures NeverSecond(Deployed(owner, account, contract), [])
  {
  }

  // ----- and when it does not hold ------------------------------------------------------------

  /** Owner "o", contract account "c", contract "k"; stockholders "a" and "b"; black hole "h". */
  const LEAK: seq<Call> := [
    Call("o", Init(MIN_TOTAL_SUPPLY, true, true, Free)),
    Call("o", NewBlackHole("h")),
    Call("o", NewStockHolder("a", 9)),
    Call("o", NewStockHolder("b", 9)),
    Call("a", TransferByChromo(1, "h", 5)),
    Call("h", TransferByChromo(1, "a", 5)),
    Call("b", TransferByChromo(2, "h", 5)),
    Call("h", TransferByChromo(2, "b", 5)),
    Call("a", ChangeChromoOwnership(WHITE, "b"))]

  /** What the run needs to know of a state on its way. */
  predicate Stage(s: Ledger, holders: seq<Address>, vault: int, a: seq<Lot>, b: seq<Lot>, h: seq<Lot>) {
    && s.owner == "o" && s.account == "c" && s.contract == "k" && s.token.Some?
    && s.holders == holders && s.holes == ["h"]
    && s.current == (match |holders| case 0 => None case n => Some(n))
    && LotsOf(s, "c") == [Lot(WHITE, vault)] && BalanceOf(s, "c") == vault
    && LotsOf(s, "a") == a && LotsOf(s, "b") == b && LotsOf(s, "h") == h
  }

  lemma RunNext(s: Ledger, calls: seq<Call>, n: nat)
    requires n < |calls|
    ensures Run(s, calls[..n + 1]) == After(Run(s, calls[..n]), calls[n].sender, calls[n].op)
    ensures Run(s, calls[..0]) == s
  {
    assert calls[..n + 1][..n] == calls[..n];
  }

  lemma LeakInit(s: Ledger)
    requires s == Deployed("o", "c", "k")
    ensures var s1 := After(s, "o", Init(MIN_TOTAL_SUPPLY, true, true, Free));
            var s2 := After(s1, "o", NewBlackHole("h"));
            Stage(s2, [], MIN_TOTAL_SUPPLY, [], [], [])
  {
    HeldSingle(Every, Lot(WHITE, MIN_TOTAL_SUPPLY));
    var s1 := After(s, "o", Init(MIN_TOTAL_SUPPLY, true, true, Free));
    assert RoleOf(s1, "h") == User;
  }

  lemma LeakIssueFirst(s: Ledger, v: int)
    requires v > 9 && Stage(s, [], v, [], [], [])
    ensures Stage(After(s, "o", NewStockHolder("a", 9)), ["a"], v - 9, [Lot(1, 9)], [], [])
  {
    hide Held;
    HeldSingle(Every, Lot(WHITE, v - 9));
    assert RoleOf(s, "a") == User;
    assert [Lot(WHITE, v)][0 := Lot(WHITE, v).(value := v - 9)] == [Lot(WHITE, v - 9)];
  }

  lemma LeakIssueSecond(s: Ledger, v: int)
    requires v > 9 && Stage(s, ["a"], v, [Lot(1, 9)], [], [])
    ensures Stage(After(s, "o", NewStockHolder("b", 9)), ["a", "b"], v - 9, [Lot(1, 9)], [Lot(2, 9)], [])
  {
    hide Held;
    HeldSingle(Every, Lot(WHITE, v - 9));
    assert RoleOf(s, "b") == User;
    assert [Lot(WHITE, v)][0 := Lot(WHITE, v).(value := v - 9)] == [Lot(WHITE, v - 9)];
  }

  lemma LeakPayHole(s: Ledger, v: int)
    requires Stage(s, ["a", "b"], v, [Lot(1, 9)], [Lot(2, 9)], [])
    ensures Stage(After(s, "a", TransferByChromo(1, "h", 5)), ["a", "b"], v, [Lot(1, 4)], [Lot(2, 9)], [Lot(1, 5)])
  {
    hide Credit, DebitChromo, Held, IndexOf;
    assert RoleOf(s, "h") == Hole && RoleOf(s, "a") == StockHolder;
    CreditNew([], Lot(1, 5));
    DebitSingle(Lot(1, 9), 5, true);
  }

  lemma LeakBack(s: Ledger, v: int)
    requires Stage(s, ["a", "b"], v, [Lot(1, 4)], [Lot(2, 9)], [Lot(1, 5)])
    ensures Stage(After(s, "h", TransferByChromo(1, "a", 5)),
                  ["a", "b"], v, [Lot(1, 4), Lot(WHITE, 5)], [Lot(2, 9)], [])
  {
    hide Credit, DebitChromo, Held, IndexOf;
    assert RoleOf(s, "h") == Hole && RoleOf(s, "a") == StockHolder;
    assert [Lot(1, 4)][0].chromo == 1;
    CreditNew([Lot(1, 4)], Lot(WHITE, 5));
    DebitSingle(Lot(1, 5), 5, false);
  }

  lemma LeakPayHoleAgain(s: Ledger, v: int)
    requires Stage(s, ["a", "b"], v, [Lot(1, 4), Lot(WHITE, 5)], [Lot(2, 9)], [])
    ensures Stage(After(s, "b", TransferByChromo(2, "h", 5)),
                  ["a", "b"], v, [Lot(1, 4), Lot(WHITE, 5)], [Lot(2, 4)], [Lot(2, 5)])
  {
    hide Credit, DebitChromo, Held, IndexOf;
    assert RoleOf(s, "h") == Hole && RoleOf(s, "b") == StockHolder;
    CreditNew([], Lot(2, 5));
    DebitSingle(Lot(2, 9), 5, true);
  }

  lemma LeakBackAgain(s: Ledger, v: int)
    requires Stage(s, ["a", "b"], v, [Lot(1, 4), Lot(WHITE, 5)], [Lot(2, 4)], [Lot(2, 5)])
    ensures Stage(After(s, "h", TransferByChromo(2, "b", 5)), ["a", "b"], v,
                  [Lot(1, 4), Lot(WHITE, 5)], [Lot(2, 4), Lot(WHITE, 5)], [])
  {
    hide Credit, DebitChromo, Held, IndexOf;
    assert RoleOf(s, "h") == Hole && RoleOf(s, "b") == StockHolder;
    assert [Lot(2, 4)][0].chromo == 2;
    CreditNew([Lot(2, 4)], Lot(WHITE, 5));
    DebitSingle(Lot(2, 5), 5, false);
  }

  lemma LeakHandover(s: Ledger, v: int, h: seq<Lot>)
    requires Stage(s, ["a", "b"], v, [Lot(1, 4), Lot(WHITE, 5)], [Lot(2, 4), Lot(WHITE, 5)], h)
    ensures LotsOf(After(s, "a", ChangeChromoOwnership(WHITE, "b")), "b") == [Lot(2, 4), Lot(WHITE, 5), Lot(WHITE, 5)]
  {
    assert RoleOf(s, "a") == StockHolder && RoleOf(s, "b") == StockHolder;
    assert [Lot(1, 4), Lot(WHITE, 5)][1].chromo == WHITE;
    assert IndexOf([Lot(1, 4), Lot(WHITE, 5)], WHITE) == 1;
  }

  lemma DebitSingle(lot: Lot, v: int, keepEmpty: bool)
    requires v <= lot.value
    ensures DebitChromo([lot], lot.chromo, v, keepEmpty)
         == Some(if v == lot.value && !keepEmpty then [] else [lot.(value := lot.value - v)])
  {
    var l := [lot];
    assert IndexOf(l, lot.chromo) == 0;
    assert l[..0] + l[1..] == [];
    assert l[0 := lot.(value := lot.value - v)] == [lot.(value := lot.value - v)];
  }

  /** A single lot of a new chromo is appended. */
  lemma CreditNew(old': seq<Lot>, lot: Lot)
    requires lot.value != 0 && !Lists(old', lot.chromo)
    ensures Credit(old', [lot]) == old' + [lot]
  {
    CreditOldNew(old', lot);
    assert [lot][..0] == [];
    assert NonZero([lot]) == [lot];
  }

  lemma {:induction false} CreditOldNew(old': seq<Lot>, lot: Lot)
    requires !Lists(old', lot.chromo)
    ensures CreditOld(old', [lot]) == Credited(old', [lot])
  {
    if old' != [] {
      var n := |old'| - 1;
      assert old'[n].chromo != lot.chromo;
      forall i | 0 <= i < n ensures old'[..n][i].chromo != lot.chromo {
        assert old'[i].chromo != lot.chromo;
      }
      CreditOldNew(old'[..n], lot);
      assert old' == old'[..n] + [old'[n]];
    }
  }

  /**
   * The white chromo can end up twice in a stockholder's list: this run is accepted
   * call by call and reaches such a state.
   */
  lemma WhiteTwiceIsReachable()
    ensures !ChromosExclusive(Run(Deployed("o", "c", "k"), LEAK))
    ensures LotsOf(Run(Deployed("o", "c", "k"), LEAK), "b") == [Lot(2, 4), Lot(WHITE, 5), Lot(WHITE, 5)]
  {
    hide After, Stage, ChromosExclusive;
    var s0 := Deployed("o", "c", "k");
    var v := MIN_TOTAL_SUPPLY - 18;
    forall n | 0 <= n < 9
      ensures Run(s0, LEAK[..n + 1]) == After(Run(s0, LEAK[..n]), LEAK[n].sender, LEAK[n].op)
    {
      RunNext(s0, LEAK, n);
    }
    RunNext(s0, LEAK, 0);
    LeakInit(s0);
    assert Stage(Run(s0, LEAK[..2]), [], MIN_TOTAL_SUPPLY, [], [], []);
    LeakIssueFirst(Run(s0, LEAK[..2]), MIN_TOTAL_SUPPLY);
    LeakIssueSecond(Run(s0, LEAK[..3]), MIN_TOTAL_SUPPLY - 9);
    LeakPayHole(Run(s0, LEAK[..4]), v);
    LeakBack(Run(s0, LEAK[..5]), v);
    LeakPayHoleAgain(Run(s0, LEAK[..6]), v);
    LeakBackAgain(Run(s0, LEAK[..7]), v);
    LeakHandover(Run(s0, LEAK[..8]), v, []);
    assert LEAK[..9] == LEAK;
    WhiteTwice(Run(s0, LEAK));
  }

  lemma WhiteTwice(s: Ledger)
    requires LotsOf(s, "b") == [Lot(2, 4), Lot(WHITE, 5), Lot(WHITE, 5)]
    ensures !ChromosExclusive(s)
  {
    var l := s.lots["b"];
    assert l[1].chromo == l[2].chromo;
  }
}
