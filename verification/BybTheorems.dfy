/**
 * What BYB transfers conserve, and what every call moves.
 */
module BybTheorems {
  import opened BybLots
  import opened BybPayment
  import opened BybLedger
  import opened BybInvariant

  // ----- conservation ---------------------------------------------------------------

  predicate IsTransfer(op: Op) {
    op.Transfer? || op.TransferByChromo?
  }

  /**
   * A successful transfer by anyone but a black hole leaves the chain-wide total of
   * every chromo unchanged.
   */
  lemma TransferConserves(s: Ledger, sender: Address, op: Op, f: Filter)
    requires Inv(s) && IsTransfer(op) && RoleOf(s, sender) != Hole && Step(s, sender, op).Ok?
    ensures ChainWide(f, After(s, sender, op).lots) == ChainWide(f, s.lots)
  {
    hide ChainWide, Held, DebitLots, DebitChromo, Deliver, Core, SoundLists;
    SenderPays(s, sender, op, f);
  }

  /** The lots that leave the sender's list in a successful transfer of `value`. */
  lemma SenderPays(s: Ledger, sender: Address, op: Op, f: Filter)
    requires Inv(s) && IsTransfer(op) && Step(s, sender, op).Ok?
    ensures var s' := After(s, sender, op);
            && Held(Every, LotsOf(s', sender)) == Held(Every, LotsOf(s, sender)) - op.value
            && ChainWide(f, s'.lots) - ChainWide(f, s.lots)
               == if RoleOf(s, sender) == Hole
                  then (if Counted(f, WHITE) then op.value else 0)
                       - (Held(f, LotsOf(s, sender)) - Held(f, LotsOf(s', sender)))
                  else 0
  {
    hide ChainWide, Held, DebitLots, DebitChromo, Credit;
    var lots := LotsOf(s, sender);
    SoundOf(s, sender);
    HeldSingle(f, Lot(WHITE, op.value));
    match op {
      case Transfer(to, value) =>
        DebitIsExact(f, lots, value);
        var r := DebitLots(lots, value);
        DeliverSums(f, s, sender, r.kept, to, if RoleOf(s, sender) == Hole then [Lot(WHITE, value)] else r.out);
      case TransferByChromo(c, to, value) =>
        DebitChromoFacts(f, s, sender, c, value);
        DebitChromoFacts(Every, s, sender, c, value);
        HeldSingle(f, Lot(c, value));
        var kept := DebitChromo(lots, c, value, sender in s.holders).value;
        DeliverSums(f, s, sender, kept, to, [Lot(if RoleOf(s, sender) == Hole then WHITE else c, value)]);
    }
  }

  /**
   * A transfer by a black hole bleaches: exactly `value` leaves the hole's lots and
   * exactly `value` of white appears elsewhere; every chromo moves only by that, and the
   * hole's own amount of no chromo grows.
   */
  lemma HoleTransferBleaches(s: Ledger, hole: Address, op: Op, f: Filter)
    requires Inv(s) && IsTransfer(op) && RoleOf(s, hole) == Hole && Step(s, hole, op).Ok?
    ensures var s' := After(s, hole, op);
            && Held(Every, LotsOf(s', hole)) == Held(Every, LotsOf(s, hole)) - op.value
            && ChainWide(Every, s'.lots) == ChainWide(Every, s.lots)
            && ChainWide(f, s'.lots) == ChainWide(f, s.lots)
               - (Held(f, LotsOf(s, hole)) - Held(f, LotsOf(s', hole)))
               + (if Counted(f, WHITE) then op.value else 0)
    ensures Held(f, LotsOf(After(s, hole, op), hole)) <= Held(f, LotsOf(s, hole))
  {
    hide ChainWide, Held, DebitLots, DebitChromo, Deliver, Core, SoundLists;
    SenderPays(s, hole, op, f);
    SenderPays(s, hole, op, Every);
    SenderShrinks(s, hole, op, f);
  }

  lemma SenderShrinks(s: Ledger, sender: Address, op: Op, f: Filter)
    requires Inv(s) && IsTransfer(op) && Step(s, sender, op).Ok?
    ensures Held(f, LotsOf(After(s, sender, op), sender)) <= Held(f, LotsOf(s, sender))
  {
    hide ChainWide, Held, DebitLots, DebitChromo, Credit, Core;
    var lots := LotsOf(s, sender);
    match op {
      case Transfer(to, value) =>
        SoundOf(s, sender);
        DebitIsExact(f, lots, value);
        DebitShape(lots, value);
        HeldNonNegative(f, DebitLots(lots, value).out);
      case TransferByChromo(c, to, value) =>
        DebitChromoFacts(f, s, sender, c, value);
    }
  }

  // ----- who pays whom ------------------------------------------------------------------

  /** What a successful call moves; None is outside the supply. */
  datatype Flow = Flow(from: Option<Address>, to: Option<Address>, value: int)

  function FlowOf(s: Ledger, sender: Address, op: Op): Flow {
    match op
    case Init(supply, _, _, _) => Flow(None, Some(s.account), supply)
    case NewStockHolder(holder, value) => Flow(Some(s.account), Some(holder), value)
    case Transfer(to, value) => Flow(Some(sender), Some(to), value)
    case TransferByChromo(_, to, value) => Flow(Some(sender), Some(to), value)
    case AddSupply(value) => Flow(None, Some(s.account), value)
    case Burn(value) => Flow(Some(s.account), None, value)
    case ChangeChromoOwnership(c, to) =>
      var l := LotsOf(s, sender);
      var i := IndexOf(l, c);
      Flow(Some(sender), Some(to), if i < |l| then l[i].value else 0)
    case _ => Flow(None, None, 0)
  }

  function Part(a: Address, who: Option<Address>, value: int): int {
    if who == Some(a) then value else 0
  }

  /** The stored balances before and after differ by the flow, and by nothing else. */
  predicate Moved(s: Ledger, s': Ledger, f: Flow, a: Address) {
    BalanceOf(s', a) == BalanceOf(s, a) + Part(a, f.to, f.value) - Part(a, f.from, f.value)
  }

  lemma BalanceIsHeld(s: Ledger, a: Address)
    requires Core(s)
    ensures BalanceOf(s, a) == Held(Every, LotsOf(s, a))
  {
    HeldEmpty(Every);
  }

  lemma DeliverMoves(s: Ledger, sender: Address, kept: seq<Lot>, to: Address, out: seq<Lot>, value: int, a: Address)
    requires Core(s) && sender != to
    requires Held(Every, kept) == Held(Every, LotsOf(s, sender)) - value && Held(Every, out) == value
    ensures Moved(s, Deliver(s, sender, kept, to, out), Flow(Some(sender), Some(to), value), a)
  {
    hide Held, Credit, Core;
    BalanceIsHeld(s, sender);
    BalanceIsHeld(s, to);
    CreditHeld(Every, LotsOf(s, to), out);
  }

  lemma TransferMoves(s: Ledger, sender: Address, op: Op, a: Address)
    requires Inv(s) && IsTransfer(op) && Step(s, sender, op).Ok?
    ensures Moved(s, After(s, sender, op), FlowOf(s, sender, op), a)
  {
    hide Held, DebitLots, DebitChromo, Deliver, ChainWide, Moved;
    var lots := LotsOf(s, sender);
    HeldSingle(Every, Lot(WHITE, op.value));
    match op {
      case Transfer(to, value) =>
        SoundOf(s, sender);
        DebitIsExact(Every, lots, value);
        var r := DebitLots(lots, value);
        DeliverMoves(s, sender, r.kept, to, if RoleOf(s, sender) == Hole then [Lot(WHITE, value)] else r.out, value, a);
      case TransferByChromo(c, to, value) =>
        DebitChromoFacts(Every, s, sender, c, value);
        HeldSingle(Every, Lot(c, value));
        var kept := DebitChromo(lots, c, value, sender in s.holders).value;
        DeliverMoves(s, sender, kept, to, [Lot(if RoleOf(s, sender) == Hole then WHITE else c, value)], value, a);
    }
  }

  lemma SupplyMoves(s: Ledger, delta: int, a: Address)
    requires Inv(s) && s.token.Some?
    ensures BalanceOf(ChangeSupply(s, delta), a) == BalanceOf(s, a) + if a == s.account then delta else 0
  {
    var own := LotsOf(s, s.account);
    BalanceIsHeld(s, s.account);
    HeldUpdate(Every, own, 0, own[0].value + delta);
    hide Held, Core, ChainWide;
  }

  lemma InitMoves(s: Ledger, sender: Address, supply: int, add: bool, burn: bool, names: Registration, a: Address)
    requires Inv(s) && InitStep(s, sender, supply, add, burn, names).Ok?
    ensures BalanceOf(InitStep(s, sender, supply, add, burn, names).state, a)
         == BalanceOf(s, a) + if a == s.account then supply else 0
  {
    HeldSingle(Every, Lot(WHITE, supply));
    hide Held, ChainWide;
  }

  lemma EndowBalances(s: Ledger, holder: Address, lots: seq<Lot>, value: int, a: Address)
    requires LotsOf(s, s.account) != [] && holder != s.account
    ensures var own := LotsOf(s, s.account);
            BalanceOf(Endow(s, holder, lots, value), a) ==
              if a == s.account then Held(Every, own[0 := own[0].(value := BalanceOf(s, a) - value)])
              else if a == holder then Held(Every, lots)
              else BalanceOf(s, a)
  {
    hide Held;
  }

  lemma EndowMoves(s: Ledger, holder: Address, lots: seq<Lot>, value: int, a: Address)
    requires Core(s) && VaultIsWhite(s) && s.token.Some? && holder != s.account
    requires Held(Every, lots) == Held(Every, LotsOf(s, holder)) + value
    ensures Moved(s, Endow(s, holder, lots, value), Flow(Some(s.account), Some(holder), value), a)
  {
    hide Held, Core, Endow, BalanceOf;
    VaultBalance(s);
    EndowBalances(s, holder, lots, value, a);
    BalanceIsHeld(s, a);
    HeldUpdate(Every, LotsOf(s, s.account), 0, BalanceOf(s, s.account) - value);
  }

  lemma IssueMoves(s: Ledger, sender: Address, holder: Address, value: int, a: Address)
    requires Inv(s) && NewStockHolderStep(s, sender, holder, value).Ok?
    ensures Moved(s, NewStockHolderStep(s, sender, holder, value).state, Flow(Some(s.account), Some(holder), value), a)
  {
    hide Core, ChainWide, Held, SoundList, NoClash, Endow, Moved;
    var lots := LotsOf(s, holder);
    HeldEmpty(Every);
    if lots == [] {
      var c := NextChromo(s.current).value;
      var s1 := Enlist(s.(current := Some(c)), holder);
      EnlistedCore(s, c, holder);
      HeldSingle(Every, Lot(c, value));
      EndowMoves(s1, holder, [Lot(c, value)], value, a);
      assert Moved(s1, Endow(s1, holder, [Lot(c, value)], value), Flow(Some(s.account), Some(holder), value), a);
      MovedFrame(s, s1, Endow(s1, holder, [Lot(c, value)], value), Flow(Some(s.account), Some(holder), value), a);
    } else {
      HeldUpdate(Every, lots, 0, lots[0].value + value);
      EndowMoves(s, holder, lots[0 := lots[0].(value := lots[0].value + value)], value, a);
    }
  }

  lemma MovedFrame(s: Ledger, s1: Ledger, s': Ledger, f: Flow, a: Address)
    requires Moved(s1, s', f, a) && s1.balances == s.balances
    ensures Moved(s, s', f, a)
  {
  }

  lemma HandoverMoves(s: Ledger, sender: Address, c: Chromo, to: Address, a: Address)
    requires Inv(s) && ChangeChromoOwnershipStep(s, sender, c, to).Ok?
    ensures Moved(s, ChangeChromoOwnershipStep(s, sender, c, to).state,
                  FlowOf(s, sender, ChangeChromoOwnership(c, to)), a)
  {
    hide Core, ChainWide, Held;
    var lots := LotsOf(s, sender);
    var i := IndexOf(lots, c);
    BalanceIsHeld(s, sender);
    BalanceIsHeld(s, to);
    HeldRemove(Every, lots, i);
    HeldAppend(Every, LotsOf(s, to), [lots[i]]);
    HeldSingle(Every, lots[i]);
  }

  /**
   * Every successful call moves exactly its value from the payer to the payee: all other
   * balances are unchanged, and the supply changes only by what comes in or goes out.
   */
  lemma EveryCallMovesExactly(s: Ledger, sender: Address, op: Op, a: Address)
    requires Inv(s) && Step(s, sender, op).Ok?
    ensures Moved(s, After(s, sender, op), FlowOf(s, sender, op), a)
    ensures var f := FlowOf(s, sender, op);
            Supply(After(s, sender, op)) == Supply(s) + (if f.from.None? then f.value else 0)
                                                      - (if f.to.None? then f.value else 0)
  {
    hide Core, ChainWide, Held, DebitLots, DebitChromo, Credit, RolesApart;
    match op
    case Init(supply, add, burn, names) => InitMoves(s, sender, supply, add, burn, names, a);
    case NewStockHolder(holder, value) => IssueMoves(s, sender, holder, value, a);
    case Transfer(to, value) => TransferMoves(s, sender, op, a);
    case TransferByChromo(c, to, value) => TransferMoves(s, sender, op, a);
    case AddSupply(value) => SupplyMoves(s, value, a);
    case Burn(value) => SupplyMoves(s, -value, a);
    case ChangeChromoOwnership(c, to) => HandoverMoves(s, sender, c, to, a);
    case _ =>
  }

  /** A transfer succeeds exactly when roles allow it and the sender holds enough. */
  lemma TransferSucceedsIff(s: Ledger, sender: Address, to: Address, value: int)
    requires Inv(s)
    ensures TransferStep(s, sender, to, value).Ok?
       <==> && value > 0 && sender != to
            && RoleOf(s, to) in {Hole, User} && RoleOf(s, sender) in {Hole, User}
            && value <= Held(Every, LotsOf(s, sender))
    ensures TransferStep(s, sender, to, value) != Fail(InvalidBalanceError)
  {
    hide Held, DebitLots, Deliver;
    SoundOf(s, sender);
    if value > 0 && RoleOf(s, sender) in {Hole, User} {
      DebitIsExact(Every, LotsOf(s, sender), value);
    }
  }
}
