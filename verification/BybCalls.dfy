/**
 * Every call of the BYB contract, told from outside: when it succeeds, what becomes of the
 * roles and the token, and what every account then holds in every chromo.
 */
module BybCalls {
  import opened BybLots
  import opened BybPayment
  import opened BybLedger
  import opened BybInvariant
  import opened BybTheorems

  // ----- roles -----------------------------------------------------------------------------

  /** Roles are exclusive, so each is decided by its own list. */
  lemma RoleIs(s: Ledger, a: Address)
    requires RolesApart(s)
    ensures RoleOf(s, a) == Committee <==> a == s.owner || a == s.account || a == s.contract
    ensures RoleOf(s, a) == Hole <==> a in s.holes
    ensures RoleOf(s, a) == StockHolder <==> a in s.holders
  {
  }

  predicate IsUser(s: Ledger, a: Address) {
    a != s.owner && a != s.account && a != s.contract && a !in s.holes && a !in s.holders
  }

  /** The first lot of the chromo is worth at least the value. */
  predicate FirstCovers(lots: seq<Lot>, c: Chromo, value: int) {
    exists i :: 0 <= i < |lots| && lots[i].chromo == c && lots[i].value >= value
                && forall j :: 0 <= j < i ==> lots[j].chromo != c
  }

  /** What each call asks for. */
  ghost predicate Asked(s: Ledger, sender: Address, op: Op) {
    match op
    case Init(supply, _, _, names) =>
      && sender == s.owner && supply >= 1_000_000_000 && s.token.None?
      && (names == Free || names == Other(sender, 0))
    case NewBlackHole(hole) => sender == s.owner && IsUser(s, hole)
    case NewStockHolder(holder, value) =>
      && sender == s.owner && 0 < value < Held(Every, LotsOf(s, s.account))
      && (holder in s.holders || (IsUser(s, holder) && |s.holders| < 100 && LotsOf(s, holder) == []))
      && (LotsOf(s, holder) == [] ==> s.current != Some(0))
    case DelStockHolder(holder) => sender == s.owner && holder in s.holders && LotsOf(s, holder) == [] && s.listed
    case Transfer(to, value) =>
      && value > 0 && sender != to && to !in s.holders && sender !in s.holders
      && to != s.owner && to != s.account && to != s.contract
      && sender != s.owner && sender != s.account && sender != s.contract
      && value <= Held(Every, LotsOf(s, sender))
    case TransferByChromo(c, to, value) =>
      && value > 0 && sender != to
      && to != s.owner && to != s.account && to != s.contract
      && sender != s.owner && sender != s.account && sender != s.contract
      && (to in s.holders ==> Lists(LotsOf(s, to), c))
      && FirstCovers(LotsOf(s, sender), c, value)
    case SetOwner(newOwner) => sender == s.owner && IsUser(s, newOwner) && s.token.Some?
    case AddSupply(value) => value > 0 && sender == s.owner && s.token.Some? && s.token.value.addSupplyEnabled
    case Burn(value) =>
      && value > 0 && sender == s.owner && s.token.Some? && s.token.value.burnEnabled
      && value <= s.token.value.supply && value <= Held(Every, LotsOf(s, s.account))
    case ChangeChromoOwnership(c, to) =>
      sender != to && sender in s.holders && to in s.holders && Lists(LotsOf(s, sender), c)
  }

  /** A call succeeds exactly if it is as asked. */
  lemma CallSucceedsIff(s: Ledger, sender: Address, op: Op)
    requires Inv(s)
    ensures Step(s, sender, op).Ok? <==> Asked(s, sender, op)
  {
    hide Held, ChainWide, Credit, DebitLots, Endow, ChangeSupply, Core, DebitChromo;
    RoleIs(s, sender);
    VaultFacts(s);
    match op
    case Transfer(to, value) =>
      RoleIs(s, to);
      TransferSucceedsIff(s, sender, to, value);
    case TransferByChromo(c, to, value) =>
      RoleIs(s, to);
      FirstCoversIff(LotsOf(s, sender), c, value, RoleOf(s, sender) == StockHolder);
    case NewStockHolder(holder, value) => RoleIs(s, holder);
    case NewBlackHole(hole) => RoleIs(s, hole);
    case SetOwner(newOwner) => RoleIs(s, newOwner);
    case ChangeChromoOwnership(c, to) => RoleIs(s, to);
    case _ =>
  }

  lemma VaultFacts(s: Ledger)
    requires Inv(s)
    ensures BalanceOf(s, s.account) == Held(Every, LotsOf(s, s.account))
    ensures LotsOf(s, s.account) == [] <==> s.token.None?
    ensures LotsOf(s, s.account) == [] ==> Held(Every, LotsOf(s, s.account)) == 0
    ensures s.token.Some? ==> LotsOf(s, s.account)[0].value == Held(Every, LotsOf(s, s.account))
  {
    HeldEmpty(Every);
    BalanceIsHeld(s, s.account);
    if s.token.Some? {
      VaultBalance(s);
    }
    hide Held, ChainWide, Core;
  }

  lemma FirstCoversIff(lots: seq<Lot>, c: Chromo, value: int, keepEmpty: bool)
    ensures DebitChromo(lots, c, value, keepEmpty).Some? <==> FirstCovers(lots, c, value)
  {
    var i := IndexOf(lots, c);
    hide IndexOf;
    if FirstCovers(lots, c, value) {
      var j :| 0 <= j < |lots| && lots[j].chromo == c && lots[j].value >= value
               && forall k :: 0 <= k < j ==> lots[k].chromo != c;
      assert i == j;
    }
  }

  predicate InCommitteeOf(s: Ledger, a: Address) {
    a == s.owner || a == s.account || a == s.contract
  }

  /** The first thing that is wrong with a call that is not as asked. */
  ghost function Reason(s: Ledger, sender: Address, op: Op): Error {
    match op
    case Init(supply, _, _, _) =>
      if sender != s.owner then NoAuthorization else if supply < 1_000_000_000 then InvalidSupply else Initialized
    case NewBlackHole(_) => if sender != s.owner then NoAuthorization else InvalidParameter
    case NewStockHolder(holder, value) =>
      if sender != s.owner then NoAuthorization
      else if value <= 0 || value >= Held(Every, LotsOf(s, s.account)) then InvalidParameter
      else if InCommitteeOf(s, holder) || holder in s.holes then InvalidParameter
      else if holder !in s.holders && |s.holders| >= 100 then TooManyHolders
      else if holder !in s.holders && LotsOf(s, holder) != [] then InvalidParameter
      else Panic
    case DelStockHolder(holder) =>
      if sender != s.owner then NoAuthorization
      else if LotsOf(s, holder) != [] then HolderOwnsByb
      else if !s.listed then NoHolderList else HolderNotFound
    case Transfer(to, value) =>
      if value <= 0 then InvalidParameter
      else if sender == to || to == s.account then TransferToSelf
      else if to in s.holders || InCommitteeOf(s, to) then InvalidParameter
      else if sender in s.holders || InCommitteeOf(s, sender) then InvalidParameter
      else InsufficientBalance
    case TransferByChromo(c, to, value) =>
      if value <= 0 then InvalidParameter
      else if sender == to then TransferToSelf
      else if InCommitteeOf(s, to) || (to in s.holders && !Lists(LotsOf(s, to), c)) then InvalidParameter
      else if InCommitteeOf(s, sender) then InvalidParameter
      else InsufficientBalance
    case SetOwner(newOwner) =>
      if sender != s.owner then NoAuthorization
      else if newOwner == s.owner then TransferToSelf
      else if !IsUser(s, newOwner) then InvalidParameter else InvalidAddr
    case AddSupply(value) =>
      if value <= 0 then InvalidParameter
      else if sender != s.owner then NoAuthorization
      else if s.token.None? then InvalidAddr else CannotAddSupply
    case Burn(value) =>
      if value <= 0 then InvalidParameter
      else if sender != s.owner then NoAuthorization
      else if s.token.None? then InvalidAddr
      else if !s.token.value.burnEnabled then CannotBurn else InsufficientBalance
    case ChangeChromoOwnership(c, to) =>
      if sender == to then TransferToSelf
      else if sender !in s.holders || to !in s.holders then NoAuthorization else ChromoNotOwned
  }

  /** It is the error returned; the one panic is after an exhausted counter. */
  lemma RefusedFor(s: Ledger, sender: Address, op: Op)
    requires Inv(s)
    ensures Step(s, sender, op).Fail? ==> Step(s, sender, op).error == Reason(s, sender, op)
  {
    hide Held, ChainWide, Credit, DebitLots, Endow, ChangeSupply, Core, DebitChromo;
    CallSucceedsIff(s, sender, op);
    RoleIs(s, sender);
    VaultFacts(s);
    match op
    case Transfer(to, value) =>
      RoleIs(s, to);
      TransferSucceedsIff(s, sender, to, value);
    case TransferByChromo(c, to, value) => RoleIs(s, to);
    case NewStockHolder(holder, value) => RoleIs(s, holder);
    case NewBlackHole(hole) => RoleIs(s, hole);
    case SetOwner(newOwner) => RoleIs(s, newOwner);
    case ChangeChromoOwnership(c, to) => RoleIs(s, to);
    case _ =>
  }

  /** What a successful call makes of the roles. */
  lemma RolesAfter(s: Ledger, sender: Address, op: Op, a: Address)
    requires Inv(s) && Step(s, sender, op).Ok?
    ensures var s' := After(s, sender, op);
            && s'.owner == (if op.SetOwner? then op.newOwner else s.owner)
            && s'.account == s.account && s'.contract == s.contract
            && (a in s'.holes <==> a in s.holes || op == NewBlackHole(a))
            && (a in s'.holders <==> (a in s.holders && op != DelStockHolder(a)) || (op.NewStockHolder? && op.holder == a))
            && (s'.listed <==> s.listed || (op.NewStockHolder? && op.holder !in s.holders))
  {
    hide Held, ChainWide, Credit, DebitLots, DebitChromo, Core, LotsOf;
    if op.DelStockHolder? {
      WithoutFacts(s.holders, op.holder);
    }
    if op.NewStockHolder? {
      RoleIs(s, op.holder);
    }
    hide RolesApart, VaultIsWhite, RoleOf;
  }

  /** What a successful call makes of the token and of the chromo counter. */
  lemma TokenAfter(s: Ledger, sender: Address, op: Op)
    requires Inv(s) && Step(s, sender, op).Ok?
    ensures var s' := After(s, sender, op);
            s'.current == if op.NewStockHolder? && LotsOf(s, op.holder) == []
                          then Some(if s.current.None? then 1 else (s.current.value + 1) % 0x1_0000_0000_0000_0000)
                          else s.current
    ensures var t := After(s, sender, op).token;
            match op
            case Init(supply, add, burn, _) => t == Some(Token(supply, add, burn))
            case AddSupply(value) => s.token.Some? && t == Some(s.token.value.(supply := s.token.value.supply + value))
            case Burn(value) => s.token.Some? && t == Some(s.token.value.(supply := s.token.value.supply - value))
            case _ => t == s.token
  {
    hide Held, ChainWide, Credit, DebitLots, DebitChromo, Core, RolesApart, RoleOf, VaultIsWhite;
  }

  // ----- what every account holds -------------------------------------------------------------

  /** A party to a call. */
  predicate Party(s: Ledger, sender: Address, op: Op, a: Address) {
    match op
    case Init(_, _, _, _) => a == s.account
    case NewStockHolder(holder, _) => a == s.account || a == holder
    case Transfer(to, _) => a == sender || a == to
    case TransferByChromo(_, to, _) => a == sender || a == to
    case AddSupply(_) => a == s.account
    case Burn(_) => a == s.account
    case ChangeChromoOwnership(_, to) => a == sender || a == to
    case _ => false
  }

  /** Nobody else's lots are touched. */
  lemma OthersUntouched(s: Ledger, sender: Address, op: Op, a: Address)
    requires Step(s, sender, op).Ok? && !Party(s, sender, op, a)
    ensures LotsOf(After(s, sender, op), a) == LotsOf(s, a)
    ensures BalanceOf(After(s, sender, op), a) == BalanceOf(s, a)
  {
    hide Held, Credit, DebitLots, DebitChromo;
  }

  /** The issued amount goes to a new lot of the next chromo, or on top of the first lot. */
  lemma IssueExact(s: Ledger, sender: Address, holder: Address, value: int)
    requires Inv(s) && NewStockHolderStep(s, sender, holder, value).Ok?
    ensures var s' := NewStockHolderStep(s, sender, holder, value).state;
            var lots, lots', own := LotsOf(s, holder), LotsOf(s', holder), LotsOf(s, s.account);
            && (lots == [] ==> s'.current.Some? && lots' == [Lot(s'.current.value, value)])
            && (lots != [] ==> |lots'| == |lots| && lots'[1..] == lots[1..]
                               && lots'[0] == Lot(lots[0].chromo, lots[0].value + value))
            && own == [Lot(WHITE, BalanceOf(s, s.account))]
            && LotsOf(s', s.account) == [Lot(WHITE, BalanceOf(s, s.account) - value)]
  {
    hide Held, ChainWide, Core;
    VaultFacts(s);
  }

  /** Init, added supply and burnt supply change the one white lot of the contract account. */
  lemma VaultExact(s: Ledger, sender: Address, op: Op)
    requires Inv(s) && Step(s, sender, op).Ok? && (op.Init? || op.AddSupply? || op.Burn?)
    ensures LotsOf(After(s, sender, op), s.account) ==
              [Lot(WHITE, match op
                          case Init(supply, _, _, _) => supply
                          case AddSupply(value) => BalanceOf(s, s.account) + value
                          case Burn(value) => BalanceOf(s, s.account) - value)]
  {
    hide Held, ChainWide, Core;
    VaultFacts(s);
  }

  /** A handover removes the first lot of the chromo from one list and appends it to the other. */
  lemma HandoverExact(s: Ledger, sender: Address, c: Chromo, to: Address)
    requires ChangeChromoOwnershipStep(s, sender, c, to).Ok?
    ensures var s' := ChangeChromoOwnershipStep(s, sender, c, to).state;
            exists i :: && 0 <= i < |LotsOf(s, sender)| && LotsOf(s, sender)[i].chromo == c
                        && (forall j :: 0 <= j < i ==> LotsOf(s, sender)[j].chromo != c)
                        && LotsOf(s', sender) == LotsOf(s, sender)[..i] + LotsOf(s, sender)[i + 1..]
                        && LotsOf(s', to) == LotsOf(s, to) + [LotsOf(s, sender)[i]]
  {
    hide Held, IndexOf;
    var i := IndexOf(LotsOf(s, sender), c);
    assert LotsOf(s, sender)[i].chromo == c;
  }

  /** A payment by chromo moves the value of that chromo; out of a black hole it arrives as white. */
  lemma ByChromoExact(s: Ledger, sender: Address, c: Chromo, to: Address, value: int, x: Chromo)
    requires Inv(s) && TransferByChromoStep(s, sender, c, to, value).Ok?
    ensures var s' := TransferByChromoStep(s, sender, c, to, value).state;
            var arrives := if sender in s.holes then 0 else c;
            && Held(Only(x), LotsOf(s', sender)) == Held(Only(x), LotsOf(s, sender)) - (if x == c then value else 0)
            && Held(Only(x), LotsOf(s', to)) == Held(Only(x), LotsOf(s, to)) + (if x == arrives then value else 0)
  {
    hide Held, ChainWide, DebitChromo, Credit, Core;
    RoleIs(s, sender);
    DebitChromoFacts(Only(x), s, sender, c, value);
    var lot := Lot(if RoleOf(s, sender) == Hole then WHITE else c, value);
    HeldSingle(Only(x), lot);
    CreditHeld(Only(x), LotsOf(s, to), [lot]);
  }

  /**
   * A transfer takes every chromo in proportion, up to a unit for each lot; what the sender
   * loses of a chromo the payee gains, or as much white in all out of a black hole.
   */
  lemma TransferExact(s: Ledger, sender: Address, to: Address, value: int, x: Chromo)
    requires Inv(s) && TransferStep(s, sender, to, value).Ok?
    ensures var s' := TransferStep(s, sender, to, value).state;
            var lots, total := LotsOf(s, sender), Held(Every, LotsOf(s, sender));
            var moved := Held(Only(x), lots) - Held(Only(x), LotsOf(s', sender));
            && Held(Only(x), LotsOf(s', to)) == Held(Only(x), LotsOf(s, to))
                 + (if sender !in s.holes then moved else if x == 0 then value else 0)
            && (value == total ==> LotsOf(s', sender) == [])
            && value * Held(Only(x), lots) - |lots| * total <= moved * total
            && moved * total <= value * Held(Only(x), lots) + |lots| * total
  {
    hide Held, ChainWide, DebitLots, Credit, Core, NonNegative, NoRepeat, Positive;
    var lots, total := LotsOf(s, sender), Held(Every, LotsOf(s, sender));
    RoleIs(s, sender);
    SoundOf(s, sender);
    DebitIsExact(Only(x), lots, value);
    var r := DebitLots(lots, value);
    HeldSingle(Only(x), Lot(WHITE, value));
    CreditHeld(Only(x), LotsOf(s, to), if RoleOf(s, sender) == Hole then [Lot(WHITE, value)] else r.out);
    if value == total {
      AllIsPaid(lots, value, x);
    } else {
      DebitIsProportional(x, lots, value);
    }
  }

  lemma AllIsPaid(lots: seq<Lot>, value: int, x: Chromo)
    requires value > 0 && value == Held(Every, lots)
    ensures DebitLots(lots, value) == Paid([], lots)
    ensures Held(Only(x), lots) - Held(Only(x), []) == Held(Only(x), lots)
    ensures value * Held(Only(x), lots) == Held(Only(x), lots) * Held(Every, lots)
    ensures |lots| * Held(Every, lots) >= 0
  {
    HeldEmpty(Only(x));
    hide Held;
  }
}
