/**
 * The BYB contract as a state machine: the stored state, the role of an address,
 * and one function per public method giving its outcome.  A method that returns an
 * error or panics has its writes rolled back with the surrounding transaction, so a
 * failed outcome carries no state.
 */
module BybLedger {
  import opened BybLots
  import opened BybPayment

  type Address = string

  const MAX_STOCK_HOLDER := 100
  const MIN_TOTAL_SUPPLY := 1_000_000_000
  const UINT64 := 0x1_0000_0000_0000_0000

  datatype Option<T> = None | Some(value: T)

  datatype Token = Token(supply: int, addSupplyEnabled: bool, burnEnabled: bool)

  datatype Ledger = Ledger(
    owner: Address,                      // the contract's owner
    account: Address,                    // the contract's own account
    contract: Address,                   // the contract's address
    token: Option<Token>,                // set by Init
    lots: map<Address, seq<Lot>>,        // "/account/ex/<addr>/byb"
    balances: map<Address, int>,         // the generic token balances
    holders: seq<Address>,               // "/byb/stockholders"
    listed: bool,                        // whether that key has ever been written
    holes: seq<Address>,                 // "/byb/blackholes"
    current: Option<Chromo>)             // "/byb/curchromo"

  datatype Role = Committee | StockHolder | Hole | User

  datatype Error =
    | NoAuthorization | InvalidParameter | InvalidSupply | InvalidAddr | Initialized
    | TransferToSelf | InsufficientBalance | InvalidBalanceError | TooManyHolders
    | HolderOwnsByb | HolderNotFound | NoHolderList | CannotAddSupply | CannotBurn | ChromoNotOwned
    | Panic

  datatype Outcome = Ok(state: Ledger) | Fail(error: Error)

  /**
   * Who has the name and the symbol BYB before the first Init: nobody, two different
   * tokens, or a token of another contract.
   */
  datatype Registration = Free | Mixed | Other(owner: Address, supply: int)

  datatype Op =
    | Init(supply: int, addSupplyEnabled: bool, burnEnabled: bool, names: Registration)
    | NewBlackHole(hole: Address)
    | NewStockHolder(holder: Address, value: int)
    | DelStockHolder(holder: Address)
    | Transfer(to: Address, value: int)
    | TransferByChromo(chromo: Chromo, to: Address, value: int)
    | SetOwner(newOwner: Address)
    | AddSupply(value: int)
    | Burn(value: int)
    | ChangeChromoOwnership(chromo: Chromo, to: Address)

  // ----- stored state -----------------------------------------------------------

  function LotsIn(lots: map<Address, seq<Lot>>, a: Address): seq<Lot> {
    if a in lots then lots[a] else []
  }

  function LotsOf(s: Ledger, a: Address): seq<Lot> {
    LotsIn(s.lots, a)
  }

  function BalanceOf(s: Ledger, a: Address): int {
    if a in s.balances then s.balances[a] else 0
  }

  /** setBybBalance: the lot list and, with it, the account's token balance. */
  function WithLots(s: Ledger, a: Address, lots: seq<Lot>): Ledger {
    s.(lots := s.lots[a := lots], balances := s.balances[a := Held(Every, lots)])
  }

  /** checkAddress: the first matching role, in this order. */
  function RoleOf(s: Ledger, a: Address): Role {
    if a == s.owner || a == s.account || a == s.contract then Committee
    else if a in s.holes then Hole
    else if a in s.holders then StockHolder
    else User
  }

  /** calcNewChromo: one up from the stored number, wrapping; a stored zero is refused. */
  function NextChromo(current: Option<Chromo>): Option<Chromo> {
    match current
    case None => Some(1)
    case Some(c) => if c == 0 then None else Some((c + 1) % UINT64)
  }

  function Without(addresses: seq<Address>, a: Address): seq<Address> {
    if addresses == [] then []
    else if addresses[0] == a then addresses[1..]
    else [addresses[0]] + Without(addresses[1..], a)
  }

  // ----- the public methods --------------------------------------------------------

  /** checkBybToken: a burnt token of the sender's own may be taken over. */
  predicate NamesAvailable(names: Registration, sender: Address) {
    match names
    case Free => true
    case Mixed => false
    case Other(owner, supply) => owner == sender && supply == 0
  }

  function InitStep(s: Ledger, sender: Address, supply: int, add: bool, burn: bool, names: Registration): Outcome {
    if sender != s.owner then Fail(NoAuthorization)
    else if supply < MIN_TOTAL_SUPPLY then Fail(InvalidSupply)
    else if s.token.Some? || !NamesAvailable(names, sender) then Fail(Initialized)
    else Ok(WithLots(s.(token := Some(Token(supply, add, burn))), s.account, [Lot(WHITE, supply)]))
  }

  function NewBlackHoleStep(s: Ledger, sender: Address, hole: Address): Outcome {
    if sender != s.owner then Fail(NoAuthorization)
    else if RoleOf(s, hole) != User then Fail(InvalidParameter)
    else Ok(s.(holes := s.holes + [hole]))
  }

  function NewStockHolderStep(s: Ledger, sender: Address, holder: Address, value: int): Outcome {
    var role, lots := RoleOf(s, holder), LotsOf(s, holder);
    if sender != s.owner then Fail(NoAuthorization)
    else if value <= 0 || value >= BalanceOf(s, s.account) then Fail(InvalidParameter)
    else if role == Committee || role == Hole then Fail(InvalidParameter)
    else if role == User && |s.holders| + 1 > MAX_STOCK_HOLDER then Fail(TooManyHolders)
    else if role == User && lots != [] then Fail(InvalidParameter)
    else if LotsOf(s, s.account) == [] then Fail(Panic)
    else if lots == [] then
      match NextChromo(s.current)
      case None => Fail(Panic)
      case Some(c) => Ok(Endow(Enlist(s.(current := Some(c)), holder), holder, [Lot(c, value)], value))
    else Ok(Endow(Enlist(s, holder), holder, lots[0 := lots[0].(value := lots[0].value + value)], value))
  }

  function Enlist(s: Ledger, holder: Address): Ledger {
    if RoleOf(s, holder) == User then s.(holders := s.holders + [holder], listed := true) else s
  }

  /** setOwnerAndStockHolderBalance. */
  function Endow(s: Ledger, holder: Address, lots: seq<Lot>, value: int): Ledger
    requires LotsOf(s, s.account) != []
  {
    var own := LotsOf(s, s.account);
    WithLots(WithLots(s, holder, lots), s.account, own[0 := own[0].(value := BalanceOf(s, s.account) - value)])
  }

  function DelStockHolderStep(s: Ledger, sender: Address, holder: Address): Outcome {
    if sender != s.owner then Fail(NoAuthorization)
    else if LotsOf(s, holder) != [] then Fail(HolderOwnsByb)
    else if !s.listed then Fail(NoHolderList)
    else if holder !in s.holders then Fail(HolderNotFound)
    else Ok(s.(holders := Without(s.holders, holder)))
  }

  function TransferStep(s: Ledger, sender: Address, to: Address, value: int): Outcome {
    if value <= 0 then Fail(InvalidParameter)
    else if sender == to || s.account == to then Fail(TransferToSelf)
    else if RoleOf(s, to) in {StockHolder, Committee} then Fail(InvalidParameter)
    else if RoleOf(s, sender) in {StockHolder, Committee} then Fail(InvalidParameter)
    else
      match DebitLots(LotsOf(s, sender), value)
      case Insufficient => Fail(InsufficientBalance)
      case InvalidBalance => Fail(InvalidBalanceError)
      case Paid(kept, out) =>
        Ok(Deliver(s, sender, kept, to, if RoleOf(s, sender) == Hole then [Lot(WHITE, value)] else out))
  }

  /** Writes the sender's list, then credits the payee's. */
  function Deliver(s: Ledger, sender: Address, kept: seq<Lot>, to: Address, out: seq<Lot>): Ledger {
    var s' := WithLots(s, sender, kept);
    WithLots(s', to, Credit(LotsOf(s', to), out))
  }

  /** The sender's list after one chromo is drawn on; None when it does not cover the value. */
  function DebitChromo(lots: seq<Lot>, c: Chromo, value: int, keepEmpty: bool): Option<seq<Lot>> {
    var i := IndexOf(lots, c);
    if i == |lots| || lots[i].value < value then None
    else if !keepEmpty && lots[i].value == value then Some(lots[..i] + lots[i + 1..])
    else Some(lots[i := lots[i].(value := lots[i].value - value)])
  }

  function TransferByChromoStep(s: Ledger, sender: Address, c: Chromo, to: Address, value: int): Outcome {
    var toRole, role := RoleOf(s, to), RoleOf(s, sender);
    if value <= 0 then Fail(InvalidParameter)
    else if sender == to then Fail(TransferToSelf)
    else if toRole == Committee then Fail(InvalidParameter)
    else if toRole == StockHolder && !Lists(LotsOf(s, to), c) then Fail(InvalidParameter)
    else if role == Committee then Fail(InvalidParameter)
    else
      match DebitChromo(LotsOf(s, sender), c, value, role == StockHolder)
      case None => Fail(InsufficientBalance)
      case Some(kept) => Ok(Deliver(s, sender, kept, to, [Lot(if role == Hole then WHITE else c, value)]))
  }

  function SetOwnerStep(s: Ledger, sender: Address, newOwner: Address): Outcome {
    if sender != s.owner then Fail(NoAuthorization)
    else if newOwner == s.owner then Fail(TransferToSelf)
    else if RoleOf(s, newOwner) != User then Fail(InvalidParameter)
    else if s.token.None? then Fail(InvalidAddr)
    else Ok(s.(owner := newOwner))
  }

  function AddSupplyStep(s: Ledger, sender: Address, value: int): Outcome {
    if value <= 0 then Fail(InvalidParameter)
    else if sender != s.owner then Fail(NoAuthorization)
    else if s.token.None? then Fail(InvalidAddr)
    else if !s.token.value.addSupplyEnabled then Fail(CannotAddSupply)
    else if LotsOf(s, s.account) == [] then Fail(Panic)
    else Ok(ChangeSupply(s, value))
  }

  function BurnStep(s: Ledger, sender: Address, value: int): Outcome {
    if value <= 0 then Fail(InvalidParameter)
    else if sender != s.owner then Fail(NoAuthorization)
    else if s.token.None? then Fail(InvalidAddr)
    else if !s.token.value.burnEnabled then Fail(CannotBurn)
    else if s.token.value.supply < value then Fail(InsufficientBalance)
    else if LotsOf(s, s.account) == [] then Fail(Panic)
    else if LotsOf(s, s.account)[0].value < value then Fail(InsufficientBalance)
    else Ok(ChangeSupply(s, -value))
  }

  function ChangeSupply(s: Ledger, delta: int): Ledger
    requires s.token.Some? && LotsOf(s, s.account) != []
  {
    var own := LotsOf(s, s.account);
    WithLots(s.(token := Some(s.token.value.(supply := s.token.value.supply + delta))),
             s.account, own[0 := own[0].(value := own[0].value + delta)])
  }

  function ChangeChromoOwnershipStep(s: Ledger, sender: Address, c: Chromo, to: Address): Outcome {
    if sender == to then Fail(TransferToSelf)
    else if RoleOf(s, sender) != StockHolder || RoleOf(s, to) != StockHolder then Fail(NoAuthorization)
    else if !Lists(LotsOf(s, sender), c) then Fail(ChromoNotOwned)
    else
      var lots := LotsOf(s, sender);
      var i := IndexOf(lots, c);
      assert i < |lots|;
      var s' := WithLots(s, sender, lots[..i] + lots[i + 1..]);
      Ok(WithLots(s', to, LotsOf(s', to) + [lots[i]]))
  }

  function Step(s: Ledger, sender: Address, op: Op): Outcome {
    match op
    case Init(supply, add, burn, names) => InitStep(s, sender, supply, add, burn, names)
    case NewBlackHole(hole) => NewBlackHoleStep(s, sender, hole)
    case NewStockHolder(holder, value) => NewStockHolderStep(s, sender, holder, value)
    case DelStockHolder(holder) => DelStockHolderStep(s, sender, holder)
    case Transfer(to, value) => TransferStep(s, sender, to, value)
    case TransferByChromo(c, to, value) => TransferByChromoStep(s, sender, c, to, value)
    case SetOwner(newOwner) => SetOwnerStep(s, sender, newOwner)
    case AddSupply(value) => AddSupplyStep(s, sender, value)
    case Burn(value) => BurnStep(s, sender, value)
    case ChangeChromoOwnership(c, to) => ChangeChromoOwnershipStep(s, sender, c, to)
  }

  /** The stored state after a call: unchanged when the call fails. */
  function After(s: Ledger, sender: Address, op: Op): Ledger {
    match Step(s, sender, op)
    case Ok(s') => s'
    case Fail(_) => s
  }

  datatype Call = Call(sender: Address, op: Op)

  function Run(s: Ledger, calls: seq<Call>): Ledger {
    if calls == [] then s
    else
      var n := |calls| - 1;
      After(Run(s, calls[..n]), calls[n].sender, calls[n].op)
  }

  /** The contract as deployed, before Init. */
  function Deployed(owner: Address, account: Address, contract: Address): Ledger {
    Ledger(owner, account, contract, None, map[], map[], [], false, [], None)
  }
}
