/**
 * The BYB contract as an object: the stored keys are fields, the public methods
 * update them.  Every method is proved against its step function, on any stored
 * state; along any run those steps keep the invariant (EveryRunKeeps).
 */
module BybToken {
  import opened BybLots
  import opened BybPayment
  import opened BybLedger

  function ErrorOf(o: Outcome): Option<Error> {
    match o
    case Ok(_) => None
    case Fail(e) => Some(e)
  }

  class TokenByb {
    var owner: Address
    const account: Address
    const contract: Address
    var token: Option<Token>
    var lots: map<Address, seq<Lot>>
    var balances: map<Address, int>
    var holders: seq<Address>
    var listed: bool
    var holes: seq<Address>
    var current: Option<Chromo>

    function State(): Ledger
      reads this
    {
      Ledger(owner, account, contract, token, lots, balances, holders, listed, holes, current)
    }

    constructor (owner: Address, account: Address, contract: Address)
      ensures State() == Deployed(owner, account, contract)
    {
      this.owner, this.account, this.contract := owner, account, contract;
      token, lots, balances, holders, listed, holes, current := None, map[], map[], [], false, [], None;
    }

    // ----- stored keys --------------------------------------------------------------

    method SetBybBalance(a: Address, l: seq<Lot>)
      modifies this`lots, this`balances
      ensures State() == WithLots(old(State()), a, l)
    {
      lots := lots[a := l];
      var total := CalcTotal(l);
      balances := balances[a := total];
    }

    method GetBybBalance(a: Address) returns (l: seq<Lot>)
      ensures l == LotsOf(State(), a)
    {
      if a in lots {
        l := lots[a];
      } else {
        l := [];
      }
    }

    method CheckAddress(a: Address) returns (role: Role)
      ensures role == RoleOf(State(), a)
    {
      if a == owner || a == account || a == contract {
        return Committee;
      }
      for i := 0 to |holes|
        invariant a !in holes[..i]
      {
        if a == holes[i] {
          return Hole;
        }
      }
      for i := 0 to |holders|
        invariant a !in holders[..i]
      {
        if a == holders[i] {
          return StockHolder;
        }
      }
      return User;
    }

    method CalcNewChromo() returns (c: Option<Chromo>)
      modifies this`current
      ensures c == NextChromo(old(current))
      ensures current == if c.Some? then c else old(current)
    {
      match current {
        case None => c := Some(1);
        case Some(n) => c := if n == 0 then None else Some((n + 1) % UINT64);
      }
      if c.Some? {
        current := c;
      }
    }

    method RemoveHolder(a: Address) returns (found: bool)
      modifies this`holders
      ensures found == (a in old(holders))
      ensures holders == if found then Without(old(holders), a) else old(holders)
    {
      var i := 0;
      while i < |holders| && holders[i] != a
        invariant i <= |holders| && a !in holders[..i]
      {
        i := i + 1;
      }
      found := i < |holders|;
      if found {
        WithoutAt(holders, a, i);
        holders := holders[..i] + holders[i + 1..];
      }
    }

    // ----- public methods -------------------------------------------------------------

    method Init(sender: Address, supply: int, add: bool, burn: bool, names: Registration)
      returns (err: Option<Error>)
      modifies this
      ensures err == ErrorOf(Step(old(State()), sender, Op.Init(supply, add, burn, names)))
      ensures State() == After(old(State()), sender, Op.Init(supply, add, burn, names))
    {
      if sender != owner {
        return Some(NoAuthorization);
      }
      if supply < MIN_TOTAL_SUPPLY {
        return Some(InvalidSupply);
      }
      if token.Some? || !NamesAvailable(names, sender) {
        return Some(Initialized);
      }
      token := Some(Token(supply, add, burn));
      SetBybBalance(account, [Lot(WHITE, supply)]);
      err := None;
    }

    method NewBlackHole(sender: Address, hole: Address) returns (err: Option<Error>)
      modifies this
      ensures err == ErrorOf(Step(old(State()), sender, Op.NewBlackHole(hole)))
      ensures State() == After(old(State()), sender, Op.NewBlackHole(hole))
    {
      if sender != owner {
        return Some(NoAuthorization);
      }
      var role := CheckAddress(hole);
      if role == Committee || role == StockHolder || role == Hole {
        return Some(InvalidParameter);
      }
      holes := holes + [hole];
      err := None;
    }

    /** A panic after the chromo is drawn is rolled back like an error. */
    method NewStockHolder(sender: Address, holder: Address, value: int) returns (err: Option<Error>)
      modifies this
      ensures err == ErrorOf(Step(old(State()), sender, Op.NewStockHolder(holder, value)))
      ensures State() == After(old(State()), sender, Op.NewStockHolder(holder, value))
    {
      hide Endow;
      if sender != owner {
        return Some(NoAuthorization);
      }
      var ownerBalance := if account in balances then balances[account] else 0;
      if value <= 0 || value >= ownerBalance {
        return Some(InvalidParameter);
      }
      var role := CheckAddress(holder);
      if role == Committee || role == Hole {
        return Some(InvalidParameter);
      }
      if role == User && |holders| + 1 > MAX_STOCK_HOLDER {
        return Some(TooManyHolders);
      }
      var l := GetBybBalance(holder);
      if role == User && l != [] {
        return Some(InvalidParameter);
      }
      var own := GetBybBalance(account);
      if own == [] {
        return Some(Panic);
      }
      if l == [] {
        var c := CalcNewChromo();
        if c.None? {
          return Some(Panic);
        }
        l := [Lot(c.value, value)];
      } else {
        l := l[0 := l[0].(value := l[0].value + value)];
      }
      if role == User {
        holders, listed := holders + [holder], true;
      }
      EndowHolder(holder, l, value);
      err := None;
    }

    /** setOwnerAndStockHolderBalance. */
    method EndowHolder(holder: Address, l: seq<Lot>, value: int)
      requires holder != account && LotsOf(State(), account) != []
      modifies this`lots, this`balances
      ensures State() == Endow(old(State()), holder, l, value)
    {
      var ownerBalance := if account in balances then balances[account] else 0;
      SetBybBalance(holder, l);
      var own := GetBybBalance(account);
      SetBybBalance(account, own[0 := own[0].(value := ownerBalance - value)]);
    }

    method DelStockHolder(sender: Address, holder: Address) returns (err: Option<Error>)
      modifies this
      ensures err == ErrorOf(Step(old(State()), sender, Op.DelStockHolder(holder)))
      ensures State() == After(old(State()), sender, Op.DelStockHolder(holder))
    {
      if sender != owner {
        return Some(NoAuthorization);
      }
      var l := GetBybBalance(holder);
      if |l| >= 1 {
        return Some(HolderOwnsByb);
      }
      if !listed {
        return Some(NoHolderList);
      }
      var found := RemoveHolder(holder);
      err := if found then None else Some(HolderNotFound);
    }

    method Pay(sender: Address, kept: seq<Lot>, to: Address, out: seq<Lot>)
      modifies this
      ensures State() == Deliver(old(State()), sender, kept, to, out)
    {
      SetBybBalance(sender, kept);
      var oldByb := GetBybBalance(to);
      var newByb := CreditPayee(oldByb, out);
      SetBybBalance(to, newByb);
    }

    method Transfer(sender: Address, to: Address, value: int) returns (err: Option<Error>)
      modifies this
      ensures err == ErrorOf(Step(old(State()), sender, Op.Transfer(to, value)))
      ensures State() == After(old(State()), sender, Op.Transfer(to, value))
    {
      if value <= 0 {
        return Some(InvalidParameter);
      }
      if sender == to || account == to {
        return Some(TransferToSelf);
      }
      var toRole := CheckAddress(to);
      if toRole == StockHolder || toRole == Committee {
        return Some(InvalidParameter);
      }
      var role := CheckAddress(sender);
      if role == StockHolder || role == Committee {
        return Some(InvalidParameter);
      }
      var l := GetBybBalance(sender);
      var r := CalcSenderBalance(l, value);
      match r {
        case Insufficient => err := Some(InsufficientBalance);
        case InvalidBalance => err := Some(InvalidBalanceError);
        case Paid(kept, out) =>
          Pay(sender, kept, to, if role == Hole then [Lot(WHITE, value)] else out);
          err := None;
      }
    }

    method TransferByChromo(sender: Address, c: Chromo, to: Address, value: int) returns (err: Option<Error>)
      modifies this
      ensures err == ErrorOf(Step(old(State()), sender, Op.TransferByChromo(c, to, value)))
      ensures State() == After(old(State()), sender, Op.TransferByChromo(c, to, value))
    {
      hide DebitChromo, Deliver;
      if value <= 0 {
        return Some(InvalidParameter);
      }
      if sender == to {
        return Some(TransferToSelf);
      }
      var toRole := CheckAddress(to);
      if toRole == Committee {
        return Some(InvalidParameter);
      }
      if toRole == StockHolder {
        var owns := OwnsChromo(to, c);
        if !owns {
          return Some(InvalidParameter);
        }
      }
      var role := CheckAddress(sender);
      if role == Committee {
        return Some(InvalidParameter);
      }
      var l := GetBybBalance(sender);
      var kept := DrawOn(l, c, value, role);
      if kept.None? {
        return Some(InsufficientBalance);
      }
      Pay(sender, kept.value, to, [Lot(if role == Hole then WHITE else c, value)]);
      err := None;
    }

    method DrawOn(l: seq<Lot>, c: Chromo, value: int, role: Role) returns (kept: Option<seq<Lot>>)
      ensures kept == DebitChromo(l, c, value, role == StockHolder)
    {
      var i := FindChromo(l, c);
      if i == |l| || l[i].value < value {
        return None;
      }
      if role != StockHolder && l[i].value - value == 0 {
        kept := Some(l[..i] + l[i + 1..]);
      } else {
        kept := Some(l[i := l[i].(value := l[i].value - value)]);
      }
    }

    method OwnsChromo(holder: Address, c: Chromo) returns (owns: bool)
      ensures owns == Lists(LotsOf(State(), holder), c)
    {
      var l := GetBybBalance(holder);
      var i := FindChromo(l, c);
      owns := i < |l|;
    }

    method SetOwner(sender: Address, newOwner: Address) returns (err: Option<Error>)
      modifies this
      ensures err == ErrorOf(Step(old(State()), sender, Op.SetOwner(newOwner)))
      ensures State() == After(old(State()), sender, Op.SetOwner(newOwner))
    {
      if sender != owner {
        return Some(NoAuthorization);
      }
      if newOwner == owner {
        return Some(TransferToSelf);
      }
      var role := CheckAddress(newOwner);
      if role != User {
        return Some(InvalidParameter);
      }
      if token.None? {
        return Some(InvalidAddr);
      }
      owner := newOwner;
      err := None;
    }

    method AddSupply(sender: Address, value: int) returns (err: Option<Error>)
      modifies this
      ensures err == ErrorOf(Step(old(State()), sender, Op.AddSupply(value)))
      ensures State() == After(old(State()), sender, Op.AddSupply(value))
    {
      if value <= 0 {
        return Some(InvalidParameter);
      }
      if sender != owner {
        return Some(NoAuthorization);
      }
      if token.None? {
        return Some(InvalidAddr);
      }
      if !token.value.addSupplyEnabled {
        return Some(CannotAddSupply);
      }
      var own := GetBybBalance(account);
      if own == [] {
        return Some(Panic);
      }
      token := Some(token.value.(supply := token.value.supply + value));
      SetBybBalance(account, own[0 := own[0].(value := own[0].value + value)]);
      err := None;
    }

    method Burn(sender: Address, value: int) returns (err: Option<Error>)
      modifies this
      ensures err == ErrorOf(Step(old(State()), sender, Op.Burn(value)))
      ensures State() == After(old(State()), sender, Op.Burn(value))
    {
      if value <= 0 {
        return Some(InvalidParameter);
      }
      if sender != owner {
        return Some(NoAuthorization);
      }
      if token.None? {
        return Some(InvalidAddr);
      }
      if !token.value.burnEnabled {
        return Some(CannotBurn);
      }
      if token.value.supply < value {
        return Some(InsufficientBalance);
      }
      var own := GetBybBalance(account);
      if own == [] {
        return Some(Panic);
      }
      if own[0].value < value {
        return Some(InsufficientBalance);
      }
      SetBybBalance(account, own[0 := own[0].(value := own[0].value - value)]);
      token := Some(token.value.(supply := token.value.supply - value));
      err := None;
    }

    method ChangeChromoOwnership(sender: Address, c: Chromo, to: Address) returns (err: Option<Error>)
      modifies this
      ensures err == ErrorOf(Step(old(State()), sender, Op.ChangeChromoOwnership(c, to)))
      ensures State() == After(old(State()), sender, Op.ChangeChromoOwnership(c, to))
    {
      hide Held, WithLots;
      if sender == to {
        return Some(TransferToSelf);
      }
      var role := CheckAddress(sender);
      if role != StockHolder {
        return Some(NoAuthorization);
      }
      role := CheckAddress(to);
      if role != StockHolder {
        return Some(NoAuthorization);
      }
      var owns := OwnsChromo(sender, c);
      if !owns {
        return Some(ChromoNotOwned);
      }
      var l := GetBybBalance(sender);
      var i := FindChromo(l, c);
      SetBybBalance(sender, l[..i] + l[i + 1..]);
      var toByb := GetBybBalance(to);
      SetBybBalance(to, toByb + [l[i]]);
      err := None;
    }
  }

  lemma {:induction false} WithoutAt(addresses: seq<Address>, a: Address, i: nat)
    requires i < |addresses| && addresses[i] == a && a !in addresses[..i]
    ensures Without(addresses, a) == addresses[..i] + addresses[i + 1..]
  {
    if i > 0 {
      assert addresses[0] in addresses[..i];
      assert addresses[1..][..i - 1] == addresses[..i][1..];
      WithoutAt(addresses[1..], a, i - 1);
      assert addresses[..i] == [addresses[0]] + addresses[1..][..i - 1];
    }
  }
}
