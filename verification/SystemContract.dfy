/**
 * The contract registry as an object: the loops that check, close and look up the
 * versions of a name, proved against the functions of ContractWindows.
 */
module SystemContract {
  import opened BufferBytes
  import opened ContractWindows

  class Versions {
    var contracts: map<Address, Contract>
    var order: seq<Address>
    var versions: seq<Entry>

    function State(): Registry
      reads this
    {
      Registry(contracts, order, versions)
    }

    ghost predicate Valid()
      reads this
    {
      forall a :: a in order <==> a in contracts
    }

    constructor ()
      ensures State() == Registry(map[], [], []) && Valid()
    {
      contracts, order, versions := map[], [], [];
    }

    /** isDisabled: any contract of a later chain version settles it; otherwise all must be closed. */
    method CheckDisabled(ctx: Context) returns (disabled: bool)
      requires Valid()
      ensures disabled == IsDisabled(State(), ctx)
    {
      if ctx.upgraded && ctx.reservedName {
        return true;
      }
      disabled := |order| != 0;
      for i := 0 to |order|
        invariant forall j :: 0 <= j < i ==> contracts[order[j]].chainVersion == 0
        invariant disabled <==> |order| != 0 && forall j :: 0 <= j < i ==> contracts[order[j]].lose != 0
      {
        if contracts[order[i]].chainVersion != 0 {
          assert order[i] in order;
          return true;
        }
        if contracts[order[i]].lose == 0 {
          disabled := false;
        }
      }
      assert |order| != 0 ==> order[0] in order;
      assert forall a :: a in contracts ==> a in order;
    }

    /**
     * CheckAndForbidOldVersionContract: the old versions are read from the committed
     * state and written to the transaction's buffer, which is dropped on an error.
     */
    method CheckAndForbid(version: nat, effect: int) returns (ok: bool, forbid: bool, buffer: map<Address, Contract>)
      requires Valid()
      ensures ok == !Outdated(State(), version, effect)
      ensures ok ==> forbid == LastIsClosed(State()) && buffer == Closed(contracts, effect)
    {
      forbid, buffer := false, contracts;
      for i := 0 to |order|
        invariant forall j :: 0 <= j < i ==>
                    contracts[order[j]].version <= version && contracts[order[j]].effect < effect
        invariant forbid == (i > 0 && contracts[order[i - 1]].lose != 0)
        invariant buffer.Keys == contracts.Keys
        invariant forall a :: a in contracts ==>
                    buffer[a] == if a in order[..i] then Closed(contracts, effect)[a] else contracts[a]
      {
        forbid := true;
        var c := contracts[order[i]];
        if c.version > version || effect <= c.effect {
          assert order[i] in contracts;
          return false, false, contracts;
        }
        if c.lose == 0 {
          forbid := false;
          buffer := buffer[order[i] := c.(lose := effect)];
        }
        assert order[..i + 1] == order[..i] + [order[i]];
      }
      assert order[..|order|] == order;
      ok := true;
    }

    method InsertAddress(a: Address)
      modifies this`order
      ensures order == Listed(old(order), a)
    {
      var i := 0;
      while i < |order| && order[i] != a && !Before(a, order[i])
        invariant i <= |order| && forall j :: 0 <= j < i ==> order[j] != a && !Before(a, order[j])
      {
        i := i + 1;
      }
      ListedAt(order, a, i);
      if i == |order| || order[i] != a {
        order := order[..i] + [a] + order[i..];
      }
    }

    method DeployInternalContract(ctx: Context, addr: Address, version: nat, effect: int, params: Params)
      returns (err: seq<Error>)
      requires Valid()
      modifies this
      ensures match Deploy(old(State()), ctx, addr, version, effect, params)
              case Ok(r) => err == [] && State() == r
              case Refused(e) => err == [e] && State() == old(State())
    {
      hide IsDisabled, Outdated, Closed, Listed, LastIsClosed;
      var disabled := CheckDisabled(ctx);
      if disabled {
        return [Disabled];
      }
      if !ctx.byOwner {
        return [NoAuthorization];
      }
      if !params.named || effect == 0 {
        return [InvalidParameter];
      }
      if params.prototypes != params.gases {
        return [InvalidGasPrice];
      }
      if Signed(effect) <= ctx.height + 1 {
        return [InvalidParameter];
      }
      var ok, forbid, buffer := CheckAndForbid(version, effect);
      if !ok {
        return [InvalidParameter];
      }
      if forbid {
        return [Forbidden];
      }
      if ctx.upgraded {
        versions := versions + [Entry(addr, effect)];
      }
      contracts := buffer[addr := Contract(version, effect, 0, 0)];
      InsertAddress(addr);
      err := [];
    }

    method ForbidInternalContract(ctx: Context, addr: Address, effect: int) returns (err: seq<Error>)
      modifies this`contracts
      ensures match Forbid(old(State()), ctx, addr, effect)
              case Ok(r) => err == [] && State() == r
              case Refused(e) => err == [e] && State() == old(State())
    {
      if !ctx.byOwner {
        return [NoAuthorization];
      }
      if addr !in contracts {
        return [Panic];
      }
      var c := contracts[addr];
      if c.chainVersion != 0 {
        return [ChainVersionError];
      }
      if Signed(effect) <= ctx.height + 1 {
        return [InvalidParameter];
      }
      if c.lose != 0 || effect <= c.effect {
        return [InvalidParameter];
      }
      contracts := contracts[addr := c.(lose := effect)];
      err := [];
    }

    /** GetContractAddr: the one contract of the name that is effective at the height, if any. */
    method GetContractAddr(h: int) returns (a: seq<Address>)
      requires Valid()
      ensures |a| <= 1
      ensures a == [] <==> forall x :: x in contracts ==> !InWindow(contracts[x], h)
      ensures a != [] ==> a[0] in contracts && InWindow(contracts[a[0]], h)
    {
      for i := 0 to |order|
        invariant forall j :: 0 <= j < i ==> !InWindow(contracts[order[j]], h)
      {
        if InWindow(contracts[order[i]], h) {
          return [order[i]];
        }
      }
      assert forall x :: x in contracts ==> x in order;
      a := [];
    }

    /** getEffectContract: the forward scan of the version list. */
    method GetEffectContract(h: int) returns (a: seq<Address>)
      ensures a == FirstEffective(State(), 0, h)
    {
      var i := 0;
      while i < |versions|
        invariant i <= |versions|
        invariant FirstEffective(State(), 0, h) == FirstEffective(State(), i, h)
      {
        var x := versions[i].addr;
        if x in contracts && InWindow(contracts[x], h) {
          return [x];
        }
        i := i + 1;
      }
      a := [];
    }

    /** GetEffectContractByName: the backward scan over recorded effect heights. */
    method GetEffectContractByName(h: int) returns (a: seq<Address>)
      ensures a == LastRecorded(State(), |versions|, h)
    {
      var i := |versions|;
      while i > 0
        invariant 0 <= i <= |versions|
        invariant LastRecorded(State(), |versions|, h) == LastRecorded(State(), i, h)
      {
        if versions[i - 1].effect <= h {
          return [versions[i - 1].addr];
        }
        i := i - 1;
      }
      a := [];
    }
  }

  lemma {:induction false} ListedAt(order: seq<Address>, a: Address, i: nat)
    requires i <= |order| && forall j :: 0 <= j < i ==> order[j] != a && !Before(a, order[j])
    requires i < |order| ==> order[i] == a || Before(a, order[i])
    ensures Listed(order, a) == if i < |order| && order[i] == a then order else order[..i] + [a] + order[i..]
  {
    hide Before;
    if i > 0 {
      var rest := order[1..];
      ListedAt(rest, a, i - 1);
      assert Listed(order, a) == [order[0]] + Listed(rest, a);
      assert order == [order[0]] + rest;
      assert order[..i] == [order[0]] + rest[..i - 1];
      assert order[i..] == rest[i - 1..];
    } else if order == [] {
      assert order[..0] + [a] + order[0..] == [a];
    }
  }
}
