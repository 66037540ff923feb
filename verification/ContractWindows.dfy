/**
 * Versions of one contract name over [effect, lose) height windows: deploying a new
 * version closes the open one, forbidding closes it without a successor, and several
 * look-ups scan the versions.
 */
module ContractWindows {
  import opened StateStore
  import opened BufferBytes

  type Address = Key

  const INT64_LIMIT := 0x8000_0000_0000_0000

  /** A lose height of zero means that the contract has not been closed. */
  datatype Contract = Contract(version: nat, effect: int, lose: int, chainVersion: int)

  /** One line of the version list kept since the chain's upgrade. */
  datatype Entry = Entry(addr: Address, effect: int)

  /** The contracts of one name, their addresses as stored (sorted), and the version list. */
  datatype Registry = Registry(contracts: map<Address, Contract>, order: seq<Address>, versions: seq<Entry>)

  datatype Error = Disabled | NoAuthorization | InvalidParameter | InvalidGasPrice | Forbidden | ChainVersionError | Panic

  datatype Outcome = Ok(registry: Registry) | Refused(error: Error)

  /** What a call finds around it: the committed height, the chain version, the caller. */
  datatype Context = Context(height: nat, upgraded: bool, reservedName: bool, byOwner: bool)

  /** Whether name and version are given, and how many prototypes and gas values there are. */
  datatype Params = Params(named: bool, prototypes: nat, gases: nat)

  predicate WellFormed(params: Params) {
    params.named && params.prototypes == params.gases
  }

  /** The int64 that a uint64 height is compared as. */
  function Signed(h: int): int {
    if h >= INT64_LIMIT then h - 2 * INT64_LIMIT else h
  }

  predicate InWindow(c: Contract, h: int) {
    c.effect <= h && (c.lose == 0 || c.lose > h)
  }

  // ----- deploying ----------------------------------------------------------------------

  predicate IsDisabled(r: Registry, ctx: Context) {
    || (ctx.upgraded && ctx.reservedName)
    || (exists a :: a in r.contracts && r.contracts[a].chainVersion != 0)
    || (r.contracts != map[] && forall a :: a in r.contracts ==> r.contracts[a].lose != 0)
  }

  /** Some old version is newer, or takes effect no earlier. */
  predicate Outdated(r: Registry, version: nat, effect: int) {
    exists a :: a in r.contracts && (r.contracts[a].version > version || effect <= r.contracts[a].effect)
  }

  /** CheckAndForbidOldVersionContract closes every open version at the new effect height. */
  function Closed(contracts: map<Address, Contract>, effect: int): map<Address, Contract> {
    map a | a in contracts :: if contracts[a].lose == 0 then contracts[a].(lose := effect) else contracts[a]
  }

  /** ... and reports the state of the contract it saw last, in address order. */
  predicate LastIsClosed(r: Registry)
    requires forall a :: a in r.order ==> a in r.contracts
  {
    r.order != [] && r.contracts[r.order[|r.order| - 1]].lose != 0
  }

  /** addChildKey: the stored address list stays sorted, each address once. */
  function Listed(order: seq<Address>, a: Address): seq<Address> {
    if order == [] then [a]
    else if order[0] == a then order
    else if Before(a, order[0]) then [a] + order
    else [order[0]] + Listed(order[1..], a)
  }

  function Deploy(r: Registry, ctx: Context, addr: Address, version: nat, effect: int, params: Params): Outcome
    requires forall a :: a in r.order ==> a in r.contracts
  {
    if IsDisabled(r, ctx) then Refused(Disabled)
    else if !ctx.byOwner then Refused(NoAuthorization)
    else if !params.named || effect == 0 then Refused(InvalidParameter)
    else if params.prototypes != params.gases then Refused(InvalidGasPrice)
    else if Signed(effect) <= ctx.height + 1 then Refused(InvalidParameter)
    else if Outdated(r, version, effect) then Refused(InvalidParameter)
    else if LastIsClosed(r) then Refused(Forbidden)
    else Ok(Registry(Closed(r.contracts, effect)[addr := Contract(version, effect, 0, 0)],
                     Listed(r.order, addr),
                     if ctx.upgraded then r.versions + [Entry(addr, effect)] else r.versions))
  }

  // ----- forbidding ------------------------------------------------------------------------

  function Forbid(r: Registry, ctx: Context, addr: Address, effect: int): Outcome {
    if !ctx.byOwner then Refused(NoAuthorization)
    else if addr !in r.contracts then Refused(Panic)
    else
      var c := r.contracts[addr];
      if c.chainVersion != 0 then Refused(ChainVersionError)
      else if Signed(effect) <= ctx.height + 1 then Refused(InvalidParameter)
      else if c.lose != 0 || effect <= c.effect then Refused(InvalidParameter)
      else Ok(r.(contracts := r.contracts[addr := c.(lose := effect)]))
  }

  // ----- the invariant ------------------------------------------------------------------------

  /** One of the two is closed before the other takes effect. */
  predicate Apart(c: Contract, d: Contract) {
    (c.lose != 0 && c.lose <= d.effect) || (d.lose != 0 && d.lose <= c.effect)
  }

  predicate Proper(c: Contract) {
    c.effect > 0 && (c.lose == 0 || c.lose > c.effect)
  }

  /** The list line still describes the contract at its address. */
  predicate Current(r: Registry, i: int)
    requires 0 <= i < |r.versions|
  {
    var e := r.versions[i];
    e.addr in r.contracts && r.contracts[e.addr].effect == e.effect
  }

  /** If line i is current, its contract is closed by the effect height of line j. */
  predicate ClosedBy(r: Registry, i: int, j: int)
    requires 0 <= i < |r.versions| && 0 <= j < |r.versions|
  {
    Current(r, i) ==>
      var c := r.contracts[r.versions[i].addr]; c.lose != 0 && c.lose <= r.versions[j].effect
  }

  /**
   * The version list: ascending; a line is overtaken only by a later line for its
   * address; a current line that is not the last belongs to a contract closed by then.
   */
  ghost predicate VersionsAgree(r: Registry) {
    && (forall i :: 0 <= i < |r.versions| ==>
          (r.versions[i].addr in r.contracts && r.versions[i].effect <= r.contracts[r.versions[i].addr].effect))
    && (forall i, j :: 0 <= i < j < |r.versions| ==> r.versions[i].effect < r.versions[j].effect)
    && (forall i :: 0 <= i < |r.versions| && !Current(r, i) ==>
          exists j :: i < j < |r.versions| && r.versions[j].addr == r.versions[i].addr && Current(r, j))
    && (forall i, j :: 0 <= i < j < |r.versions| ==> ClosedBy(r, i, j))
  }

  ghost predicate Inv(r: Registry) {
    && Sorting(r.order, r.contracts.Keys)
    && (forall a :: a in r.contracts ==> Proper(r.contracts[a]))
    && (forall a, b :: a in r.contracts && b in r.contracts && a != b ==> Apart(r.contracts[a], r.contracts[b]))
    && VersionsAgree(r)
  }

  /** Apart is disjointness of the windows, for proper contracts. */
  lemma ApartIffDisjoint(c: Contract, d: Contract)
    requires Proper(c) && Proper(d)
    ensures Apart(c, d) <==> forall h :: !(InWindow(c, h) && InWindow(d, h))
  {
    if !Apart(c, d) {
      var h := if c.effect <= d.effect then d.effect else c.effect;
      assert InWindow(c, h) && InWindow(d, h);
    }
  }

  lemma {:induction false} ListedSorts(order: seq<Address>, a: Address, s: set<Address>)
    requires Sorting(order, s)
    ensures Sorting(Listed(order, a), s + {a})
  {
    if order == [] {
    } else if order[0] == a {
      assert a in s;
      assert s + {a} == s;
    } else if Before(a, order[0]) {
      forall i | 0 <= i < |order| ensures Before(a, order[i]) {
        if i > 0 {
          Transitive(a, order[0], order[i]);
        }
      }
    } else {
      Trichotomy(a, order[0]);
      RestSorts(order, s);
      ListedSorts(order[1..], a, s - {order[0]});
      var rest := Listed(order[1..], a);
      assert rest != [] ==> forall k :: k in rest ==> Before(order[0], k) by {
        forall k | k in rest ensures Before(order[0], k) {
          if k != a {
            assert k in order[1..];
            var i :| 0 <= i < |order[1..]| && order[1..][i] == k;
            assert order[i + 1] == k;
          }
        }
      }
    }
  }

  /** At a successful deployment every older version is closed by the new effect height. */
  lemma OldVersionsClosed(r: Registry, ctx: Context, addr: Address, version: nat, effect: int, params: Params)
    requires Inv(r) && Deploy(r, ctx, addr, version, effect, params).Ok?
    ensures effect > 0
    ensures forall a :: a in r.contracts ==>
              var c := Closed(r.contracts, effect)[a];
              && r.contracts[a].effect < effect && c.effect == r.contracts[a].effect
              && 0 < c.lose <= effect && c.effect < c.lose
  {
    if r.contracts != map[] {
      var o :| o in r.contracts && r.contracts[o].lose == 0;
      forall a | a in r.contracts ensures r.contracts[a].lose <= effect {
        assert !Outdated(r, version, effect);
        if a != o {
          assert Apart(r.contracts[a], r.contracts[o]);
        }
      }
    }
  }

  /** The version list is kept from the chain's upgrade on. */
  predicate ListKept(r: Registry, ctx: Context) {
    r.versions != [] ==> ctx.upgraded
  }

  lemma DeployVersions(r: Registry, contracts: map<Address, Contract>, addr: Address, effect: int, r': Registry)
    requires VersionsAgree(r) && r'.versions == r.versions + [Entry(addr, effect)]
    requires addr in r'.contracts && r'.contracts == contracts[addr := r'.contracts[addr]]
    requires r'.contracts[addr].effect == effect && contracts.Keys == r.contracts.Keys
    requires forall a :: a in r.contracts ==>
               (r.contracts[a].effect == contracts[a].effect < effect
                && 0 < contracts[a].lose <= effect && (r.contracts[a].lose != 0 ==> contracts[a] == r.contracts[a]))
    ensures VersionsAgree(r')
  {
    var n := |r.versions|;
    forall i | 0 <= i < n
      ensures r'.versions[i] == r.versions[i] && (Current(r', i) <==> Current(r, i) && r.versions[i].addr != addr)
    {
    }
    assert Current(r', n);
    forall i | 0 <= i < n && !Current(r', i)
      ensures exists j :: i < j <= n && r'.versions[j].addr == r'.versions[i].addr && Current(r', j)
    {
      if r.versions[i].addr != addr {
        var j :| i < j < n && r.versions[j].addr == r.versions[i].addr && Current(r, j);
        assert Current(r', j);
      }
    }
    forall i, j | 0 <= i < j <= n ensures ClosedBy(r', i, j) {
      if j < n {
        assert ClosedBy(r, i, j);
      } else if i < n - 1 {
        assert ClosedBy(r, i, n - 1);
      }
    }
  }

  lemma ClosedBefore(r: Registry, effect: int)
    ensures var contracts := Closed(r.contracts, effect);
            && contracts.Keys == r.contracts.Keys
            && forall a :: a in contracts && r.contracts[a].lose != 0 ==> contracts[a] == r.contracts[a]
  {
  }

  lemma DeployList(r: Registry, ctx: Context, addr: Address, version: nat, effect: int, params: Params)
    requires Inv(r) && ListKept(r, ctx) && Deploy(r, ctx, addr, version, effect, params).Ok?
    ensures var r' := Deploy(r, ctx, addr, version, effect, params).registry;
            VersionsAgree(r') && Sorting(r'.order, r'.contracts.Keys)
  {
    var r' := Deploy(r, ctx, addr, version, effect, params).registry;
    hide Current, ClosedBy, Before, Proper, Closed;
    OldVersionsClosed(r, ctx, addr, version, effect, params);
    ListedSorts(r.order, addr, r.contracts.Keys);
    hide Sorting, IsDisabled, Outdated, LastIsClosed, Listed, VersionsAgree, Apart;
    assert r'.contracts.Keys == r.contracts.Keys + {addr};
    if ctx.upgraded {
      ClosedBefore(r, effect);
      DeployVersions(r, Closed(r.contracts, effect), addr, effect, r');
    } else {
      EmptyListAgrees(r');
    }
  }

  lemma DeployKeeps(r: Registry, ctx: Context, addr: Address, version: nat, effect: int, params: Params)
    requires Inv(r) && ListKept(r, ctx) && Deploy(r, ctx, addr, version, effect, params).Ok?
    ensures var r' := Deploy(r, ctx, addr, version, effect, params).registry;
            Inv(r') && addr in r'.contracts && InWindow(r'.contracts[addr], effect)
  {
    DeployList(r, ctx, addr, version, effect, params);
    OldVersionsClosed(r, ctx, addr, version, effect, params);
    hide Sorting, IsDisabled, Outdated, LastIsClosed, Listed, VersionsAgree, Apart, Proper, Closed;
    ClosedApart(r.contracts, addr, Contract(version, effect, 0, 0));
    assert Proper(Contract(version, effect, 0, 0)) by {
      NewIsProper(version, effect);
    }
  }

  lemma NewIsProper(version: nat, effect: int)
    requires effect > 0
    ensures Proper(Contract(version, effect, 0, 0))
  {
  }

  lemma ClosedApart(contracts: map<Address, Contract>, addr: Address, c: Contract)
    requires c.effect > 0 && c.lose == 0
    requires forall a :: a in contracts ==> Proper(contracts[a])
    requires forall a, b :: a in contracts && b in contracts && a != b ==> Apart(contracts[a], contracts[b])
    requires forall a :: a in contracts ==> 0 < Closed(contracts, c.effect)[a].lose <= c.effect
    requires forall a :: a in contracts ==> contracts[a].effect < c.effect
    ensures var after := Closed(contracts, c.effect)[addr := c];
            && (forall a :: a in after ==> Proper(after[a]))
            && (forall a, b :: a in after && b in after && a != b ==> Apart(after[a], after[b]))
  {
    var after := Closed(contracts, c.effect)[addr := c];
    forall a, b | a in after && b in after && a != b ensures Apart(after[a], after[b]) {
      if a != addr && b != addr {
        assert Apart(contracts[a], contracts[b]);
      }
    }
  }

  lemma EmptyListAgrees(r: Registry)
    requires r.versions == []
    ensures VersionsAgree(r)
  {
  }

  lemma ForbidKeeps(r: Registry, ctx: Context, addr: Address, effect: int)
    requires Inv(r) && Forbid(r, ctx, addr, effect).Ok?
    ensures Inv(Forbid(r, ctx, addr, effect).registry)
  {
    var r' := Forbid(r, ctx, addr, effect).registry;
    assert r'.contracts.Keys == r.contracts.Keys;
    assert VersionsAgree(r') by {
      ForbidVersions(r, addr, effect, r');
    }
    hide VersionsAgree, Sorting;
    forall a, b | a in r'.contracts && b in r'.contracts && a != b ensures Apart(r'.contracts[a], r'.contracts[b]) {
      assert Apart(r.contracts[a], r.contracts[b]);
    }
  }

  lemma ForbidVersions(r: Registry, addr: Address, lose: int, r': Registry)
    requires VersionsAgree(r) && addr in r.contracts && r.contracts[addr].lose == 0
    requires r' == r.(contracts := r.contracts[addr := r.contracts[addr].(lose := lose)])
    ensures VersionsAgree(r')
  {
    forall i | 0 <= i < |r.versions| ensures Current(r', i) <==> Current(r, i) {
    }
    forall i | 0 <= i < |r.versions| && !Current(r', i)
      ensures exists j :: i < j < |r.versions| && r'.versions[j].addr == r'.versions[i].addr && Current(r', j)
    {
      var j :| i < j < |r.versions| && r.versions[j].addr == r.versions[i].addr && Current(r, j);
      assert Current(r', j);
    }
    forall i, j | 0 <= i < j < |r.versions| ensures ClosedBy(r', i, j) {
      assert ClosedBy(r, i, j);
    }
  }

  /**
   * Forbidding succeeds for the owner, from the height after next on, on an open version of
   * the first chain that is in effect before; that version is then in its window exactly
   * from its effect height up to the given one, and nothing else changes.
   */
  lemma ForbidExact(r: Registry, ctx: Context, addr: Address, effect: int)
    ensures Forbid(r, ctx, addr, effect).Ok?
       <==> && ctx.byOwner && addr in r.contracts && r.contracts[addr].chainVersion == 0
            && (if effect >= 0x8000_0000_0000_0000 then effect - 0x1_0000_0000_0000_0000 else effect) > ctx.height + 1
            && r.contracts[addr].lose == 0 && r.contracts[addr].effect < effect
    ensures Forbid(r, ctx, addr, effect).Ok? && effect != 0 ==>
              var r' := Forbid(r, ctx, addr, effect).registry;
              && r'.order == r.order && r'.versions == r.versions && r'.contracts.Keys == r.contracts.Keys
              && (forall a :: a in r.contracts && a != addr ==> r'.contracts[a] == r.contracts[a])
              && r'.contracts[addr].effect == r.contracts[addr].effect
              && r'.contracts[addr].version == r.contracts[addr].version
              && (forall h :: InWindow(r'.contracts[addr], h) <==> r.contracts[addr].effect <= h < effect)
    ensures var o := Forbid(r, ctx, addr, effect);
            && (!ctx.byOwner ==> o == Refused(NoAuthorization))
            && (ctx.byOwner && addr !in r.contracts ==> o == Refused(Panic))
            && (ctx.byOwner && addr in r.contracts && r.contracts[addr].chainVersion != 0 ==> o == Refused(ChainVersionError))
            && (ctx.byOwner && addr in r.contracts && r.contracts[addr].chainVersion == 0 && o.Refused? ==>
                  o == Refused(InvalidParameter))
  {
  }

  /**
   * After a deployment the new version is in its window from its effect height on, an older
   * one as before up to that height.
   */
  lemma DeployWindows(r: Registry, ctx: Context, addr: Address, version: nat, effect: int, params: Params,
                      a: Address, h: int)
    requires Inv(r) && Deploy(r, ctx, addr, version, effect, params).Ok?
    ensures var r' := Deploy(r, ctx, addr, version, effect, params).registry;
            && r'.contracts.Keys == r.contracts.Keys + {addr}
            && r'.contracts[addr].version == version
            && (InWindow(r'.contracts[addr], h) <==> effect <= h)
            && (a in r.contracts && a != addr ==>
                  && r'.contracts[a].version == r.contracts[a].version
                  && (InWindow(r'.contracts[a], h) <==> InWindow(r.contracts[a], h) && h < effect))
  {
    hide VersionsAgree, Apart, Proper, IsDisabled, Outdated, LastIsClosed, Listed, Ascending, Before;
    OldVersionsClosed(r, ctx, addr, version, effect, params);
  }

  /** It is listed at its place, and on an upgraded chain at the end of the version list. */
  lemma DeployLists(r: Registry, ctx: Context, addr: Address, version: nat, effect: int, params: Params)
    requires Inv(r) && Deploy(r, ctx, addr, version, effect, params).Ok?
    ensures var r' := Deploy(r, ctx, addr, version, effect, params).registry;
            && Ascending(r'.order) && (forall a :: a in r'.order <==> a in r.order || a == addr)
            && r'.versions == r.versions + if ctx.upgraded then [Entry(addr, effect)] else []
  {
    hide VersionsAgree, Apart, Proper, IsDisabled, Outdated, LastIsClosed, Listed, Ascending, Closed;
    ListedSorts(r.order, addr, r.contracts.Keys);
    assert r.versions + [] == r.versions;
  }

  // ----- runs ----------------------------------------------------------------------------------

  datatype Op =
    | Deploying(ctx: Context, addr: Address, version: nat, effect: int, params: Params)
    | Forbidding(ctx: Context, addr: Address, effect: int)

  function Next(r: Registry, op: Op): Registry
    requires forall a :: a in r.order ==> a in r.contracts
  {
    var o := match op
             case Deploying(ctx, addr, version, effect, params) => Deploy(r, ctx, addr, version, effect, params)
             case Forbidding(ctx, addr, effect) => Forbid(r, ctx, addr, effect);
    if o.Ok? then o.registry else r
  }

  /** Every registry that deployments and forbiddings lead to. */
  ghost predicate Reaches(r: Registry, ops: seq<Op>, r': Registry)
    decreases |ops|
  {
    if ops == [] then r == r'
    else
      && (forall a :: a in r.order ==> a in r.contracts) && ListKept(r, ops[0].ctx)
      && Reaches(Next(r, ops[0]), ops[1..], r')
  }

  /** At most one version has no lose height, and no two versions are effective at one height. */
  ghost predicate OneAtATime(r: Registry) {
    && (forall a, b | a in r.contracts && b in r.contracts && r.contracts[a].lose == 0 && r.contracts[b].lose == 0 ::
          a == b)
    && (forall a, b, h | a in r.contracts && b in r.contracts
                         && InWindow(r.contracts[a], h) && InWindow(r.contracts[b], h) :: a == b)
  }

  lemma {:induction false} EveryRunKeeps(r: Registry, ops: seq<Op>, r': Registry)
    requires Inv(r) && Reaches(r, ops, r')
    ensures Inv(r') && OneAtATime(r')
    decreases |ops|
  {
    hide Inv, Deploy, Forbid, OneAtATime;
    if ops != [] {
      NextKeeps(r, ops[0]);
      EveryRunKeeps(Next(r, ops[0]), ops[1..], r');
    }
    InvMeansOne(r');
  }

  lemma NextKeeps(r: Registry, op: Op)
    requires Inv(r) && ListKept(r, op.ctx) && forall a :: a in r.order ==> a in r.contracts
    ensures Inv(Next(r, op))
  {
    hide Inv, Deploy, Forbid;
    match op {
      case Deploying(ctx, addr, version, effect, params) =>
        if Deploy(r, ctx, addr, version, effect, params).Ok? {
          DeployKeeps(r, ctx, addr, version, effect, params);
        }
      case Forbidding(ctx, addr, effect) =>
        if Forbid(r, ctx, addr, effect).Ok? {
          ForbidKeeps(r, ctx, addr, effect);
        }
    }
  }

  lemma InvMeansOne(r: Registry)
    requires Inv(r)
    ensures OneAtATime(r)
  {
    hide VersionsAgree, Sorting;
  }

  /** Some version's address comes after the open version's. */
  predicate OpenIsNotLast(r: Registry) {
    exists o, a :: o in r.contracts && a in r.contracts && r.contracts[o].lose == 0 && Before(o, a)
  }

  /** The checks before the one for a forbidden name. */
  predicate Admissible(r: Registry, ctx: Context, version: nat, effect: int, params: Params) {
    && !IsDisabled(r, ctx) && ctx.byOwner && WellFormed(params) && effect != 0
    && Signed(effect) > ctx.height + 1 && !Outdated(r, version, effect)
  }

  /**
   * A deployment that passes all other checks is refused as forbidden exactly when some
   * version's address comes after the open version's: whether an upgrade is possible
   * depends on the addresses.
   */
  lemma ForbiddenIff(r: Registry, ctx: Context, addr: Address, version: nat, effect: int, params: Params)
    requires Inv(r)
    ensures var o := Deploy(r, ctx, addr, version, effect, params);
            && (o == Refused(Forbidden) <==> Admissible(r, ctx, version, effect, params) && OpenIsNotLast(r))
            && (o.Ok? <==> Admissible(r, ctx, version, effect, params) && !OpenIsNotLast(r))
  {
    hide VersionsAgree, Outdated;
    if !IsDisabled(r, ctx) {
      LastIsClosedIff(r, ctx);
    }
  }

  /**
   * A deployment succeeds exactly if: the name is not reserved on an upgraded chain, no
   * version is of a later chain, one is open or there is none; the owner calls with a name
   * and a version and one gas value for each prototype; the effect height is after the next
   * height; every version is no newer and took effect before, and none has an address after
   * the open one's.
   */
  lemma DeploySucceedsIff(r: Registry, ctx: Context, addr: Address, version: nat, effect: int, params: Params)
    requires Inv(r)
    ensures Deploy(r, ctx, addr, version, effect, params).Ok? <==>
              && !(ctx.upgraded && ctx.reservedName)
              && (forall a :: a in r.contracts ==> r.contracts[a].chainVersion == 0)
              && (r.contracts != map[] ==> exists a :: a in r.contracts && r.contracts[a].lose == 0)
              && ctx.byOwner && params.named && params.prototypes == params.gases
              && effect != 0 && (if effect >= 0x8000_0000_0000_0000 then effect - 0x1_0000_0000_0000_0000 else effect) > ctx.height + 1
              && (forall a :: a in r.contracts ==> r.contracts[a].version <= version && r.contracts[a].effect < effect)
              && !(exists o, a :: o in r.contracts && a in r.contracts && r.contracts[o].lose == 0 && Before(o, a))
  {
    hide Inv, LastIsClosed;
    ForbiddenIff(r, ctx, addr, version, effect, params);
    hide Deploy;
  }

  /** A deployment is refused for the first of these that applies. */
  lemma DeployRefused(r: Registry, ctx: Context, addr: Address, version: nat, effect: int, params: Params)
    requires Inv(r)
    ensures Deploy(r, ctx, addr, version, effect, params).Refused? ==>
              var disabled := (ctx.upgraded && ctx.reservedName)
                              || (exists a :: a in r.contracts && r.contracts[a].chainVersion != 0)
                              || (r.contracts != map[] && forall a :: a in r.contracts ==> r.contracts[a].lose != 0);
              var old' := exists a :: a in r.contracts && (r.contracts[a].version > version || effect <= r.contracts[a].effect);
              Deploy(r, ctx, addr, version, effect, params).error ==
                if disabled then Disabled
                else if !ctx.byOwner then NoAuthorization
                else if !params.named || effect == 0 then InvalidParameter
                else if params.prototypes != params.gases then InvalidGasPrice
                else if (if effect >= 0x8000_0000_0000_0000 then effect - 0x1_0000_0000_0000_0000 else effect) <= ctx.height + 1 || old'
                then InvalidParameter
                else Forbidden
  {
    hide Inv, LastIsClosed;
  }

  lemma LastIsClosedIff(r: Registry, ctx: Context)
    requires Inv(r) && !IsDisabled(r, ctx)
    ensures LastIsClosed(r) <==> OpenIsNotLast(r)
  {
    hide VersionsAgree, OpenIsNotLast;
    EmptyIff(r.order, r.contracts.Keys);
    if r.order == [] {
      assert !OpenIsNotLast(r) by {
        NoneIsOpen(r);
      }
    } else {
      var last := r.order[|r.order| - 1];
      assert last in r.order;
      var o :| o in r.contracts && r.contracts[o].lose == 0;
      OnlyOpen(r, o, last);
    }
  }

  lemma NoneIsOpen(r: Registry)
    requires r.contracts.Keys == {}
    ensures !OpenIsNotLast(r)
  {
    assert forall a :: a !in r.contracts by {
      assert forall a :: a in r.contracts ==> a in r.contracts.Keys;
    }
  }

  lemma OnlyOpen(r: Registry, o: Address, last: Address)
    requires Inv(r) && o in r.contracts && r.contracts[o].lose == 0
    requires r.order != [] && last == r.order[|r.order| - 1] && last in r.contracts
    ensures r.contracts[last].lose != 0 <==> o != last
    ensures OpenIsNotLast(r) <==> o != last
  {
    hide VersionsAgree;
    assert o in r.order;
    if o != last {
      assert Apart(r.contracts[o], r.contracts[last]);
      assert Before(o, last);
    }
    forall p, a | p in r.contracts && a in r.contracts && r.contracts[p].lose == 0 && Before(p, a) ensures o != last {
      assert p != o ==> Apart(r.contracts[p], r.contracts[o]);
      assert a in r.order;
      Trichotomy(p, a);
      Trichotomy(last, a);
    }
  }

  /** Versions 1 and 2 of a contract, at the addresses "b" and then "a". */
  const TWO_VERSIONS: seq<Op> := [
    Deploying(Context(0, false, false, true), "b", 1, 10, Params(true, 0, 0)),
    Deploying(Context(10, false, false, true), "a", 2, 20, Params(true, 0, 0))]

  /** The registry that they lead to. */
  const UPGRADED: Registry :=
    Registry(map["b" := Contract(1, 10, 20, 0), "a" := Contract(2, 20, 0, 0)], ["a", "b"], [])

  lemma TwoVersionsReach()
    ensures Reaches(Registry(map[], [], []), TWO_VERSIONS, UPGRADED)
  {
    var r1 := Registry(map["b" := Contract(1, 10, 0, 0)], ["b"], []);
    assert Next(Registry(map[], [], []), TWO_VERSIONS[0]) == r1;
    assert TWO_VERSIONS[1..] == [TWO_VERSIONS[1]] && TWO_VERSIONS[1..][1..] == [];
    assert Before("a", "b");
    assert r1.contracts["b"].lose == 0;
    assert Closed(r1.contracts, 20) == map["b" := Contract(1, 10, 20, 0)];
    assert Next(r1, TWO_VERSIONS[1]) == UPGRADED;
    assert Reaches(UPGRADED, [], UPGRADED);
  }

  /** The version with the greatest address is closed. */
  predicate Barred(r: Registry) {
    (forall a :: a in r.order ==> a in r.contracts) && LastIsClosed(r)
  }

  /** That is for good: whatever follows, no deployment is accepted and no address is added. */
  lemma {:induction false} BarredForGood(r: Registry, ops: seq<Op>, r': Registry, ctx: Context, addr: Address,
                                         version: nat, effect: int, params: Params)
    requires Barred(r) && Reaches(r, ops, r')
    ensures Barred(r') && r'.order == r.order && r'.contracts.Keys == r.contracts.Keys
    ensures !Deploy(r', ctx, addr, version, effect, params).Ok?
    decreases |ops|
  {
    if ops != [] {
      BarredForGood(Next(r, ops[0]), ops[1..], r', ctx, addr, version, effect, params);
    }
  }

  /** A deployment is the name's last exactly if some older version has a greater address. */
  lemma LastDeploymentIff(r: Registry, ctx: Context, addr: Address, version: nat, effect: int, params: Params)
    requires Inv(r) && ListKept(r, ctx) && Deploy(r, ctx, addr, version, effect, params).Ok?
    ensures Barred(Deploy(r, ctx, addr, version, effect, params).registry)
       <==> exists b :: b in r.contracts && Before(addr, b)
  {
    DeployKeeps(r, ctx, addr, version, effect, params);
    var r' := Deploy(r, ctx, addr, version, effect, params).registry;
    assert r'.contracts[addr].lose == 0 && r'.contracts.Keys == r.contracts.Keys + {addr};
    hide Inv, Deploy, ListKept, Barred;
    OpenBars(r', addr);
    Trichotomy(addr, addr);
    assert forall b :: b in r'.contracts <==> b in r.contracts || b == addr by {
      assert forall b :: b in r'.contracts <==> b in r'.contracts.Keys;
    }
  }

  lemma OpenBars(r: Registry, o: Address)
    requires Inv(r) && o in r.contracts && r.contracts[o].lose == 0
    ensures Barred(r) <==> exists b :: b in r.contracts && Before(o, b)
  {
    hide VersionsAgree, Apart, Proper;
    assert o in r.order;
    var last := r.order[|r.order| - 1];
    assert last in r.order;
    OnlyOpen(r, o, last);
    if o != last {
      assert Before(o, last);
    } else {
      forall b | b in r.contracts ensures !Before(o, b) {
        assert b in r.order;
        Trichotomy(b, o);
      }
    }
  }

  /** No third version is ever accepted then, whatever is forbidden before; this one is admissible. */
  lemma ThirdVersionForbidden(ops: seq<Op>, r: Registry, ctx: Context, addr: Address, version: nat, effect: int,
                              params: Params)
    requires Reaches(UPGRADED, ops, r)
    ensures Barred(r)
    ensures !Deploy(r, ctx, addr, version, effect, params).Ok?
    ensures Deploy(UPGRADED, Context(20, false, false, true), "c", 3, 30, Params(true, 0, 0)) == Refused(Forbidden)
  {
    assert UPGRADED.contracts["a"].lose == 0 && UPGRADED.contracts["b"].lose != 0;
    BarredForGood(UPGRADED, ops, r, ctx, addr, version, effect, params);
  }

  // ----- look-ups ---------------------------------------------------------------------------------

  /** The contract a forward scan of the version list stops at: the first effective one. */
  function FirstEffective(r: Registry, from: nat, h: int): (a: seq<Address>)
    requires from <= |r.versions|
    ensures |a| <= 1
    decreases |r.versions| - from
  {
    if from == |r.versions| then []
    else
      var a := r.versions[from].addr;
      if a in r.contracts && InWindow(r.contracts[a], h) then [a] else FirstEffective(r, from + 1, h)
  }

  /** The contract a backward scan stops at: the last line in effect by its recorded height. */
  function LastRecorded(r: Registry, upTo: nat, h: int): (a: seq<Address>)
    requires upTo <= |r.versions|
    ensures |a| <= 1
  {
    if upTo == 0 then []
    else if r.versions[upTo - 1].effect <= h then [r.versions[upTo - 1].addr]
    else LastRecorded(r, upTo - 1, h)
  }

  lemma {:induction false} LastRecordedIs(r: Registry, upTo: nat, h: int)
    requires upTo <= |r.versions|
    ensures var a := LastRecorded(r, upTo, h);
            if a == [] then forall i :: 0 <= i < upTo ==> r.versions[i].effect > h
            else exists i :: 0 <= i < upTo && a[0] == r.versions[i].addr && r.versions[i].effect <= h
                             && forall j :: i < j < upTo ==> r.versions[j].effect > h
  {
    if upTo > 0 && r.versions[upTo - 1].effect > h {
      LastRecordedIs(r, upTo - 1, h);
    } else if upTo > 0 {
      assert LastRecorded(r, upTo, h)[0] == r.versions[upTo - 1].addr;
    }
  }

  lemma {:induction false} FirstEffectiveIs(r: Registry, from: nat, h: int)
    requires from <= |r.versions|
    ensures var a := FirstEffective(r, from, h);
            if a == [] then forall i :: from <= i < |r.versions| && r.versions[i].addr in r.contracts
                              ==> !InWindow(r.contracts[r.versions[i].addr], h)
            else a[0] in r.contracts && InWindow(r.contracts[a[0]], h)
                 && exists i :: from <= i < |r.versions| && r.versions[i].addr == a[0]
    decreases |r.versions| - from
  {
    if from < |r.versions| {
      FirstEffectiveIs(r, from + 1, h);
    }
  }

  /**
   * Whenever the forward scan over windows finds a contract, the backward scan over
   * recorded effect heights returns the same one; and the forward scan finds one
   * exactly when the contract the backward scan returns is in its window.
   */
  lemma ScansAgree(r: Registry, h: int)
    requires Inv(r)
    ensures var forward, backward := FirstEffective(r, 0, h), LastRecorded(r, |r.versions|, h);
            && (forward != [] ==> backward == forward)
            && (forward != [] <==>
                  backward != [] && backward[0] in r.contracts && InWindow(r.contracts[backward[0]], h))
  {
    hide Sorting, Proper, Apart, FirstEffective, LastRecorded;
    var backward := LastRecorded(r, |r.versions|, h);
    FirstEffectiveIs(r, 0, h);
    if FirstEffective(r, 0, h) != [] {
      BackwardFinds(r, FirstEffective(r, 0, h)[0], h);
    }
    if backward != [] {
      LastRecordedIs(r, |r.versions|, h);
      var j :| 0 <= j < |r.versions| && backward[0] == r.versions[j].addr;
    }
  }

  lemma BackwardFinds(r: Registry, x: Address, h: int)
    requires VersionsAgree(r) && x in r.contracts && InWindow(r.contracts[x], h)
    requires exists i :: 0 <= i < |r.versions| && r.versions[i].addr == x
    ensures LastRecorded(r, |r.versions|, h) == [x]
  {
    hide VersionsAgree, LastRecorded;
    var backward := LastRecorded(r, |r.versions|, h);
    LastRecordedIs(r, |r.versions|, h);
    SomeRecorded(r, x, h);
    assert backward != [];
    var j :| 0 <= j < |r.versions| && backward[0] == r.versions[j].addr && r.versions[j].effect <= h
             && forall l :: j < l < |r.versions| ==> r.versions[l].effect > h;
    EffectiveIsRecorded(r, x, h, j);
  }

  lemma SomeRecorded(r: Registry, x: Address, h: int)
    requires VersionsAgree(r) && x in r.contracts && InWindow(r.contracts[x], h)
    requires exists i :: 0 <= i < |r.versions| && r.versions[i].addr == x
    ensures exists k :: 0 <= k < |r.versions| && r.versions[k].effect <= h
  {
    var i :| 0 <= i < |r.versions| && r.versions[i].addr == x;
    var k := CurrentLine(r, i);
    assert r.versions[k].effect <= h;
  }

  /** A listed contract in its window has the last line recorded up to that height. */
  lemma EffectiveIsRecorded(r: Registry, x: Address, h: int, j: nat)
    requires VersionsAgree(r) && x in r.contracts && InWindow(r.contracts[x], h)
    requires exists i :: 0 <= i < |r.versions| && r.versions[i].addr == x
    requires j < |r.versions| && r.versions[j].effect <= h
    requires forall l :: j < l < |r.versions| ==> r.versions[l].effect > h
    ensures r.versions[j].addr == x
  {
    var i :| 0 <= i < |r.versions| && r.versions[i].addr == x;
    var k := CurrentLine(r, i);
    assert r.versions[k].effect <= h;
    assert k < j ==> ClosedBy(r, k, j);
  }

  /** The line that describes the contract as it now stands. */
  lemma CurrentLine(r: Registry, i: nat) returns (k: nat)
    requires VersionsAgree(r) && i < |r.versions|
    ensures i <= k < |r.versions| && r.versions[k].addr == r.versions[i].addr && Current(r, k)
  {
    k := i;
    if !Current(r, i) {
      k :| i < k < |r.versions| && r.versions[k].addr == r.versions[i].addr && Current(r, k);
    }
  }
}
