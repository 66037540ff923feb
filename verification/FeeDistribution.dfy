/**
 * Distributing a transaction's fees on chain version 2: fees are gathered by payer,
 * and each payer's fee is shared over the reward strategy in basis points.
 */
module FeeDistribution {
  import opened Sums
  import opened BufferBytes

  type Address = string

  /** One receipt of a fee. */
  datatype Fee = Fee(from: Address, token: Address, value: int)

  /** One line of the strategy; 10000 basis points are the whole. */
  datatype Reward = Reward(name: string, address: Address, points: nat, parses: bool)

  const INT63 := 0x8000_0000_0000_0000
  const UINT64 := 0x1_0000_0000_0000_0000

  /** The int64 value of a sum, which wraps. */
  function Int64(x: int): int {
    (x + INT63) % UINT64 - INT63
  }

  // ----- gathering -------------------------------------------------------------------------

  /** The fees of a payer are added up and carry the token of the payer's last one. */
  function Gathered(fees: seq<Fee>): map<Address, Fee> {
    if fees == [] then map[] else Gather(Gathered(fees[..|fees| - 1]), fees[|fees| - 1])
  }

  function Gather(m: map<Address, Fee>, f: Fee): map<Address, Fee> {
    m[f.from := if f.from in m then f.(value := Int64(m[f.from].value + f.value)) else f]
  }

  function WrappedTotal(fees: seq<Fee>): int {
    if fees == [] then 0 else Int64(WrappedTotal(fees[..|fees| - 1]) + fees[|fees| - 1].value)
  }

  function TotalFee(fees: seq<Fee>): int {
    if fees == [] then 0 else TotalFee(fees[..|fees| - 1]) + fees[|fees| - 1].value
  }

  /** What one payer paid in one token. */
  function PaidIn(fees: seq<Fee>, a: Address, token: Address): int {
    if fees == [] then 0
    else
      var last := fees[|fees| - 1];
      PaidIn(fees[..|fees| - 1], a, token) + if last.from == a && last.token == token then last.value else 0
  }

  function PaidBy(fees: seq<Fee>, a: Address): int {
    if fees == [] then 0
    else
      var last := fees[|fees| - 1];
      PaidBy(fees[..|fees| - 1], a) + if last.from == a then last.value else 0
  }

  ghost function Values(m: map<Address, Fee>): map<Address, int> {
    map a | a in m :: m[a].value
  }

  /** No fee is negative, and together they stay below 2^63. */
  ghost predicate Fits(fees: seq<Fee>) {
    (forall f :: f in fees ==> f.value >= 0) && TotalFee(fees) < INT63
  }

  lemma Int64Facts(x: int)
    ensures (Int64(x) - x) % UINT64 == 0
    ensures -INT63 <= x < INT63 ==> Int64(x) == x
    ensures -0x8000_0000_0000_0000 <= Int64(x) < 0x8000_0000_0000_0000
  {
  }

  lemma SameRemainder(a: int, b: int, c: int)
    requires (a - b) % UINT64 == 0 && (b - c) % UINT64 == 0
    ensures (a - c) % UINT64 == 0
  {
  }

  /** Grouping by payer preserves the total fee up to multiples of 2^64. */
  lemma {:induction false} GatheringWraps(fees: seq<Fee>)
    ensures (Sum(Values(Gathered(fees))) - TotalFee(fees)) % UINT64 == 0
    ensures (WrappedTotal(fees) - TotalFee(fees)) % UINT64 == 0
    ensures -0x8000_0000_0000_0000 <= WrappedTotal(fees) < 0x8000_0000_0000_0000
  {
    hide Sum;
    if fees == [] {
      SumEmpty();
      assert Values(Gathered(fees)) == map[];
    } else {
      var n := |fees| - 1;
      GatheringWraps(fees[..n]);
      GatherStep(Gathered(fees[..n]), fees[n]);
      var sum, total := Sum(Values(Gathered(fees[..n]))), TotalFee(fees[..n]);
      SameRemainder(Sum(Values(Gathered(fees))), sum + fees[n].value, total + fees[n].value);
      Int64Facts(WrappedTotal(fees[..n]) + fees[n].value);
      SameRemainder(WrappedTotal(fees), WrappedTotal(fees[..n]) + fees[n].value, total + fees[n].value);
    }
  }

  lemma SumEmpty()
    ensures Sum<Address>(map[]) == 0
  {
  }

  /** One more fee changes the gathered sum by its value, up to a wrap. */
  lemma GatherStep(m: map<Address, Fee>, f: Fee)
    ensures Sum(Values(Gather(m, f))) == Sum(Values(m)) - At(Values(m), f.from) + Gather(m, f)[f.from].value
    ensures (Sum(Values(Gather(m, f))) - (Sum(Values(m)) + f.value)) % UINT64 == 0
  {
    hide Sum, Int64;
    Int64Facts(At(Values(m), f.from) + f.value);
    var g := Gather(m, f)[f.from];
    assert (g.value - (At(Values(m), f.from) + f.value)) % UINT64 == 0;
    SumSet(Values(m), f.from, g.value);
    assert Values(Gather(m, f)) == Values(m)[f.from := g.value];
  }

  /** The payers gathered are those with a fee. */
  lemma {:induction false} GatheredKeys(fees: seq<Fee>, a: Address)
    ensures a in Gathered(fees) <==> exists f :: f in fees && f.from == a
    ensures a in Gathered(fees) ==> Gathered(fees)[a].from == a
  {
    hide Int64;
    if fees != [] {
      var n := |fees| - 1;
      assert fees == fees[..n] + [fees[n]];
      GatheredKeys(fees[..n], a);
    }
  }

  /** Gathered values stay in the range of an int64. */
  lemma {:induction false} GatheredInRange(fees: seq<Fee>, a: Address)
    requires forall f :: f in fees ==> -0x8000_0000_0000_0000 <= f.value < 0x8000_0000_0000_0000
    ensures a in Gathered(fees) ==> -0x8000_0000_0000_0000 <= Gathered(fees)[a].value < 0x8000_0000_0000_0000
  {
    hide Int64;
    if fees != [] {
      var n := |fees| - 1;
      assert fees == fees[..n] + [fees[n]];
      assert fees[n] in fees;
      GatheredInRange(fees[..n], a);
      Int64Facts(At(Values(Gathered(fees[..n])), a) + fees[n].value);
    }
  }

  /** Without a wrap: each payer's gathered value is what the payer paid. */
  lemma {:induction false} GatheredIs(fees: seq<Fee>, a: Address)
    requires Fits(fees)
    ensures 0 <= PaidBy(fees, a) <= TotalFee(fees)
    ensures At(Values(Gathered(fees)), a) == PaidBy(fees, a)
  {
    hide Int64;
    if fees != [] {
      var n := |fees| - 1;
      assert fees == fees[..n] + [fees[n]];
      assert fees[n] in fees;
      GatheredIs(fees[..n], a);
      Int64Facts(PaidBy(fees[..n], a) + fees[n].value);
    }
  }

  /** Grouping by payer preserves the total fee. */
  lemma {:induction false} GatheringPreservesTotal(fees: seq<Fee>)
    requires Fits(fees)
    ensures Sum(Values(Gathered(fees))) == WrappedTotal(fees) == TotalFee(fees) >= 0
  {
    hide Sum, Int64;
    if fees == [] {
      SumEmpty();
      assert Values(Gathered(fees)) == map[];
    } else {
      var n := |fees| - 1;
      assert fees == fees[..n] + [fees[n]];
      assert fees[n] in fees;
      GatheringPreservesTotal(fees[..n]);
      GatheredIs(fees[..n], fees[n].from);
      GatherStep(Gathered(fees[..n]), fees[n]);
      Int64Facts(TotalFee(fees));
      Int64Facts(PaidBy(fees[..n], fees[n].from) + fees[n].value);
    }
  }

  /**
   * A payer's gathered fee is right in every token exactly if all the payer's fees other
   * than 0 are in the token of the last one.
   */
  lemma TokenKeptIff(fees: seq<Fee>, a: Address)
    requires Fits(fees) && a in Gathered(fees)
    ensures TokenKept(fees, a, Gathered(fees)[a]) <==> InOneToken(fees, a, LastToken(fees, a))
  {
    GatheredIs(fees, a);
    GatheredToken(fees, a);
    var g := Gathered(fees)[a];
    hide Gathered;
    if TokenKept(fees, a, g) {
      forall f | f in fees && f.from == a && f.value != 0 ensures f.token == g.token {
        PaidAtLeast(fees, f);
        assert PaidIn(fees, a, f.token) != 0;
      }
    }
    if InOneToken(fees, a, g.token) {
      forall t ensures PaidIn(fees, a, t) == if t == g.token then g.value else 0 {
        PaidInOne(fees, a, g.token, t);
      }
    }
  }

  /** The token of the payer's last fee. */
  function LastToken(fees: seq<Fee>, a: Address): Address {
    if fees == [] then ""
    else if fees[|fees| - 1].from == a then fees[|fees| - 1].token
    else LastToken(fees[..|fees| - 1], a)
  }

  lemma {:induction false} GatheredToken(fees: seq<Fee>, a: Address)
    requires a in Gathered(fees)
    ensures Gathered(fees)[a].token == LastToken(fees, a)
  {
    hide Int64;
    var n := |fees| - 1;
    if fees[n].from != a {
      GatheredToken(fees[..n], a);
    }
  }

  /** One unit in each of two tokens is gathered as two units of the second. */
  lemma TwoTokens(p: Address, t: Address, u: Address)
    requires t != u
    ensures var fees := [Fee(p, t, 1), Fee(p, u, 1)];
            && Gathered(fees) == map[p := Fee(p, u, 2)]
            && Fits(fees) && !TokenKept(fees, p, Fee(p, u, 2))
  {
    var first, fees := [Fee(p, t, 1)], [Fee(p, t, 1), Fee(p, u, 1)];
    assert fees[..|fees| - 1] == first && first[..|first| - 1] == [];
    assert Gathered(first) == map[p := Fee(p, t, 1)];
    assert Gathered(fees) == Gather(Gathered(first), Fee(p, u, 1));
    assert TotalFee(first) == 1 && TotalFee(fees) == TotalFee(first) + 1;
    assert PaidIn(first, p, u) == 0 && PaidIn(fees, p, u) == PaidIn(first, p, u) + 1;
  }

  /** In every token, what the payer paid is what is gathered. */
  ghost predicate TokenKept(fees: seq<Fee>, a: Address, g: Fee) {
    forall t :: PaidIn(fees, a, t) == if t == g.token then g.value else 0
  }

  ghost predicate InOneToken(fees: seq<Fee>, a: Address, token: Address) {
    forall f :: f in fees && f.from == a && f.value != 0 ==> f.token == token
  }

  lemma {:induction false} PaidAtLeast(fees: seq<Fee>, f: Fee)
    requires forall g :: g in fees ==> g.value >= 0
    ensures PaidIn(fees, f.from, f.token) >= if f in fees then f.value else 0
  {
    if fees != [] {
      var n := |fees| - 1;
      assert fees == fees[..n] + [fees[n]];
      assert fees[n] in fees;
      PaidAtLeast(fees[..n], f);
    }
  }

  lemma {:induction false} PaidInOne(fees: seq<Fee>, a: Address, token: Address, t: Address)
    requires InOneToken(fees, a, token)
    ensures PaidIn(fees, a, t) == if t == token then PaidBy(fees, a) else 0
  {
    if fees != [] {
      var n := |fees| - 1;
      assert fees == fees[..n] + [fees[n]];
      assert fees[n] in fees;
      PaidInOne(fees[..n], a, token, t);
    }
  }

  /** gatherFeesByFromAddr. */
  method GatherFeesByFromAddr(fees: seq<Fee>) returns (byPayer: map<Address, Fee>, total: int)
    ensures byPayer == Gathered(fees) && total == WrappedTotal(fees)
  {
    byPayer, total := map[], 0;
    for i := 0 to |fees|
      invariant byPayer == Gathered(fees[..i]) && total == WrappedTotal(fees[..i])
    {
      assert fees[..i + 1][..i] == fees[..i];
      var fee := fees[i];
      total := Int64(total + fee.value);
      if fee.from in byPayer {
        fee := fee.(value := Int64(byPayer[fee.from].value + fee.value));
      }
      byPayer := byPayer[fee.from := fee];
    }
    assert fees[..|fees|] == fees;
  }

  // ----- sharing one fee -----------------------------------------------------------------------

  function Payee(r: Reward, proposer: Address): Address {
    if r.address == "" && r.name == "validators" then proposer else r.address
  }

  function Award(fee: int, points: nat): int {
    fee * points / 10000
  }

  function Awards(items: seq<Reward>, fee: int): int {
    if items == [] then 0 else Awards(items[..|items| - 1], fee) + Award(fee, items[|items| - 1].points)
  }

  function Points(items: seq<Reward>): nat {
    if items == [] then 0 else Points(items[..|items| - 1]) + items[|items| - 1].points
  }

  /** The lines before the first whose percentage does not parse. */
  function Parsed(items: seq<Reward>): (r: seq<Reward>)
    ensures r <= items && (forall x :: x in r ==> x.parses)
    ensures r == items || !items[|r|].parses
  {
    if items == [] then []
    else if !items[0].parses then []
    else [items[0]] + Parsed(items[1..])
  }

  datatype Account = Account(owner: Address, token: Address)

  /** The balances, and the block's record of rewards, which adds up all tokens. */
  datatype Books = Books(balances: map<Account, int>, rewards: map<Address, int>)

  function Credit<K>(m: map<K, int>, a: K, v: int): map<K, int> {
    m[a := At(m, a) + v]
  }

  function Shared(b: Books, items: seq<Reward>, fee: Fee, proposer: Address): Books {
    if items == [] then b
    else
      var p, last := Shared(b, items[..|items| - 1], fee, proposer), items[|items| - 1];
      var a, award := Payee(last, proposer), Award(fee.value, last.points);
      Books(Credit(p.balances, Account(a, fee.token), award), Credit(p.rewards, a, award))
  }

  function Charged(b: Books, fee: Fee): Books {
    b.(balances := Credit(b.balances, Account(fee.from, fee.token), -fee.value))
  }

  /**
   * distributeFee: on the failed or virtual-machine path the payer is charged here.  A
   * percentage that does not parse ends the sharing, and what was shared stays.
   */
  function Distributed(b: Books, fee: Fee, items: seq<Reward>, proposer: Address, charge: bool): Books {
    Shared(if charge then Charged(b, fee) else b, Parsed(items), fee, proposer)
  }

  lemma AwardBounds(fee: int, points: nat)
    ensures Award(fee, points) * 10000 <= fee * points <= Award(fee, points) * 10000 + 9999
    ensures Award(fee, points) * 10000 == fee * points <==> fee * points % 10000 == 0
  {
  }

  lemma DistributePoints(fee: int, p: nat, q: nat)
    ensures fee * (p + q) == fee * p + fee * q
  {
  }

  /** Every line's share is a whole number. */
  predicate Whole(items: seq<Reward>, fee: int) {
    forall i :: 0 <= i < |items| ==> fee * items[i].points % 10000 == 0
  }

  lemma {:induction false} AwardsBounds(items: seq<Reward>, fee: int)
    ensures Awards(items, fee) * 10000 <= fee * Points(items) <= Awards(items, fee) * 10000 + 9999 * |items|
    ensures Awards(items, fee) * 10000 == fee * Points(items) <==> Whole(items, fee)
  {
    hide Award;
    if items != [] {
      var n := |items| - 1;
      AwardsBounds(items[..n], fee);
      AwardBounds(fee, items[n].points);
      DistributePoints(fee, Points(items[..n]), items[n].points);
      assert Whole(items, fee) <==> Whole(items[..n], fee) && fee * items[n].points % 10000 == 0;
    }
  }

  /**
   * Shares of 100 percent fall short of the fee by less than one unit for each rewarder,
   * and by nothing exactly if every line's share is a whole number.
   */
  lemma DustBound(items: seq<Reward>, fee: int)
    requires Points(items) == 10000
    ensures 0 <= fee - Awards(items, fee) < |items|
    ensures Awards(items, fee) == fee <==> Whole(items, fee)
  {
    assert items != [];
    AwardsBounds(items, fee);
    hide Awards, Points, Whole;
  }

  /** The sum of the balances in one token. */
  ghost function InToken(balances: map<Account, int>, t: Address): int {
    Sum(map k | k in balances && k.token == t :: balances[k])
  }

  lemma CreditToken(balances: map<Account, int>, k: Account, v: int, t: Address)
    ensures InToken(Credit(balances, k, v), t) == InToken(balances, t) + if k.token == t then v else 0
  {
    hide Sum;
    var own := map x | x in balances && x.token == t :: balances[x];
    var now := Credit(balances, k, v);
    var own' := map x | x in now && x.token == t :: now[x];
    if k.token == t {
      SumSet(own, k, At(own, k) + v);
      assert own' == own[k := At(own, k) + v];
    } else {
      assert own' == own;
    }
  }

  lemma CreditSum<K>(m: map<K, int>, a: K, v: int)
    ensures Sum(Credit(m, a, v)) == Sum(m) + v
  {
    SumSet(m, a, At(m, a) + v);
  }

  lemma {:induction false} SharedSums(b: Books, items: seq<Reward>, fee: Fee, proposer: Address, t: Address)
    ensures var b' := Shared(b, items, fee, proposer);
            && InToken(b'.balances, t) == InToken(b.balances, t) + (if t == fee.token then Awards(items, fee.value) else 0)
            && Sum(b'.rewards) == Sum(b.rewards) + Awards(items, fee.value)
  {
    hide Award, Sum, Payee, Credit, InToken;
    if items != [] {
      var n := |items| - 1;
      SharedSums(b, items[..n], fee, proposer, t);
      var p := Shared(b, items[..n], fee, proposer);
      CreditToken(p.balances, Account(Payee(items[n], proposer), fee.token), Award(fee.value, items[n].points), t);
      CreditSum(p.rewards, Payee(items[n], proposer), Award(fee.value, items[n].points));
    }
  }

  /** What an address gains in balance is what is recorded as its reward. */
  lemma {:induction false} SharedRecords(b: Books, items: seq<Reward>, fee: Fee, proposer: Address, a: Address)
    ensures var b', k := Shared(b, items, fee, proposer), Account(a, fee.token);
            && At(b'.balances, k) - At(b.balances, k) == At(b'.rewards, a) - At(b.rewards, a)
            && (fee.value >= 0 ==> At(b'.balances, k) >= At(b.balances, k))
            && (forall x: Account :: x.token != fee.token ==> At(b'.balances, x) == At(b.balances, x))
  {
    if items != [] {
      var n := |items| - 1;
      AwardBounds(fee.value, items[n].points);
      hide Award;
      SharedRecords(b, items[..n], fee, proposer, a);
    }
  }

  /**
   * What the lines award an address: a line without an address that is named "validators"
   * is the proposer's, every other line is its address's.
   */
  function AwardOf(items: seq<Reward>, fee: int, proposer: Address, a: Address): int {
    if items == [] then 0
    else
      var last := items[|items| - 1];
      var mine := if last.address != "" || last.name != "validators" then a == last.address else a == proposer;
      AwardOf(items[..|items| - 1], fee, proposer, a) + if mine then fee * last.points / 10000 else 0
  }

  lemma {:induction false} SharedAwards(b: Books, items: seq<Reward>, fee: Fee, proposer: Address, k: Account)
    ensures var b' := Shared(b, items, fee, proposer);
            && At(b'.rewards, k.owner) == At(b.rewards, k.owner) + AwardOf(items, fee.value, proposer, k.owner)
            && At(b'.balances, k) == At(b.balances, k)
                 + if k.token == fee.token then AwardOf(items, fee.value, proposer, k.owner) else 0
  {
    if items != [] {
      SharedAwards(b, items[..|items| - 1], fee, proposer, k);
    }
  }

  /**
   * Distributing one fee, account by account: in the fee's token everybody gains the awards
   * of the lines before the first that does not parse, which are recorded as rewards, and
   * where the payer is charged here the payer loses the fee; nothing else changes.
   */
  lemma DistributedAwards(b: Books, fee: Fee, items: seq<Reward>, proposer: Address, charge: bool, k: Account)
    ensures var b' := Distributed(b, fee, items, proposer, charge);
            var award := AwardOf(Parsed(items), fee.value, proposer, k.owner);
            && At(b'.rewards, k.owner) == At(b.rewards, k.owner) + award
            && At(b'.balances, k) == At(b.balances, k) + (if k.token == fee.token then award else 0)
                 - (if charge && k == Account(fee.from, fee.token) then fee.value else 0)
  {
    hide Shared, AwardOf, Parsed;
    SharedAwards(if charge then Charged(b, fee) else b, Parsed(items), fee, proposer, k);
  }

  lemma ChargedToken(b: Books, fee: Fee, t: Address)
    ensures Charged(b, fee).rewards == b.rewards
    ensures InToken(Charged(b, fee).balances, t) == InToken(b.balances, t) - if t == fee.token then fee.value else 0
  {
    hide InToken;
    CreditToken(b.balances, Account(fee.from, fee.token), -fee.value, t);
  }

  /**
   * Distributing one fee with shares of 100 percent: where the payer is charged here the
   * sum of the token's balances drops by exactly the dust; where the contract has charged
   * the payer already, the sum grows by the fee less the dust.  There is no dust exactly
   * if every share is a whole number.
   */
  lemma DistributionDust(b: Books, fee: Fee, items: seq<Reward>, proposer: Address, charge: bool, t: Address)
    requires Points(Parsed(items)) == 10000
    ensures var b' := Distributed(b, fee, items, proposer, charge);
            var dust := Sum(b.rewards) + fee.value - Sum(b'.rewards);
            && 0 <= dust < |items|
            && (dust == 0 <==> Whole(Parsed(items), fee.value))
            && InToken(b'.balances, t) == InToken(b.balances, t)
               + (if t == fee.token then (if charge then 0 else fee.value) - dust else 0)
  {
    hide Awards, Points, Shared, Sum, InToken, Charged, Whole, Parsed;
    DustBound(Parsed(items), fee.value);
    ChargedToken(b, fee, t);
    SharedSums(if charge then Charged(b, fee) else b, Parsed(items), fee, proposer, t);
  }

  /** A fee of 1 over two halves is lost altogether. */
  lemma OneUnitIsLost(b: Books, payer: Address, token: Address, proposer: Address)
    ensures var items := [Reward("validators", "", 5000, true), Reward("r", "r", 5000, true)];
            var b' := Distributed(b, Fee(payer, token, 1), items, proposer, true);
            && Points(Parsed(items)) == 10000
            && InToken(b'.balances, token) == InToken(b.balances, token) - 1
            && Sum(b'.rewards) == Sum(b.rewards)
  {
    hide Sum, InToken;
    var v, r := Reward("validators", "", 5000, true), Reward("r", "r", 5000, true);
    var items := [v, r];
    assert items[..|items| - 1] == [v] && items[1..] == [r] && items[|items| - 1] == r;
    assert Parsed([r]) == [r] && Parsed(items) == items;
    assert Points([v]) == 5000 && Points(items) == Points([v]) + 5000;
    assert Awards([v], 1) == 0 && Awards(items, 1) == Awards([v], 1);
    hide Parsed, Awards, Points, Shared, Credit;
    var fee := Fee(payer, token, 1);
    CreditToken(b.balances, Account(payer, token), -1, token);
    SharedSums(Charged(b, fee), items, fee, proposer, token);
  }

  // ----- all payers -------------------------------------------------------------------------------

  /** The payers' gathered fees are distributed in the order of the keys. */
  function DistributedAll(b: Books, m: map<Address, Fee>, keys: seq<Address>, items: seq<Reward>, proposer: Address,
                          charge: bool): Books
    requires forall k :: k in keys ==> k in m
  {
    if keys == [] then b
    else
      var n := |keys| - 1;
      Distributed(DistributedAll(b, m, keys[..n], items, proposer, charge), m[keys[n]], items, proposer, charge)
  }

  /** The gathered values in one token. */
  ghost function ValuesIn(m: map<Address, Fee>, t: Address): map<Address, int> {
    map a | a in m :: if m[a].token == t then m[a].value else 0
  }

  /** The dust lost so far in one token, at most one unit less than the rewarders for each payer. */
  ghost predicate DustUpTo(m: map<Address, Fee>, keys: seq<Address>, items: seq<Reward>, t: Address, dust: int)
    requires forall k :: k in keys ==> k in m
  {
    && 0 <= dust <= |keys| * (|items| - 1)
    && (dust == 0 <==> forall k :: k in keys && m[k].token == t ==> Whole(Parsed(items), m[k].value))
  }

  lemma {:induction false} DustAlong(b: Books, m: map<Address, Fee>, keys: seq<Address>, items: seq<Reward>,
                                     proposer: Address, charge: bool, t: Address)
    requires Points(Parsed(items)) == 10000
    requires forall k :: k in keys ==> k in m
    ensures var b' := DistributedAll(b, m, keys, items, proposer, charge);
            var paid := Along(ValuesIn(m, t), keys);
            DustUpTo(m, keys, items, t, InToken(b.balances, t) + (if charge then 0 else paid) - InToken(b'.balances, t))
  {
    hide Points, Parsed, Distributed, Awards, Sum, InToken, Whole, DustUpTo;
    if keys != [] {
      var n := |keys| - 1;
      DustAlong(b, m, keys[..n], items, proposer, charge, t);
      var p := DistributedAll(b, m, keys[..n], items, proposer, charge);
      var b' := DistributedAll(b, m, keys, items, proposer, charge);
      DistributionDust(p, m[keys[n]], items, proposer, charge, t);
      var more := Sum(p.rewards) + m[keys[n]].value - Sum(b'.rewards);
      var before := InToken(b.balances, t) + (if charge then 0 else Along(ValuesIn(m, t), keys[..n])) - InToken(p.balances, t);
      DustStep(m, keys, items, t, before, more);
    } else {
      NoDust(m, items, t);
    }
  }

  lemma NoDust(m: map<Address, Fee>, items: seq<Reward>, t: Address)
    ensures DustUpTo(m, [], items, t, 0)
  {
  }

  lemma OneMore(n: nat, k: int)
    ensures (n + 1) * k == n * k + k
  {
  }

  lemma DustStep(m: map<Address, Fee>, keys: seq<Address>, items: seq<Reward>, t: Address, before: int, more: int)
    requires keys != [] && forall k :: k in keys ==> k in m
    requires DustUpTo(m, keys[..|keys| - 1], items, t, before)
    requires 0 <= more < |items| && (more == 0 <==> Whole(Parsed(items), m[keys[|keys| - 1]].value))
    ensures DustUpTo(m, keys, items, t, before + if m[keys[|keys| - 1]].token == t then more else 0)
  {
    hide Whole, Parsed;
    var n := |keys| - 1;
    OneMore(n, |items| - 1);
    assert forall k :: k in keys <==> k in keys[..n] || k == keys[n] by {
      assert keys == keys[..n] + [keys[n]];
    }
  }

  /** What each payer's fee awards an address, over all tokens. */
  ghost function AwardsOf(m: map<Address, Fee>, items: seq<Reward>, proposer: Address, a: Address): map<Address, int> {
    map p | p in m :: AwardOf(Parsed(items), m[p].value, proposer, a)
  }

  /** What each payer's fee adds to an account: awards in its token, less its own charged fee. */
  ghost function Gains(m: map<Address, Fee>, items: seq<Reward>, proposer: Address, charge: bool, k: Account)
    : map<Address, int>
  {
    map p | p in m :: (if k.token == m[p].token then AwardOf(Parsed(items), m[p].value, proposer, k.owner) else 0)
                      - (if charge && k == Account(m[p].from, m[p].token) then m[p].value else 0)
  }

  lemma {:induction false} AwardsAlong(b: Books, m: map<Address, Fee>, keys: seq<Address>, items: seq<Reward>,
                                       proposer: Address, charge: bool, k: Account)
    requires forall p :: p in keys ==> p in m
    ensures var b' := DistributedAll(b, m, keys, items, proposer, charge);
            && At(b'.rewards, k.owner) == At(b.rewards, k.owner) + Along(AwardsOf(m, items, proposer, k.owner), keys)
            && At(b'.balances, k) == At(b.balances, k) + Along(Gains(m, items, proposer, charge, k), keys)
  {
    hide Distributed, AwardOf, Parsed;
    if keys != [] {
      var n := |keys| - 1;
      AwardsAlong(b, m, keys[..n], items, proposer, charge, k);
      var p := DistributedAll(b, m, keys[..n], items, proposer, charge);
      DistributedAwards(p, m[keys[n]], items, proposer, charge, k);
    }
  }

  /** Over all payers each account and each record changes by the sum of these. */
  lemma TotalAwards(b: Books, fees: seq<Fee>, keys: seq<Address>, items: seq<Reward>, proposer: Address, charge: bool,
                    k: Account)
    requires Sorting(keys, Gathered(fees).Keys)
    ensures var m := Gathered(fees);
            var b' := DistributedAll(b, m, keys, items, proposer, charge);
            && At(b'.rewards, k.owner) == At(b.rewards, k.owner) + Sum(AwardsOf(m, items, proposer, k.owner))
            && At(b'.balances, k) == At(b.balances, k) + Sum(Gains(m, items, proposer, charge, k))
  {
    hide DistributedAll, Gathered, Sum;
    var m := Gathered(fees);
    AwardsAlong(b, m, keys, items, proposer, charge, k);
    forall i, j | 0 <= i < j < |keys| ensures keys[i] != keys[j] {
      Trichotomy(keys[i], keys[i]);
    }
    SumAlong(AwardsOf(m, items, proposer, k.owner), keys);
    SumAlong(Gains(m, items, proposer, charge, k), keys);
  }

  lemma SortedCovers(m: map<Address, Fee>, keys: seq<Address>, t: Address)
    requires Sorting(keys, m.Keys)
    ensures |keys| == |m|
    ensures Along(ValuesIn(m, t), keys) == Sum(ValuesIn(m, t))
  {
    forall i, j | 0 <= i < j < |keys| ensures keys[i] != keys[j] {
      Trichotomy(keys[i], keys[i]);
    }
    SumAlong(ValuesIn(m, t), keys);
    LengthIs(m.Keys, keys);
  }

  lemma {:induction false} LengthIs(s: set<Address>, keys: seq<Address>)
    requires forall i, j :: 0 <= i < j < |keys| ==> keys[i] != keys[j]
    requires forall k :: k in keys <==> k in s
    ensures |keys| == |s|
  {
    if keys != [] {
      var n := |keys| - 1;
      assert keys == keys[..n] + [keys[n]];
      assert keys[n] in s;
      LengthIs(s - {keys[n]}, keys[..n]);
    } else {
      assert s == {};
    }
  }

  /**
   * A transaction's fees, gathered by payer and distributed in the order of the sorted
   * payers with shares of 100 percent: in each token the sum of balances plus what the
   * contracts charged already falls short by less than a unit for each rewarder and payer,
   * and by nothing exactly if every payer's fee in the token has whole shares.
   */
  lemma TotalDust(b: Books, fees: seq<Fee>, keys: seq<Address>, items: seq<Reward>, proposer: Address, charge: bool,
                  t: Address)
    requires Points(Parsed(items)) == 10000 && Sorting(keys, Gathered(fees).Keys)
    ensures var m := Gathered(fees);
            var b' := DistributedAll(b, m, keys, items, proposer, charge);
            var paid := Sum(ValuesIn(m, t));
            var dust := InToken(b.balances, t) + (if charge then 0 else paid) - InToken(b'.balances, t);
            && 0 <= dust <= |m| * (|items| - 1)
            && (dust == 0 <==> forall a :: a in m && m[a].token == t ==> Whole(Parsed(items), m[a].value))
  {
    hide Points, Parsed, Distributed, Sum, InToken, Whole, Gathered, DistributedAll;
    DustAlong(b, Gathered(fees), keys, items, proposer, charge, t);
    SortedCovers(Gathered(fees), keys, t);
  }

  lemma SharedNone(b: Books, fee: Fee, proposer: Address)
    ensures Shared(b, [], fee, proposer) == b && Awards([], fee.value) == 0
  {
  }

  /** The rewards up to one line, and that line. */
  lemma SharedNext(b: Books, items: seq<Reward>, fee: Fee, proposer: Address, i: nat)
    requires i < |items|
    ensures var p, award := Shared(b, items[..i], fee, proposer), Award(fee.value, items[i].points);
            var a := Payee(items[i], proposer);
            && Shared(b, items[..i + 1], fee, proposer)
               == Books(Credit(p.balances, Account(a, fee.token), award), Credit(p.rewards, a, award))
            && Awards(items[..i + 1], fee.value) == Awards(items[..i], fee.value) + award
  {
    hide Award, Payee, Credit;
    assert items[..i + 1][..i] == items[..i];
  }

  /** The part of the deliver state that fees touch. */
  class AppDeliver {
    var balances: map<Account, int>
    var rewards: map<Address, int>

    function State(): Books
      reads this
    {
      Books(balances, rewards)
    }

    method DistributeFee(fee: Fee, items: seq<Reward>, proposer: Address, ok: bool, bvm: bool)
        returns (left: int, shared: bool)
      modifies this
      ensures State() == Distributed(old(State()), fee, items, proposer, !ok || bvm)
      ensures left == fee.value - Awards(Parsed(items), fee.value)
      ensures shared <==> forall x :: x in items ==> x.parses
    {
      hide Shared, Awards, Award, Payee, Credit;
      if !ok || bvm {
        balances := Credit(balances, Account(fee.from, fee.token), -fee.value);
      }
      ghost var charged := State();
      ghost var parsed := Parsed(items);
      left := fee.value;
      SharedNone(charged, fee, proposer);
      for i := 0 to |items|
        invariant i <= |parsed|
        invariant State() == Shared(charged, items[..i], fee, proposer)
        invariant left == fee.value - Awards(items[..i], fee.value)
      {
        if !items[i].parses {
          assert items[..i] == parsed;
          return left, false;
        }
        SharedNext(charged, items, fee, proposer, i);
        var a, award := Payee(items[i], proposer), Award(fee.value, items[i].points);
        balances := Credit(balances, Account(a, fee.token), award);
        rewards := Credit(rewards, a, award);
        left := left - award;
      }
      assert items[..|items|] == items == parsed;
      shared := true;
    }

    /** emitFeeReceipts: whatever order the payers are walked in, the outcome is one. */
    method EmitFeeReceipts(fees: seq<Fee>, items: seq<Reward>, proposer: Address, ok: bool, bvm: bool)
        returns (total: int)
      modifies this
      ensures total == WrappedTotal(fees)
      ensures forall keys :: Sorting(keys, Gathered(fees).Keys) ==>
                State() == DistributedAll(old(State()), Gathered(fees), keys, items, proposer, !ok || bvm)
    {
      var byPayer;
      byPayer, total := GatherFeesByFromAddr(fees);
      var keys := SortedKeys(byPayer.Keys);
      for i := 0 to |keys|
        invariant forall k :: k in keys ==> k in byPayer
        invariant State() == DistributedAll(old(State()), byPayer, keys[..i], items, proposer, !ok || bvm)
      {
        assert keys[..i + 1][..i] == keys[..i];
        var left, shared := DistributeFee(byPayer[keys[i]], items, proposer, ok, bvm);
      }
      assert keys[..|keys|] == keys;
      forall other | Sorting(other, byPayer.Keys) ensures other == keys {
        SortingIsUnique(other, keys, byPayer.Keys);
      }
    }
  }
}
