/**
 * Paying for gas in the basic token: wrapping uint64 arithmetic, the split of the
 * fee over the rewarders, and what it does to the sum of all balances.
 */
module GasPayment {
  import opened Sums
  import opened RewardPercents
  import opened RewardStrategies

  type Address = string

  // ----- wrapping arithmetic ---------------------------------------------------------------

  /** safeMul: the product modulo 2^64, and whether it is reported as an overflow. */
  function SafeMul(a: nat, b: nat): (r: (nat, bool))
    requires a < UINT64 && b < UINT64
    ensures r.0 < UINT64
  {
    if a == 0 || b == 0 then (0, false)
    else if a == 1 then (b, false)
    else if b == 1 then (a, false)
    else if a == UINT64 - 1 || b == UINT64 - 1 then (0, true)
    else
      var c := a * b % UINT64;
      (c, c / b != a)
  }

  lemma WrapShort(a: nat, b: nat, c: nat)
    requires 0 < b < UINT64 && a * b >= UINT64 && c == a * b % UINT64
    ensures c / b != a
  {
    assert c <= a * b - UINT64;
    if c / b == a {
      DivisionBound(c, b);
    }
  }

  lemma DivisionBound(c: nat, b: nat)
    requires b > 0
    ensures c / b * b <= c < c / b * b + b
  {
  }

  lemma MulAtLeast(a: nat, b: nat)
    requires a >= 2 && b == UINT64 - 1
    ensures a * b >= UINT64
  {
    assert a * b >= 2 * b;
  }

  lemma ExactDivision(a: nat, b: nat)
    requires b > 0
    ensures a * b / b == a
  {
    var p := a * b;
    var q := p / b;
    DivisionBound(p, b);
    CancelFactor(q, a, b);
    CancelFactor(a, q, b);
  }

  lemma CancelFactor(a: nat, b: nat, k: nat)
    requires k > 0 && a * k < b * k + k
    ensures a <= b
  {
    if a > b {
      FactorGap(b, a, k);
    }
  }

  lemma FactorGap(b: nat, a: nat, k: nat)
    requires b < a
    ensures b * k + k <= a * k
  {
    DistributeInt(b + 1, a - b - 1, k);
    DistributeInt(b, 1, k);
    ProductNonNegative(a - b - 1, k);
  }

  lemma DistributeInt(x: nat, y: nat, k: nat)
    ensures (x + y) * k == x * k + y * k
  {
  }

  lemma ProductNonNegative(x: nat, k: nat)
    ensures x * k >= 0
  {
  }

  /** Overflow is reported exactly when the true product reaches 2^64. */
  lemma SafeMulExact(a: nat, b: nat)
    requires a < UINT64 && b < UINT64
    ensures SafeMul(a, b).1 <==> a * b >= 0x1_0000_0000_0000_0000
    ensures !SafeMul(a, b).1 ==> SafeMul(a, b).0 == a * b
  {
    if a >= 2 && b >= 2 {
      if a == UINT64 - 1 {
        MulAtLeast(b, a);
      } else if b == UINT64 - 1 {
        MulAtLeast(a, b);
      } else if a * b >= UINT64 {
        WrapShort(a, b, a * b % UINT64);
      } else {
        ExactDivision(a, b);
      }
    }
  }

  // ----- the fee ------------------------------------------------------------------------------

  datatype Code = OK | InvalidGasLimit | InvalidGasPrice | InvalidFee | InsufficientBalance | RewardError
                | NoValidators | InvalidRewarder

  /** calcFee: too small a limit is charged in full and reported as well. */
  function CalcFee(gas: nat, limit: nat, price: nat): (nat, Code)
    requires gas < UINT64 && limit < UINT64 && price < UINT64
  {
    var charged := if limit < gas then limit else gas;
    if price == 0 then (0, InvalidGasPrice)
    else if SafeMul(charged, price).1 then (SafeMul(charged, price).0, InvalidFee)
    else (SafeMul(charged, price).0, if limit < gas then InvalidGasLimit else OK)
  }

  function Times(a: nat, b: nat): nat {
    a * b
  }

  function Portion(product: nat, divisor: nat): nat
    requires divisor > 0
  {
    product / divisor
  }

  /** The share of one rewarder in unbounded numbers. */
  function TrueShare(item: Rewarder, value: nat): nat
  {
    Portion(Times(value, Ratio(item.percent)), Divisor(item.percent))
  }

  lemma SafeMulTimes(a: nat, b: nat)
    requires a < UINT64 && b < UINT64 && !SafeMul(a, b).1
    ensures SafeMul(a, b).0 == Times(a, b)
  {
    SafeMulExact(a, b);
  }

  // ----- the split over the rewarders -----------------------------------------------------------

  /** The validators' share goes to the proposer's reward address. */
  function Payee(item: Rewarder, proposer: Address): Address {
    if item.name == "validators" then proposer else item.address
  }

  datatype Split = Failed | Shares(rewards: map<Address, nat>, sum: nat)

  function AddShare(s: Split, item: Rewarder, value: nat, proposer: Address): Split
    requires value < UINT64
  {
    if s.Failed? || !Parses(item.percent) || SafeMul(value, Ratio(item.percent)).1 then Failed
    else
      var share := Portion(SafeMul(value, Ratio(item.percent)).0, Divisor(item.percent));
      Shares(s.rewards[Payee(item, proposer) := share], (s.sum + share) % UINT64)
  }

  function SplitOver(items: seq<Rewarder>, value: nat, proposer: Address): Split
    requires value < UINT64
  {
    if items == [] then Shares(map[], 0)
    else AddShare(SplitOver(items[..|items| - 1], value, proposer), items[|items| - 1], value, proposer)
  }

  /** CalcdRewards: the proposer gets what rounding left; too large a sum is an error. */
  function CalcRewards(items: seq<Rewarder>, value: nat, proposer: Address): Split
    requires value < UINT64
  {
    var s := SplitOver(items, value, proposer);
    if s.Failed? || s.sum > value then Failed
    else if s.sum < value then
      s.(rewards := s.rewards[proposer := (At(s.rewards, proposer) + (value - s.sum)) % UINT64], sum := value)
    else s
  }

  /** The shares in unbounded numbers. */
  function TrueSum(items: seq<Rewarder>, value: nat): nat
  {
    if items == [] then 0
    else
      TrueSum(items[..|items| - 1], value) + TrueShare(items[|items| - 1], value)
  }

  predicate DistinctPayees(items: seq<Rewarder>, proposer: Address) {
    && (forall i, j :: 0 <= i < j < |items| ==> Payee(items[i], proposer) != Payee(items[j], proposer))
  }

  predicate PaidOnly(rewards: map<Address, nat>, items: seq<Rewarder>, proposer: Address) {
    forall a :: a in rewards ==> exists i :: 0 <= i < |items| && a == Payee(items[i], proposer)
  }

  lemma {:induction false} SplitPayees(items: seq<Rewarder>, value: nat, proposer: Address)
    requires value < UINT64 && SplitOver(items, value, proposer).Shares?
    ensures PaidOnly(SplitOver(items, value, proposer).rewards, items, proposer)
  {
    hide Parses, Ratio, Divisor, SafeMul, Portion;
    if items != [] {
      var n := |items| - 1;
      SplitPayees(items[..n], value, proposer);
      var s := SplitOver(items, value, proposer);
      forall b | b in s.rewards ensures exists i :: 0 <= i < |items| && b == Payee(items[i], proposer) {
        if b == Payee(items[n], proposer) {
        } else {
          var i :| 0 <= i < n && b == Payee(items[..n][i], proposer);
          assert items[i] == items[..n][i];
        }
      }
    }
  }

  /** The shares that a later share of the same payee has overwritten. */
  function Lost(items: seq<Rewarder>, value: nat, proposer: Address): nat
    requires value < UINT64
  {
    if items == [] then 0
    else
      var n := |items| - 1;
      var before := SplitOver(items[..n], value, proposer);
      Lost(items[..n], value, proposer) + if before.Failed? then 0 else At(before.rewards, Payee(items[n], proposer))
  }

  lemma {:induction false} NothingLost(items: seq<Rewarder>, value: nat, proposer: Address)
    requires value < UINT64 && DistinctPayees(items, proposer)
    ensures Lost(items, value, proposer) == 0
  {
    hide Parses, Ratio, Divisor, SafeMul, Portion, Times;
    if items != [] {
      var n := |items| - 1;
      NothingLost(items[..n], value, proposer);
      if SplitOver(items[..n], value, proposer).Shares? {
        SplitPayees(items[..n], value, proposer);
        assert forall i :: 0 <= i < n ==> items[..n][i] == items[i];
      }
    }
  }

  /** Every share that a later line for the same payee overwrites is 0. */
  predicate NothingOverwritten(items: seq<Rewarder>, value: nat, proposer: Address)
  {
    forall i, j :: 0 <= i < j < |items| && Payee(items[i], proposer) == Payee(items[j], proposer) ==>
      TrueShare(items[i], value) == 0
  }

  /** Line i is the payee's last one. */
  predicate IsLast(items: seq<Rewarder>, i: int, a: Address, proposer: Address) {
    && 0 <= i < |items| && Payee(items[i], proposer) == a
    && forall j :: i < j < |items| ==> Payee(items[j], proposer) != a
  }

  /** The split stores the share of a payee's last line. */
  lemma {:induction false} LastShareIsStored(items: seq<Rewarder>, value: nat, proposer: Address, a: Address) returns (i: int)
    requires value < UINT64 && SplitOver(items, value, proposer).Shares?
    ensures a !in SplitOver(items, value, proposer).rewards ==>
              forall j :: 0 <= j < |items| ==> Payee(items[j], proposer) != a
    ensures a in SplitOver(items, value, proposer).rewards ==>
              && IsLast(items, i, a, proposer)
              && SplitOver(items, value, proposer).rewards[a] == TrueShare(items[i], value)
  {
    hide Parses, Ratio, Divisor, SafeMul, Portion, Times, Payee;
    i := -1;
    if items != [] {
      var n := |items| - 1;
      SafeMulTimes(value, Ratio(items[n].percent));
      i := LastShareIsStored(items[..n], value, proposer, a);
      assert forall j :: 0 <= j < n ==> items[..n][j] == items[j];
      if Payee(items[n], proposer) == a {
        i := n;
      }
    }
  }

  /** Nothing is lost exactly if only shares of 0 are overwritten. */
  lemma {:induction false} LostIff(items: seq<Rewarder>, value: nat, proposer: Address)
    requires value < UINT64 && SplitOver(items, value, proposer).Shares?
    ensures Lost(items, value, proposer) == 0 <==> NothingOverwritten(items, value, proposer)
  {
    hide Parses, Ratio, Divisor, SafeMul, Portion, Times, Payee, TrueShare, NothingOverwritten;
    if items == [] {
      NoneOverwritten(value, proposer);
    } else {
      var n := |items| - 1;
      var a := Payee(items[n], proposer);
      LostIff(items[..n], value, proposer);
      var i := LastShareIsStored(items[..n], value, proposer, a);
      OverwrittenStep(items, value, proposer, i);
    }
  }

  lemma NoneOverwritten(value: nat, proposer: Address)
    ensures NothingOverwritten([], value, proposer)
  {
  }

  /** One more line overwrites the payee's last share so far, if there is one. */
  lemma OverwrittenStep(items: seq<Rewarder>, value: nat, proposer: Address, i: int)
    requires items != []
    requires var n := |items| - 1;
             var a := Payee(items[n], proposer);
             IsLast(items[..n], i, a, proposer) || forall j :: 0 <= j < n ==> Payee(items[..n][j], proposer) != a
    ensures NothingOverwritten(items, value, proposer) <==>
              && NothingOverwritten(items[..|items| - 1], value, proposer)
              && (IsLast(items[..|items| - 1], i, Payee(items[|items| - 1], proposer), proposer) ==>
                    TrueShare(items[i], value) == 0)
  {
    hide Payee, TrueShare;
    var n := |items| - 1;
    assert forall j :: 0 <= j < n ==> items[..n][j] == items[j];
    if NothingOverwritten(items[..n], value, proposer) && IsLast(items[..n], i, Payee(items[n], proposer), proposer)
       && TrueShare(items[i], value) == 0 {
      forall j | 0 <= j < n && Payee(items[j], proposer) == Payee(items[n], proposer)
        ensures TrueShare(items[j], value) == 0
      {
        if j < i {
          assert Payee(items[..n][j], proposer) == Payee(items[..n][i], proposer);
        }
      }
    }
  }

  lemma {:induction false} SplitIs(items: seq<Rewarder>, value: nat, proposer: Address)
    requires value < UINT64
    requires TrueSum(items, value) < UINT64 && SplitOver(items, value, proposer).Shares?
    ensures var s := SplitOver(items, value, proposer);
            && s.sum == TrueSum(items, value) == Sum(s.rewards) + Lost(items, value, proposer)
            && (forall a :: a in s.rewards ==> s.rewards[a] <= s.sum)
  {
    hide Parses, Ratio, Divisor, SafeMul, Portion, Times, Sum, Payee;
    if items != [] {
      var n := |items| - 1;
      SplitIs(items[..n], value, proposer);
      SafeMulTimes(value, Ratio(items[n].percent));
      var p := SplitOver(items[..n], value, proposer);
      SumSet(p.rewards, Payee(items[n], proposer), TrueShare(items[n], value));
    } else {
      EmptySum();
    }
  }

  lemma EmptySum()
    ensures Sum<Address>(map[]) == 0
  {
  }

  /**
   * However the shares round, the rewards sum to exactly the value paid less what was
   * overwritten.
   */
  lemma RewardsSumToValue(items: seq<Rewarder>, value: nat, proposer: Address)
    requires value < UINT64
    requires TrueSum(items, value) < UINT64 && CalcRewards(items, value, proposer).Shares?
    ensures Sum(CalcRewards(items, value, proposer).rewards) == value - Lost(items, value, proposer)
  {
    hide SafeMul, SplitOver, Sum, TrueSum, Lost;
    SplitIs(items, value, proposer);
    var s := SplitOver(items, value, proposer);
    SumSet(s.rewards, proposer, At(s.rewards, proposer) + (value - s.sum));
  }

  /** The percentages as fractions, added up. */
  function Fractions(items: seq<Rewarder>): real
  {
    if items == [] then 0.0
    else
      Fractions(items[..|items| - 1]) + Part(items[|items| - 1].percent)
  }

  lemma ShareBelow(v: nat, r: nat, d: nat)
    requires d > 0
    ensures Portion(Times(v, r), d) as real <= v as real * Quotient(r, d)
  {
    var p := v * r;
    var q := p / d;
    DivisionBound(p, d);
    var f := Quotient(r, d);
    var vf := v as real * f;
    assert f * d as real == r as real;
    assert vf * d as real == v as real * (f * d as real) == p as real;
    assert (q * d) as real == q as real * d as real;
    CancelReal(q as real, vf, d as real);
  }

  lemma CancelReal(a: real, b: real, k: real)
    requires k > 0.0 && a * k <= b * k
    ensures a <= b
  {
    if a > b {
      StrictReal(b, a, k);
    }
  }

  lemma StrictReal(a: real, b: real, k: real)
    requires k > 0.0 && a < b
    ensures a * k < b * k
  {
    assert (b - a) * k > 0.0;
    assert b * k == a * k + (b - a) * k;
  }

  lemma MonotoneReal(v: real, f: real, g: real)
    requires v >= 0.0 && f <= g
    ensures v * f <= v * g
  {
    assert v * (g - f) >= 0.0;
    assert v * g == v * f + v * (g - f);
  }

  /** With at most 100 percent in all the shares never exceed the value. */
  lemma {:induction false} SharesWithin(items: seq<Rewarder>, value: nat)
    ensures TrueSum(items, value) as real <= value as real * Fractions(items)
  {
    hide Parses, Ratio, Divisor, Portion, Times;
    if items != [] {
      var n := |items| - 1;
      SharesWithin(items[..n], value);
      ShareBelow(value, Ratio(items[n].percent), Divisor(items[n].percent));
      DistributeReal(value as real, Fractions(items[..n]), Part(items[n].percent));
    }
  }

  lemma DistributeReal(v: real, f: real, g: real)
    ensures v * (f + g) == v * f + v * g
  {
  }

  lemma SharesWithinValue(items: seq<Rewarder>, value: nat)
    requires Fractions(items) <= 1.0
    ensures TrueSum(items, value) <= value
  {
    hide TrueSum, Fractions;
    SharesWithin(items, value);
    MonotoneReal(value as real, Fractions(items), 1.0);
    assert TrueSum(items, value) as real <= value as real;
  }

  // ----- the balances ---------------------------------------------------------------------------

  /** setRewardBalances: every reward is added to the balance there is. */
  function Credited(balances: map<Address, int>, rewards: map<Address, nat>): map<Address, int> {
    map a | a in balances.Keys + rewards.Keys :: At(balances, a) + At(rewards, a)
  }

  method SetRewardBalances(balances: map<Address, int>, rewards: map<Address, nat>) returns (r: map<Address, int>)
    ensures r == Credited(balances, rewards)
  {
    r := balances;
    var left := rewards.Keys;
    while left != {}
      invariant left <= rewards.Keys
      invariant r == Credited(balances, rewards - left)
      decreases left
    {
      var a :| a in left;
      r := r[a := At(r, a) + rewards[a]];
      left := left - {a};
    }
    assert rewards - {} == rewards;
  }

  lemma {:induction false} CreditedSum(balances: map<Address, int>, rewards: map<Address, nat>)
    ensures Sum(Credited(balances, rewards)) == Sum(balances) + Sum(rewards)
    decreases |rewards|
  {
    hide Sum, Credited, At;
    EmptySum();
    if rewards == map[] {
      CreditedNothing(balances);
    } else {
      var a :| a in rewards;
      var rest := rewards - {a};
      CreditedSum(balances, rest);
      SumTakeOut(rewards, a);
      SumSet(Credited(balances, rest), a, At(balances, a) + rewards[a]);
      CreditedOne(balances, rewards, a);
    }
  }

  lemma CreditedNothing(balances: map<Address, int>)
    ensures Credited(balances, map[]) == balances
  {
  }

  lemma CreditedOne(balances: map<Address, int>, rewards: map<Address, nat>, a: Address)
    requires a in rewards
    ensures Credited(balances, rewards) == Credited(balances, rewards - {a})[a := At(balances, a) + rewards[a]]
    ensures At(Credited(balances, rewards - {a}), a) == At(balances, a)
  {
  }

  /** What a payment leaves: the new balances once committed, or an error and no change. */
  datatype Payment = Committed(balances: map<Address, int>, code: Code) | Aborted(code: Code)

  function Charge(balances: map<Address, int>, sender: Address, fee: nat): (map<Address, int>, int) {
    var have := At(balances, sender);
    if have < fee then (balances[sender := 0], have) else (balances[sender := have - fee], fee)
  }

  /** A validator's registered reward address, if the address is a validator. */
  datatype Validator = Unknown | Validator(rewardAddress: Address)

  /** Who the fee goes to; nobody when a transaction is only checked. */
  datatype Proposer = Nobody | Proposer(rewarder: Address, validator: Validator)

  /**
   * CheckAndPayForGas.  A short balance is paid out in full and reported; errors before
   * the commit drop the transaction's buffer; without a proposer the sender is charged
   * and nobody is paid.
   */
  function Pay(balances: map<Address, int>, sender: Address, proposer: Proposer, items: seq<Rewarder>,
               gas: nat, limit: nat, price: nat): Payment
    requires gas < UINT64 && limit < UINT64 && price < UINT64
    requires forall a :: a in balances ==> balances[a] >= 0
  {
    var (fee, code) := CalcFee(gas, limit, price);
    if proposer.Proposer? && proposer.validator.Unknown? then Aborted(NoValidators)
    else if proposer.Proposer? && proposer.validator.rewardAddress != proposer.rewarder then Aborted(InvalidRewarder)
    else if code != OK && code != InvalidGasLimit then Aborted(code)
    else
      var (charged, value) := Charge(balances, sender, fee);
      var code' := if value < fee then InsufficientBalance else code;
      if proposer.Nobody? then Committed(charged, code')
      else
        var rewards := CalcRewards(items, value, proposer.rewarder);
        if rewards.Failed? then Aborted(RewardError)
        else Committed(Credited(charged, rewards.rewards), code')
  }

  lemma ChargeFacts(balances: map<Address, int>, sender: Address, fee: nat)
    requires forall a :: a in balances ==> balances[a] >= 0
    ensures var (charged, value) := Charge(balances, sender, fee);
            && 0 <= value <= fee && Sum(charged) == Sum(balances) - value
            && forall a :: a in charged ==> charged[a] >= 0
  {
    var have := At(balances, sender);
    SumSet(balances, sender, if have < fee then 0 else have - fee);
  }

  /**
   * A committed payment conserves the basic token up to overwritten shares: the sum of
   * all balances falls by exactly those, or by the value charged when nobody is paid,
   * and no balance is negative, however the shares round, also when the balance is short
   * and when the sender is a rewarder.
   */
  lemma PaymentSum(balances: map<Address, int>, sender: Address, proposer: Proposer, items: seq<Rewarder>,
                   gas: nat, limit: nat, price: nat)
    requires gas < UINT64 && limit < UINT64 && price < UINT64 && Fractions(items) <= 1.0
    requires forall a :: a in balances ==> balances[a] >= 0
    ensures var p := Pay(balances, sender, proposer, items, gas, limit, price);
            var value := ValueCharged(balances, sender, gas, limit, price);
            p.Committed? ==> && 0 <= value <= CalcFee(gas, limit, price).0 < UINT64
                             && Sum(p.balances) == Sum(balances)
                                - (if proposer.Nobody? then value else Lost(items, value, proposer.rewarder))
                             && forall a :: a in p.balances ==> p.balances[a] >= 0
  {
    var (fee, code) := CalcFee(gas, limit, price);
    var (charged, value) := Charge(balances, sender, fee);
    ChargeFacts(balances, sender, fee);
    SharesWithinValue(items, value);
    hide CalcFee, Charge, CalcRewards, Fractions, TrueSum, Lost;
    if Pay(balances, sender, proposer, items, gas, limit, price).Committed? && proposer.Proposer? {
      RewardsSumToValue(items, value, proposer.rewarder);
      CreditedSum(charged, CalcRewards(items, value, proposer.rewarder).rewards);
    }
  }

  /** What the sender is charged: the fee, or the balance when it is short. */
  function ValueCharged(balances: map<Address, int>, sender: Address, gas: nat, limit: nat, price: nat): int
    requires gas < UINT64 && limit < UINT64 && price < UINT64
  {
    Charge(balances, sender, CalcFee(gas, limit, price).0).1
  }

  /**
   * A committed payment to a proposer leaves the sum of all balances unchanged exactly if
   * no share other than 0 is overwritten; with distinct payees none is.
   */
  lemma PaymentConservesIff(balances: map<Address, int>, sender: Address, proposer: Proposer, items: seq<Rewarder>,
                            gas: nat, limit: nat, price: nat)
    requires gas < UINT64 && limit < UINT64 && price < UINT64 && Fractions(items) <= 1.0
    requires forall a :: a in balances ==> balances[a] >= 0
    requires proposer.Proposer? && Pay(balances, sender, proposer, items, gas, limit, price).Committed?
    ensures var after := Pay(balances, sender, proposer, items, gas, limit, price).balances;
            var value := ValueCharged(balances, sender, gas, limit, price);
            && value >= 0
            && (Sum(after) == Sum(balances) <==> NothingOverwritten(items, value, proposer.rewarder))
            && (DistinctPayees(items, proposer.rewarder) ==> Sum(after) == Sum(balances))
  {
    hide Fractions, TrueSum, Lost, DistinctPayees, Credited, NothingOverwritten, SplitOver, Sum, CalcFee, Charge;
    PaymentSum(balances, sender, proposer, items, gas, limit, price);
    var value := ValueCharged(balances, sender, gas, limit, price);
    LostIff(items, value, proposer.rewarder);
    if DistinctPayees(items, proposer.rewarder) {
      NothingLost(items, value, proposer.rewarder);
    }
  }

  // ----- who is paid what ------------------------------------------------------------------------

  /**
   * The share of the last line that pays an address: lines named "validators" pay the
   * proposer's reward address, all others the address they give.
   */
  function LastShare(items: seq<Rewarder>, value: nat, rewarder: Address, a: Address): int {
    if items == [] then 0
    else
      var last := items[|items| - 1];
      if (last.name == "validators" && a == rewarder) || (last.name != "validators" && a == last.address)
      then value * Ratio(last.percent) / Divisor(last.percent)
      else LastShare(items[..|items| - 1], value, rewarder, a)
  }

  lemma {:induction false} SplitPays(items: seq<Rewarder>, value: nat, rewarder: Address, a: Address)
    requires value < UINT64 && SplitOver(items, value, rewarder).Shares?
    ensures At(SplitOver(items, value, rewarder).rewards, a) == LastShare(items, value, rewarder, a)
  {
    hide Parses, Ratio, Divisor, SafeMul;
    if items != [] {
      var n := |items| - 1;
      SplitPays(items[..n], value, rewarder, a);
      SafeMulTimes(value, Ratio(items[n].percent));
    }
  }

  /** Every address is paid its last share, and the proposer's also what rounding left. */
  lemma RewardsPay(items: seq<Rewarder>, value: nat, rewarder: Address, a: Address)
    requires value < UINT64 && TrueSum(items, value) < UINT64 && CalcRewards(items, value, rewarder).Shares?
    ensures TrueSum(items, value) <= value
    ensures At(CalcRewards(items, value, rewarder).rewards, a)
         == LastShare(items, value, rewarder, a) + if a == rewarder then value - TrueSum(items, value) else 0
  {
    hide SplitOver, TrueSum, LastShare, Lost, Sum;
    SplitIs(items, value, rewarder);
    SplitPays(items, value, rewarder, a);
    SplitPays(items, value, rewarder, rewarder);
  }

  /** The price of the gas, or of the limit where that is lower. */
  function Owed(gas: nat, limit: nat, price: nat): nat {
    Times(if limit < gas then limit else gas, price)
  }

  /** What a balance covers of it. */
  function Covered(have: nat, owed: nat): nat {
    if have < owed then have else owed
  }

  /**
   * A committed payment, address by address: the sender loses the fee or, if it is short,
   * the whole balance; every address gains its reward; the code tells a short balance.
   */
  lemma PaymentExact(balances: map<Address, int>, sender: Address, proposer: Proposer, items: seq<Rewarder>,
                     gas: nat, limit: nat, price: nat, a: Address)
    requires gas < UINT64 && limit < UINT64 && price < UINT64 && Fractions(items) <= 1.0
    requires forall x :: x in balances ==> balances[x] >= 0
    requires Pay(balances, sender, proposer, items, gas, limit, price).Committed?
    ensures var p := Pay(balances, sender, proposer, items, gas, limit, price);
            var have, fee := At(balances, sender), Owed(gas, limit, price);
            var value := Covered(have, fee);
            var paid := if proposer.Nobody? then 0
                        else LastShare(items, value, proposer.rewarder, a)
                             + if a == proposer.rewarder then value - TrueSum(items, value) else 0;
            && At(p.balances, a) == At(balances, a) - (if a == sender then value else 0) + paid
            && (p.code == InsufficientBalance <==> have < fee)
            && (have >= fee ==> p.code == if limit < gas then InvalidGasLimit else OK)
  {
    FeeBound(gas, limit, price);
    var fee, have := Owed(gas, limit, price), At(balances, sender);
    var value := Covered(have, fee);
    SharesWithinValue(items, value);
    hide CalcFee, CalcRewards, LastShare, TrueSum, Fractions, Times;
    if proposer.Proposer? {
      RewardsPay(items, value, proposer.rewarder, a);
    }
  }

  /** A payment is committed or stopped by the first of these, in this order. */
  lemma PaymentOutcome(balances: map<Address, int>, sender: Address, proposer: Proposer, items: seq<Rewarder>,
                       gas: nat, limit: nat, price: nat)
    requires gas < UINT64 && limit < UINT64 && price < UINT64
    requires forall x :: x in balances ==> balances[x] >= 0
    ensures var p := Pay(balances, sender, proposer, items, gas, limit, price);
            var have, fee := At(balances, sender), Owed(gas, limit, price);
            var known := proposer.Nobody? || proposer == Proposer(proposer.rewarder, Validator(proposer.rewarder));
            && (proposer.Proposer? && proposer.validator.Unknown? ==> p == Aborted(NoValidators))
            && (!known && proposer.validator.Validator? ==> p == Aborted(InvalidRewarder))
            && (known && price == 0 ==> p == Aborted(InvalidGasPrice))
            && (known && fee >= UINT64 ==> p == Aborted(InvalidFee))
            && (known && price > 0 && fee < UINT64 && proposer.Nobody? ==> p.Committed?)
            && (known && price > 0 && fee < UINT64 && proposer.Proposer? ==>
                  (p == Aborted(RewardError) <==>
                     CalcRewards(items, Covered(have, fee), proposer.rewarder).Failed?)
                  && (p.Aborted? ==> p == Aborted(RewardError)))
  {
    FeeBound(gas, limit, price);
    hide CalcFee, CalcRewards, Times;
  }

  /** The fee and the code of calcFee in unbounded numbers. */
  lemma FeeBound(gas: nat, limit: nat, price: nat)
    requires gas < UINT64 && limit < UINT64 && price < UINT64
    ensures var (fee, code) := CalcFee(gas, limit, price);
            && (code == OK <==> price > 0 && gas <= limit && gas * price < UINT64)
            && (code == OK ==> fee == gas * price)
            && (code == InvalidGasPrice <==> price == 0)
            && (code == InvalidFee <==> price > 0 && (if limit < gas then limit else gas) * price >= UINT64)
            && (code == InvalidGasPrice ==> fee == 0)
            && (code == InvalidGasLimit <==> price > 0 && limit < gas && limit * price < UINT64)
            && (code == InvalidGasLimit ==> fee == limit * price)
  {
    SafeMulExact(gas, price);
    SafeMulExact(limit, price);
  }

  /** The basic token's balances, as the gas payment finds and leaves them. */
  class BasicToken {
    var balances: map<Address, int>

    /** The loop of CalcdRewards. */
    method CalcdRewards(items: seq<Rewarder>, value: nat, proposer: Address) returns (s: Split)
      requires value < UINT64
      ensures s == CalcRewards(items, value, proposer)
    {
      hide Parses, Ratio, Divisor, SafeMul, Portion;
      var rewards: map<Address, nat>, sum: nat := map[], 0;
      for i := 0 to |items|
        invariant sum < UINT64 && SplitOver(items[..i], value, proposer) == Shares(rewards, sum)
      {
        assert items[..i + 1][..i] == items[..i];
        if !Parses(items[i].percent) {
          FailedStays(items, i + 1, value, proposer);
          return Failed;
        }
        var product := SafeMul(value, Ratio(items[i].percent));
        if product.1 {
          FailedStays(items, i + 1, value, proposer);
          return Failed;
        }
        var divisor := DivisorOf(items[i].percent);
        var share := Portion(product.0, divisor);
        rewards := rewards[Payee(items[i], proposer) := share];
        sum := (sum + share) % UINT64;
      }
      assert items[..|items|] == items;
      if sum < value {
        rewards := rewards[proposer := (At(rewards, proposer) + (value - sum)) % UINT64];
        sum := value;
      } else if sum > value {
        return Failed;
      }
      s := Shares(rewards, sum);
    }

    method CheckAndPayForGas(sender: Address, proposer: Proposer, items: seq<Rewarder>, gas: nat, limit: nat, price: nat)
      returns (code: Code)
      requires gas < UINT64 && limit < UINT64 && price < UINT64
      requires forall a :: a in balances ==> balances[a] >= 0
      modifies this
      ensures match Pay(old(balances), sender, proposer, items, gas, limit, price)
              case Committed(after, c) => balances == after && code == c
              case Aborted(c) => balances == old(balances) && code == c
    {
      hide SafeMul, CalcRewards, Credited;
      if proposer.Proposer? {
        if proposer.validator.Unknown? {
          return NoValidators;
        }
        if proposer.validator.rewardAddress != proposer.rewarder {
          return InvalidRewarder;
        }
      }
      var (fee, c) := CalcFee(gas, limit, price);
      if c != OK && c != InvalidGasLimit {
        return c;
      }
      var (charged, value) := Charge(balances, sender, fee);
      ChargeFacts(balances, sender, fee);
      if proposer.Proposer? {
        var s := CalcdRewards(items, value, proposer.rewarder);
        if s.Failed? {
          return RewardError;
        }
        charged := SetRewardBalances(charged, s.rewards);
      }
      balances := charged;
      code := if value < fee then InsufficientBalance else c;
    }
  }

  lemma {:induction false} FailedStays(items: seq<Rewarder>, i: nat, value: nat, proposer: Address)
    requires value < UINT64 && i <= |items| && SplitOver(items[..i], value, proposer) == Failed
    ensures SplitOver(items, value, proposer) == Failed
    decreases |items| - i
  {
    hide Parses, Ratio, Divisor, SafeMul, Portion;
    if i == |items| {
      assert items[..i] == items;
    } else {
      assert items[..i + 1][..i] == items[..i];
      FailedStays(items, i + 1, value, proposer);
    }
  }
}
