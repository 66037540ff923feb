/**
 * The block reward: halved every 66000000 blocks by a stateful rule.
 */
module Mining {
  import opened Sums

  const INTERVAL := 66_000_000
  const FIRST_REWARD := 150_000_000

  const UINT64 := 0x1_0000_0000_0000_0000

  type Address = string

  /** Stored start height and reward amount; zero when not set yet. */
  datatype State = State(start: nat, reward: nat)

  /** calcRewardAmount, with the start height as it was read before the call set it. */
  function Halve(reward: nat, blocks: int): nat {
    if blocks > 0 && blocks % INTERVAL == 0 then
      if reward / 2 == 0 then 1 else reward / 2
    else reward
  }

  /** Mine: the reward paid is the one stored. */
  function Mine(s: State, h: nat): State {
    var reward := if s.reward == 0 then FIRST_REWARD else s.reward;
    State(if s.start == 0 then h else s.start, Halve(reward, h - s.start))
  }

  /** The state after mining at every height from h0 to h. */
  function Mined(h0: nat, h: nat): State
    requires h0 <= h
    decreases h
  {
    if h == h0 then Mine(State(0, 0), h0) else Mine(Mined(h0, h - 1), h)
  }

  function Halved(n: nat): nat {
    if n == 0 then FIRST_REWARD else Halved(n - 1) / 2
  }

  function Pow2(n: nat): (r: nat)
    ensures r >= 1
  {
    if n == 0 then 1 else 2 * Pow2(n - 1)
  }

  function Quotient(a: nat, b: nat): nat
    requires b > 0
  {
    a / b
  }

  function AtLeastOne(n: nat): nat {
    if n == 0 then 1 else n
  }

  lemma {:induction false} HalvedIs(n: nat)
    ensures Halved(n) == Quotient(FIRST_REWARD, Pow2(n))
  {
    if n > 0 {
      HalvedIs(n - 1);
      NestedHalf(FIRST_REWARD, Pow2(n - 1));
    }
  }

  lemma QuotientUnique(a: nat, b: nat, q: nat)
    requires b > 0 && b * q <= a < b * q + b
    ensures a / b == q
  {
    var p := a / b;
    assert b * p <= a < b * p + b;
    if p < q {
      Gap(b, p, q);
    }
    if q < p {
      Gap(b, q, p);
    }
  }

  lemma Spread(b: nat, x: nat, y: nat)
    ensures b * (x + y) == b * x + b * y && b * y >= 0
  {
  }

  lemma Gap(b: nat, p: nat, q: nat)
    requires p < q
    ensures b * p + b <= b * q
  {
    Spread(b, p + 1, q - p - 1);
    Spread(b, p, 1);
  }

  lemma NestedHalf(a: nat, b: nat)
    requires b > 0
    ensures a / b / 2 == a / (2 * b)
  {
    var q := a / b;
    var r := q / 2;
    assert b * q <= a < b * q + b;
    assert q == 2 * r || q == 2 * r + 1;
    assert b * (2 * r) == 2 * b * r;
    assert b * (2 * r + 1) == 2 * b * r + b;
    QuotientUnique(a, 2 * b, r);
  }

  /** Halvings that have taken place by height h: one more when the start height divides. */
  function Halvings(h0: nat, h: nat): nat
    requires 1 <= h0 <= h
  {
    (h - h0) / INTERVAL + if h0 % INTERVAL == 0 then 1 else 0
  }

  lemma {:induction false} MinedIs(h0: nat, h: nat)
    requires 1 <= h0 <= h
    ensures Mined(h0, h) == State(h0, AtLeastOne(Halved(Halvings(h0, h))))
    decreases h
  {
    if h == h0 {
      assert Halved(1) == FIRST_REWARD / 2;
    } else {
      MinedIs(h0, h - 1);
      StepOfDivision(h - h0);
      MineNext(h0, h, Halvings(h0, h - 1));
    }
  }

  /** One more call after the first: at a whole interval the reward is halved. */
  lemma MineNext(h0: nat, h: nat, n: nat)
    requires 1 <= h0 < h
    ensures Mine(State(h0, AtLeastOne(Halved(n))), h)
         == State(h0, AtLeastOne(Halved(if (h - h0) % INTERVAL == 0 then n + 1 else n)))
  {
    assert Halved(n + 1) == Halved(n) / 2;
    hide Halved;
  }

  lemma StepOfDivision(d: nat)
    requires d > 0
    ensures d / INTERVAL == (d - 1) / INTERVAL + if d % INTERVAL == 0 then 1 else 0
  {
  }

  /**
   * The closed form: mining at every height from h0, the reward at height h is the first
   * reward divided by a power of two, at least 1.  The first call measures from the stale
   * start height 0, so one extra halving happens exactly when h0 is a multiple of the
   * interval.
   */
  lemma HalvingClosedForm(h0: nat, h: nat)
    requires 1 <= h0 <= h
    ensures Mined(h0, h).reward == AtLeastOne(Quotient(150_000_000, Pow2(Halvings(h0, h))))
    ensures Halvings(h0, h) == (h - h0) / 66_000_000 + if h0 % 66_000_000 == 0 then 1 else 0
  {
    MinedIs(h0, h);
    HalvedIs(Halvings(h0, h));
  }

  /** A reward is halved only after its start height, at a whole number of intervals. */
  lemma HalvedIff(s: State, h: nat)
    requires s.reward > 1
    ensures Mine(s, h).reward == s.reward / 2 <==> h > s.start && (h - s.start) % 66_000_000 == 0
    ensures Mine(s, h).reward == s.reward || Mine(s, h).reward == s.reward / 2
    ensures Mine(s.(reward := 1), h).reward == 1
    ensures Mine(s, h).start == if s.start == 0 then h else s.start
  {
  }

  /** The reward that is promised: halved once for each whole interval since the first height. */
  function Promised(h0: nat, h: nat): nat
    requires h0 <= h
  {
    AtLeastOne(Quotient(150_000_000, Pow2((h - h0) / 66_000_000)))
  }

  /** It is paid at every height exactly if the first height is no multiple of the interval. */
  lemma HalvingPromisedIff(h0: nat)
    requires 1 <= h0
    ensures (forall h :: h >= h0 ==> Mined(h0, h).reward == Promised(h0, h)) <==> h0 % INTERVAL != 0
  {
    if h0 % INTERVAL != 0 {
      forall h | h >= h0 ensures Mined(h0, h).reward == Promised(h0, h) {
        HalvingClosedForm(h0, h);
      }
    } else {
      assert Pow2(0) == 1 && (h0 - h0) / INTERVAL == 0;
      assert Mined(h0, h0).reward == FIRST_REWARD / 2;
      assert Promised(h0, h0) == FIRST_REWARD;
    }
  }

  // ----- paying ----------------------------------------------------------------------------

  class MiningContract {
    var start: nat
    var reward: nat
    var balances: map<Address, int>
    const account: Address

    constructor (account: Address, balances: map<Address, int>)
      ensures start == 0 && reward == 0 && this.balances == balances && this.account == account
    {
      start, reward := 0, 0;
      this.balances, this.account := balances, account;
    }

    function Stored(): State
      reads this
    {
      State(start, reward)
    }

    method CalcRewardAmount(h: nat, startRead: nat) returns (amount: nat)
      modifies this`reward
      ensures amount == reward == Halve(old(reward), h - startRead)
    {
      amount := reward;
      var blocks := h - startRead;
      if blocks > 0 && blocks % INTERVAL == 0 {
        amount := amount / 2;
        if amount == 0 {
          amount := 1;
        }
        reward := amount;
      }
    }

    /**
     * The reward is moved from the contract's account, when the low 64 bits of its
     * balance cover it; a transfer to the account itself is refused with an error, and
     * the block then keeps none of the call's writes.
     */
    method MineBlock(h: nat, payee: Address) returns (amount: nat, ok: bool)
      requires At(balances, account) >= 0
      modifies this
      ensures amount == Mine(old(Stored()), h).reward
      ensures Stored() == if ok then Mine(old(Stored()), h) else old(Stored())
      ensures Sum(balances) == Sum(old(balances)) && At(balances, account) >= 0
      ensures ok <==> payee != account || At(old(balances), account) % 0x1_0000_0000_0000_0000 < amount
      ensures var paid := if ok && At(old(balances), account) % 0x1_0000_0000_0000_0000 >= amount then amount else 0;
              && balances == (if paid == 0 then old(balances) else Moved(old(balances), account, payee, paid))
              && At(balances, account) == At(old(balances), account) - paid
              && (payee != account ==> At(balances, payee) == At(old(balances), payee) + paid)
              && (forall a :: a != account && a != payee ==> At(balances, a) == At(old(balances), a))
    {
      var startRead, rewardRead := start, reward;
      if startRead == 0 {
        start := h;
      }
      if reward == 0 {
        reward := FIRST_REWARD;
      }
      amount := CalcRewardAmount(h, startRead);
      ok := true;
      if At(balances, account) % UINT64 >= amount {
        ok := payee != account;
        if ok && amount > 0 {
          MovedSum(balances, account, payee, amount);
          balances := Moved(balances, account, payee, amount);
        }
      }
      if !ok {
        start, reward := startRead, rewardRead;
      }
    }
  }

  /** The balances after `v` is moved from one account to another. */
  function Moved(balances: map<Address, int>, from: Address, to: Address, v: int): map<Address, int> {
    balances[from := At(balances, from) - v][to := At(balances, to) + v]
  }

  lemma MovedSum(balances: map<Address, int>, from: Address, to: Address, v: int)
    requires from != to
    ensures Sum(Moved(balances, from, to, v)) == Sum(balances)
  {
    var taken := balances[from := At(balances, from) - v];
    SumSet(balances, from, At(balances, from) - v);
    SumSet(taken, to, At(balances, to) + v);
  }
}
