/**
 * The one-third limit on a validator's power, checked on wrapping numbers.
 */
module ValidatorPower {
  const UINT64 := 0x1_0000_0000_0000_0000

  type Address = string

  datatype Validator = Validator(node: Address, power: nat)

  predicate Words(vs: seq<Validator>) {
    forall i :: 0 <= i < |vs| ==> vs[i].power < UINT64
  }

  // ----- the updated set ------------------------------------------------------------------

  /** The first validator of the node gets the power; a new node is added. */
  function Updated(vs: seq<Validator>, node: Address, power: nat): seq<Validator> {
    if vs == [] then [Validator(node, power)]
    else if vs[0].node == node then [vs[0].(power := power)] + vs[1..]
    else [vs[0]] + Updated(vs[1..], node, power)
  }

  function Total(vs: seq<Validator>): nat {
    if vs == [] then 0 else vs[0].power + Total(vs[1..])
  }

  function Greatest(vs: seq<Validator>): nat {
    if vs == [] then 0
    else
      var rest := Greatest(vs[1..]);
      if vs[0].power > rest then vs[0].power else rest
  }

  predicate Lists(vs: seq<Validator>, node: Address) {
    exists i :: 0 <= i < |vs| && vs[i].node == node
  }

  lemma {:induction false} TotalAppend(a: seq<Validator>, b: seq<Validator>)
    ensures Total(a + b) == Total(a) + Total(b)
    ensures Greatest(a + b) == if Greatest(a) > Greatest(b) then Greatest(a) else Greatest(b)
  {
    if a == [] {
      assert a + b == b;
    } else {
      assert (a + b)[1..] == a[1..] + b;
      TotalAppend(a[1..], b);
    }
  }

  lemma {:induction false} GreatestIs(vs: seq<Validator>)
    ensures forall i :: 0 <= i < |vs| ==> vs[i].power <= Greatest(vs)
    ensures vs != [] ==> exists i :: 0 <= i < |vs| && vs[i].power == Greatest(vs)
  {
    if vs != [] {
      GreatestIs(vs[1..]);
      if vs[0].power > Greatest(vs[1..]) {
        assert vs[0].power == Greatest(vs);
      } else if |vs| > 1 {
        var i :| 0 <= i < |vs[1..]| && vs[1..][i].power == Greatest(vs[1..]);
        assert vs[i + 1].power == Greatest(vs);
      } else {
        assert vs[0].power == Greatest(vs);
      }
    }
  }

  lemma {:induction false} UpdatedAt(vs: seq<Validator>, node: Address, power: nat, i: nat)
    requires i <= |vs| && forall j :: 0 <= j < i ==> vs[j].node != node
    requires i < |vs| ==> vs[i].node == node
    ensures Updated(vs, node, power)
         == vs[..i] + [Validator(node, power)] + if i < |vs| then vs[i + 1..] else []
  {
    if i > 0 {
      assert vs[1..][..i - 1] == vs[..i][1..];
      UpdatedAt(vs[1..], node, power, i - 1);
      assert vs[..i] == [vs[0]] + vs[1..][..i - 1];
    }
  }

  // ----- the check ----------------------------------------------------------------------------

  datatype Sums = Overflow | Sums(has: bool, total: nat, greatest: nat)

  /** One turn of the loop: safeAdd refuses a total of 2^64 or more. */
  function AddPower(s: Sums, v: Validator, node: Address, power: nat): Sums {
    if s.Overflow? then s
    else
      var hit := !s.has && v.node == node;
      var p := if hit then power else v.power;
      if s.total + p >= UINT64 then Overflow
      else Sums(s.has || hit, s.total + p, if p > s.greatest then p else s.greatest)
  }

  function SumUp(vs: seq<Validator>, node: Address, power: nat): Sums {
    if vs == [] then Sums(false, 0, 0)
    else AddPower(SumUp(vs[..|vs| - 1], node, power), vs[|vs| - 1], node, power)
  }

  /** checkValidatorsPower; the addition for a new node is not checked and wraps. */
  predicate Accepted(vs: seq<Validator>, node: Address, power: nat) {
    var s := SumUp(vs, node, power);
    && vs != []
    && s.Sums?
    && var total := if s.has then s.total else (s.total + power) % UINT64;
       var greatest := if !s.has && power > s.greatest then power else s.greatest;
       greatest < total / 3
  }

  lemma {:induction false} SumUpIs(vs: seq<Validator>, node: Address, power: nat)
    ensures var s := SumUp(vs, node, power);
            var u := Updated(vs, node, power);
            if Lists(vs, node)
            then (s.Overflow? <==> Total(u) >= UINT64)
                 && (s.Sums? ==> s == Sums(true, Total(u), Greatest(u)))
            else (s.Overflow? <==> Total(vs) >= UINT64)
                 && (s.Sums? ==> s == Sums(false, Total(vs), Greatest(vs)))
                 && u == vs + [Validator(node, power)]
  {
    hide Updated, Total, Greatest, Lists;
    if vs == [] {
      NoValidators(node, power);
    } else {
      var n := |vs| - 1;
      var p := vs[..n];
      SumUpIs(p, node, power);
      UpdatedPrefix(vs, node, power);
      assert vs == p + [vs[n]];
      SingleTotal(vs[n]);
      TotalAppend(p, [vs[n]]);
      if Lists(p, node) {
        TotalAppend(Updated(p, node, power), [vs[n]]);
      } else {
        SingleTotal(Validator(node, power));
        TotalAppend(p, [Validator(node, power)]);
      }
    }
  }

  lemma NoValidators(node: Address, power: nat)
    ensures !Lists([], node) && Total([]) == 0 && Greatest([]) == 0
    ensures Updated([], node, power) == [Validator(node, power)]
  {
  }

  lemma SingleTotal(v: Validator)
    ensures Total([v]) == v.power && Greatest([v]) == v.power
  {
    assert [v][1..] == [];
  }

  /** How the update of a list follows from the update of all but its last. */
  lemma UpdatedPrefix(vs: seq<Validator>, node: Address, power: nat)
    requires vs != []
    ensures var n := |vs| - 1;
            var p := vs[..n];
            && (Lists(vs, node) <==> Lists(p, node) || vs[n].node == node)
            && Updated(vs, node, power)
               == if Lists(p, node) then Updated(p, node, power) + [vs[n]]
                  else if vs[n].node == node then p + [Validator(node, power)]
                  else vs + [Validator(node, power)]
  {
    var n := |vs| - 1;
    var p := vs[..n];
    if Lists(p, node) {
      var i := FirstOf(p, node);
      assert vs[i].node == node && forall j :: 0 <= j < i ==> vs[j].node == p[j].node;
      UpdatedAt(p, node, power, i);
      UpdatedAt(vs, node, power, i);
      assert vs[i + 1..] == p[i + 1..] + [vs[n]] && vs[..i] == p[..i];
    } else {
      forall j | 0 <= j < n ensures vs[j].node != node {
        assert p[j].node != node;
      }
      UpdatedAt(vs, node, power, if vs[n].node == node then n else n + 1);
      assert vs[..n + 1] == vs;
    }
  }

  lemma FirstOf(vs: seq<Validator>, node: Address) returns (i: nat)
    requires Lists(vs, node)
    ensures i < |vs| && vs[i].node == node && forall j :: 0 <= j < i ==> vs[j].node != node
  {
    i := 0;
    while vs[i].node != node
      invariant i < |vs| && forall j :: 0 <= j < i ==> vs[j].node != node
      decreases |vs| - i
    {
      i := i + 1;
      assert i < |vs| by {
        var k :| 0 <= k < |vs| && vs[k].node == node;
      }
    }
  }

  /**
   * The check accepts exactly the updates whose total fits in 64 bits and whose
   * greatest power is below a third of it (rounded down), although the one addition
   * is not checked for overflow: if it wraps, the new power alone is too large.
   */
  lemma AcceptedIff(vs: seq<Validator>, node: Address, power: nat)
    requires Words(vs) && power < UINT64
    ensures var u := Updated(vs, node, power);
            Accepted(vs, node, power) <==>
              vs != [] && Total(u) < 0x1_0000_0000_0000_0000 && Greatest(u) < Total(u) / 3
  {
    SumUpIs(vs, node, power);
    hide SumUp, Updated;
    SingleTotal(Validator(node, power));
    TotalAppend(vs, [Validator(node, power)]);
    hide Total, Greatest;
  }

  // ----- runs -------------------------------------------------------------------------------------

  datatype Op =
    | AddValidator(node: Address, power: nat, wellFormed: bool)
    | SetValidatorPower(node: Address, power: nat)

  predicate Succeeds(vs: seq<Validator>, op: Op) {
    && op.power < UINT64
    && (match op
        case AddValidator(node, power, wellFormed) => wellFormed && power != 0 && Accepted(vs, node, power)
        case SetValidatorPower(node, power) => Accepted(vs, node, power) && Lists(vs, node))
  }

  /**
   * An update succeeds exactly if a new validator comes complete and with some power, or a
   * known one is meant, and the set it leads to has a 64-bit total of which nobody reaches
   * a third.
   */
  lemma SucceedsIff(vs: seq<Validator>, op: Op)
    requires Words(vs)
    ensures var u := Updated(vs, op.node, op.power);
            Succeeds(vs, op) <==>
              && op.power < 0x1_0000_0000_0000_0000 && vs != []
              && (op.AddValidator? ==> op.wellFormed && op.power > 0)
              && (op.SetValidatorPower? ==> exists i :: 0 <= i < |vs| && vs[i].node == op.node)
              && Total(u) < 0x1_0000_0000_0000_0000
              && forall i :: 0 <= i < |u| ==> u[i].power < Total(u) / 3
    ensures Next(vs, op) == if Succeeds(vs, op) then Updated(vs, op.node, op.power) else vs
  {
    if op.power < UINT64 {
      AcceptedIff(vs, op.node, op.power);
      GreatestIs(Updated(vs, op.node, op.power));
      UpdatedNotEmpty(vs, op.node, op.power);
      hide Accepted, Updated, Total, Greatest;
    }
  }

  lemma UpdatedNotEmpty(vs: seq<Validator>, node: Address, power: nat)
    ensures Updated(vs, node, power) != []
  {
  }

  function Next(vs: seq<Validator>, op: Op): seq<Validator> {
    if Succeeds(vs, op) then Updated(vs, op.node, op.power) else vs
  }

  function Run(vs: seq<Validator>, ops: seq<Op>): seq<Validator> {
    if ops == [] then vs else Next(Run(vs, ops[..|ops| - 1]), ops[|ops| - 1])
  }

  /** Nobody has a third of the power, in unbounded numbers. */
  predicate Bounded(vs: seq<Validator>) {
    forall i :: 0 <= i < |vs| ==> 3 * vs[i].power < Total(vs)
  }

  lemma {:induction false} UpdatedWords(vs: seq<Validator>, node: Address, power: nat)
    requires Words(vs) && power < UINT64
    ensures Words(Updated(vs, node, power))
  {
    if vs != [] && vs[0].node != node {
      UpdatedWords(vs[1..], node, power);
    }
  }

  /**
   * Over any run, once one update has been accepted, or if it held at the start, every
   * validator's power is below a third of the true total.
   */
  lemma {:induction false} RunBounded(vs: seq<Validator>, ops: seq<Op>)
    requires Words(vs)
    ensures Words(Run(vs, ops))
    ensures Bounded(vs) || (exists i :: 0 <= i < |ops| && Succeeds(Run(vs, ops[..i]), ops[i]))
            ==> Bounded(Run(vs, ops))
  {
    hide Succeeds, Updated, Accepted, Bounded;
    if ops != [] {
      var n := |ops| - 1;
      var before, op := Run(vs, ops[..n]), ops[n];
      RunBounded(vs, ops[..n]);
      if Succeeds(before, op) {
        SuccessBounds(before, op);
      } else if i :| 0 <= i < |ops| && Succeeds(Run(vs, ops[..i]), ops[i]) {
        assert i < n;
        assert ops[..n][..i] == ops[..i] && ops[..n][i] == ops[i];
      }
    }
  }

  lemma SuccessBounds(vs: seq<Validator>, op: Op)
    requires Words(vs) && Succeeds(vs, op)
    ensures Words(Next(vs, op)) && Bounded(Next(vs, op))
  {
    AcceptedIff(vs, op.node, op.power);
    UpdatedWords(vs, op.node, op.power);
    GreatestIs(Updated(vs, op.node, op.power));
    hide Accepted, Updated, Total, Greatest;
  }

  // ----- the loop -----------------------------------------------------------------------------------

  method CheckValidatorsPower(vs: seq<Validator>, node: Address, power: nat) returns (ok: bool)
    requires Words(vs) && power < UINT64
    ensures ok == Accepted(vs, node, power)
  {
    hide SumUp;
    if vs == [] {
      return false;
    }
    NoneSummed(node, power);
    var total: nat, greatest: nat, has := 0, 0, false;
    for i := 0 to |vs|
      invariant total < UINT64 && SumUp(vs[..i], node, power) == Sums(has, total, greatest)
    {
      SumUpNext(vs, i, node, power);
      var p := vs[i].power;
      if !has && vs[i].node == node {
        has := true;
        p := power;
      }
      if total > UINT64 - 1 - p {
        OverflowStays(vs, i + 1, node, power);
        return false;
      }
      if p > greatest {
        greatest := p;
      }
      total := total + p;
    }
    assert vs[..|vs|] == vs;
    if !has {
      total := (total + power) % UINT64;
      if power > greatest {
        greatest := power;
      }
    }
    ok := greatest < total / 3;
  }

  lemma NoneSummed(node: Address, power: nat)
    ensures SumUp([], node, power) == Sums(false, 0, 0)
  {
  }

  lemma SumUpNext(vs: seq<Validator>, i: nat, node: Address, power: nat)
    requires i < |vs|
    ensures SumUp(vs[..i + 1], node, power) == AddPower(SumUp(vs[..i], node, power), vs[i], node, power)
  {
    assert vs[..i + 1][..i] == vs[..i];
  }

  lemma {:induction false} OverflowStays(vs: seq<Validator>, i: nat, node: Address, power: nat)
    requires i <= |vs| && SumUp(vs[..i], node, power) == Overflow
    ensures SumUp(vs, node, power) == Overflow
    decreases |vs| - i
  {
    if i == |vs| {
      assert vs[..i] == vs;
    } else {
      assert vs[..i + 1][..i] == vs[..i];
      OverflowStays(vs, i + 1, node, power);
    }
  }
}
