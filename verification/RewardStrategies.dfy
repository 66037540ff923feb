/**
 * The list of reward strategies: what an update keeps, and the two look-ups.
 */
module RewardStrategies {

  /** One line of a strategy; the percentage is text. */
  datatype Rewarder = Rewarder(name: string, address: string, percent: string)

  /** `present` tells a stored list from a missing one. */
  datatype Strategy = Strategy(present: bool, rewarders: seq<Rewarder>, effect: nat)

  const NONE := Strategy(false, [], 0)

  // ----- updating -----------------------------------------------------------------------

  /** The loop of UpdateRewardStrategy: strategies kept, and the last one already in effect. */
  datatype Pruning = Pruning(kept: seq<Strategy>, past: Strategy)

  function PruneOne(p: Pruning, s: Strategy, height: nat): Pruning {
    if s.effect <= height then
      if p.past.effect >= s.effect then p else p.(past := s)
    else if p.past.effect != 0 then Pruning(p.kept + [p.past, s], p.past.(effect := 0))
    else p.(kept := p.kept + [s])
  }

  function Prune(list: seq<Strategy>, height: nat): Pruning {
    if list == [] then Pruning([], NONE)
    else PruneOne(Prune(list[..|list| - 1], height), list[|list| - 1], height)
  }

  function Update(list: seq<Strategy>, height: nat, s: Strategy): seq<Strategy> {
    var p := Prune(list, height);
    (if p.kept == [] && p.past.effect != 0 then [p.past] else p.kept) + [s]
  }

  /** CheckEffectHeight. */
  predicate EffectAllowed(list: seq<Strategy>, height: nat, effect: nat) {
    effect > height && forall i :: 0 <= i < |list| ==> effect > list[i].effect
  }

  // ----- look-ups --------------------------------------------------------------------------

  /** GetStrategy of chain version 1: a forward scan for the latest in effect. */
  function Forward(list: seq<Strategy>, h: nat): Strategy {
    if list == [] then NONE
    else
      var best, s := Forward(list[..|list| - 1], h), list[|list| - 1];
      if s.effect <= h && !(best.present && best.effect >= s.effect) then s else best
  }

  /** GetRewardStrategy of chain version 2: a backward scan for the first in effect. */
  function Backward(list: seq<Strategy>, h: nat): Strategy {
    if list == [] then NONE
    else if list[|list| - 1].effect <= h then list[|list| - 1]
    else Backward(list[..|list| - 1], h)
  }

  /** Effect heights start at 1 and rise strictly. */
  predicate Rising(list: seq<Strategy>) {
    && (forall i :: 0 <= i < |list| ==> list[i].effect >= 1)
    && (forall i, j :: 0 <= i < j < |list| ==> list[i].effect < list[j].effect)
  }

  /** How many strategies are in effect at the height. */
  function InEffect(list: seq<Strategy>, h: nat): (n: nat)
    ensures n <= |list|
  {
    if list == [] then 0 else InEffect(list[..|list| - 1], h) + if list[|list| - 1].effect <= h then 1 else 0
  }

  /** In a rising list those in effect are the first ones. */
  lemma {:induction false} InEffectIsPrefix(list: seq<Strategy>, h: nat)
    requires Rising(list)
    ensures forall i :: 0 <= i < |list| ==> (list[i].effect <= h <==> i < InEffect(list, h))
  {
    if list != [] {
      InEffectIsPrefix(list[..|list| - 1], h);
    }
  }

  lemma {:induction false} BackwardIs(list: seq<Strategy>, h: nat)
    requires Rising(list)
    ensures var n := InEffect(list, h); Backward(list, h) == if n == 0 then NONE else list[n - 1]
  {
    InEffectIsPrefix(list, h);
    if list != [] {
      BackwardIs(list[..|list| - 1], h);
    }
  }

  /** Both chain versions read the same strategy from a rising list, at every height. */
  lemma {:induction false} LookupsAgree(list: seq<Strategy>, h: nat)
    requires Rising(list)
    ensures Forward(list, h) == Backward(list, h)
  {
    if list != [] {
      var n := |list| - 1;
      LookupsAgree(list[..n], h);
      BackwardIs(list[..n], h);
      assert forall i :: 0 <= i < n ==> list[i].effect < list[n].effect;
    }
  }

  lemma {:induction false} PruneAllPast(list: seq<Strategy>, height: nat)
    requires Rising(list) && forall i :: 0 <= i < |list| ==> list[i].effect <= height
    ensures Prune(list, height) == Pruning([], if list == [] then NONE else list[|list| - 1])
  {
    if list != [] {
      PruneAllPast(list[..|list| - 1], height);
    }
  }

  /** The first line of the greatest effect height. */
  predicate IsGreatest(list: seq<Strategy>, i: int) {
    && 0 <= i < |list|
    && (forall j :: 0 <= j < |list| ==> list[j].effect <= list[i].effect)
    && (forall j :: 0 <= j < i ==> list[j].effect < list[i].effect)
  }

  /** Of strategies in effect, in any order, the first of the greatest effect height is found. */
  lemma {:induction false} PastIsGreatest(list: seq<Strategy>, height: nat) returns (i: int)
    requires forall j :: 0 <= j < |list| ==> 1 <= list[j].effect <= height
    ensures Prune(list, height) == Pruning([], if list == [] then NONE else Prune(list, height).past)
    ensures list != [] ==> IsGreatest(list, i) && Prune(list, height).past == list[i]
  {
    hide IsGreatest;
    i := 0;
    if list != [] {
      var n := |list| - 1;
      i := PastIsGreatest(list[..n], height);
      assert Prune(list, height) == PruneOne(Prune(list[..n], height), list[n], height);
      if n == 0 {
        i := 0;
        GreatestAlone(list);
      } else {
        GreatestNext(list, i);
        i := if list[i].effect >= list[n].effect then i else n;
      }
    }
  }

  lemma GreatestAlone(list: seq<Strategy>)
    requires |list| == 1
    ensures IsGreatest(list, 0)
  {
  }

  lemma GreatestNext(list: seq<Strategy>, i: int)
    requires list != [] && IsGreatest(list[..|list| - 1], i)
    ensures 0 <= i < |list| - 1 && list[..|list| - 1][i] == list[i]
    ensures IsGreatest(list, if list[i].effect >= list[|list| - 1].effect then i else |list| - 1)
  {
    var n := |list| - 1;
    assert forall j :: 0 <= j < n ==> list[..n][j] == list[j];
  }

  /** On a rising list pruning drops exactly what precedes the last strategy in effect. */
  lemma {:induction false} PruneIs(list: seq<Strategy>, height: nat, n: nat)
    requires Rising(list) && n < |list| && forall i :: 0 <= i < |list| ==> (list[i].effect <= height <==> i < n)
    ensures var p := Prune(list, height);
            p.past.effect == 0 && p.kept == list[if n == 0 then 0 else n - 1..]
  {
    var m, k := |list| - 1, if n == 0 then 0 else n - 1;
    assert list[k..] == list[..m][k..] + [list[m]];
    if n == m {
      PruneAllPast(list[..m], height);
      assert list[..m][k..] == if n == 0 then [] else [list[m - 1]];
    } else {
      PruneIs(list[..m], height, n);
    }
    hide Rising;
  }

  lemma UpdateIs(list: seq<Strategy>, height: nat, s: Strategy)
    requires Rising(list)
    ensures var n := InEffect(list, height);
            Update(list, height, s) == list[if n == 0 then 0 else n - 1..] + [s]
  {
    InEffectIsPrefix(list, height);
    var n := InEffect(list, height);
    if n < |list| {
      PruneIs(list, height, n);
    } else {
      PruneAllPast(list, height);
      assert n > 0 ==> list[n - 1..] == [list[n - 1]];
    }
    hide InEffect, Prune;
  }

  /**
   * Pruning preserves meaning: an allowed update keeps the list rising, and at every
   * height above the committed one the look-up gives the new strategy from its effect
   * height on and the old answer before it.
   */
  lemma UpdatePreservesLookups(list: seq<Strategy>, height: nat, s: Strategy, h: nat)
    requires Rising(list) && EffectAllowed(list, height, s.effect) && h > height
    ensures Rising(Update(list, height, s))
    ensures Backward(Update(list, height, s), h) == if h >= s.effect then s else Backward(list, h)
    ensures Forward(Update(list, height, s), h) == Backward(Update(list, height, s), h)
  {
    var n := InEffect(list, height);
    var k := if n == 0 then 0 else n - 1;
    UpdateIs(list, height, s);
    hide InEffect, Update;
    var kept := list[k..];
    RisingAfter(list, height, s, k);
    LookupsAgree(kept + [s], h);
    assert (kept + [s])[..|kept|] == kept;
    if h < s.effect {
      DroppedUnseen(list, k, h, height);
    }
  }

  lemma RisingAfter(list: seq<Strategy>, height: nat, s: Strategy, k: nat)
    requires Rising(list) && EffectAllowed(list, height, s.effect) && k <= |list|
    ensures Rising(list[k..] + [s])
  {
  }

  /** What is dropped is not what a later height looks up. */
  lemma DroppedUnseen(list: seq<Strategy>, k: nat, h: nat, height: nat)
    requires Rising(list) && h > height
    requires k == (if InEffect(list, height) == 0 then 0 else InEffect(list, height) - 1)
    ensures Backward(list[k..], h) == Backward(list, h)
  {
    InEffectIsPrefix(list, height);
    InEffectIsPrefix(list, h);
    hide InEffect, Rising;
    BackwardOfTail(list, k, h);
  }

  /** A look-up that is answered from a tail is answered the same from the whole. */
  lemma {:induction false} BackwardOfTail(list: seq<Strategy>, k: nat, h: nat)
    requires k <= |list| && (k == 0 || (k < |list| && list[k].effect <= h))
    ensures Backward(list[k..], h) == Backward(list, h)
  {
    if k == 0 {
      assert list[0..] == list;
    } else {
      var m := |list| - 1;
      assert list[k..][..m - k] == list[..m][k..];
      if list[m].effect > h {
        BackwardOfTail(list[..m], k, h);
      }
    }
  }

  // ----- the stored list ------------------------------------------------------------------------

  class StrategyStore {
    var list: seq<Strategy>

    constructor ()
      ensures list == []
    {
      list := [];
    }

    method CheckEffectHeight(height: nat, effect: nat) returns (ok: bool)
      ensures ok == EffectAllowed(list, height, effect)
    {
      if effect <= height {
        return false;
      }
      for i := 0 to |list|
        invariant forall j :: 0 <= j < i ==> effect > list[j].effect
      {
        if effect <= list[i].effect {
          return false;
        }
      }
      ok := true;
    }

    method UpdateRewardStrategy(height: nat, s: Strategy)
      modifies this
      ensures list == Update(old(list), height, s)
    {
      var kept, past := [], NONE;
      for i := 0 to |list|
        invariant list == old(list) && Prune(list[..i], height) == Pruning(kept, past)
      {
        assert list[..i + 1][..i] == list[..i];
        if list[i].effect <= height {
          if past.effect >= list[i].effect {
            continue;
          }
          past := list[i];
        } else {
          if past.effect != 0 {
            kept := kept + [past];
            past := past.(effect := 0);
          }
          kept := kept + [list[i]];
        }
      }
      assert list[..|list|] == list;
      if |kept| == 0 && past.effect != 0 {
        kept := kept + [past];
      }
      list := kept + [s];
    }

    method GetStrategy(h: nat) returns (s: Strategy)
      ensures s == Forward(list, h)
    {
      s := NONE;
      for i := 0 to |list|
        invariant s == Forward(list[..i], h)
      {
        assert list[..i + 1][..i] == list[..i];
        if list[i].effect <= h {
          if s.present && s.effect >= list[i].effect {
            continue;
          }
          s := list[i];
        }
      }
      assert list[..|list|] == list;
    }

    method GetRewardStrategy(h: nat) returns (s: Strategy)
      ensures s == Backward(list, h)
    {
      var i := |list|;
      assert list[..|list|] == list;
      while i > 0
        invariant 0 <= i <= |list| && Backward(list, h) == Backward(list[..i], h)
      {
        assert list[..i][..i - 1] == list[..i - 1];
        if list[i - 1].effect <= h {
          return list[i - 1];
        }
        i := i - 1;
      }
      s := NONE;
    }
  }
}
