/**
 * Name-level call graphs: walks, cycles, and the rank that rules cycles out.
 */
module CallGraph {
  type Name = string

  type Graph = set<(Name, Name)>

  predicate Walk(g: Graph, p: seq<Name>) {
    |p| >= 2 && forall i :: 0 <= i < |p| - 1 ==> (p[i], p[i + 1]) in g
  }

  /** Every closed walk stays at one name: only self-loops are left. */
  ghost predicate NoCycle(g: Graph) {
    forall p :: Walk(g, p) && p[0] == p[|p| - 1] ==> forall i :: 0 <= i < |p| ==> p[i] == p[0]
  }

  ghost predicate ClosedWalk(g: Graph) {
    exists p :: Walk(g, p) && p[0] == p[|p| - 1]
  }

  /** Every call between different names goes up. */
  ghost predicate Ranked(g: Graph, rank: Name -> nat) {
    forall a, b :: (a, b) in g && a != b ==> rank(a) < rank(b)
  }

  lemma {:induction false} RanksRise(g: Graph, rank: Name -> nat, p: seq<Name>, i: nat, j: nat)
    requires Ranked(g, rank) && Walk(g, p) && i <= j < |p|
    ensures rank(p[i]) <= rank(p[j])
    ensures rank(p[i]) == rank(p[j]) ==> p[i] == p[j]
    decreases j - i
  {
    if i < j {
      RanksRise(g, rank, p, i, j - 1);
      assert (p[j - 1], p[j - 1 + 1]) in g;
    }
  }

  lemma RankedHasNoCycle(g: Graph, rank: Name -> nat)
    requires Ranked(g, rank)
    ensures NoCycle(g)
  {
    forall p, i | Walk(g, p) && p[0] == p[|p| - 1] && 0 <= i < |p| ensures p[i] == p[0] {
      RanksRise(g, rank, p, 0, i);
      RanksRise(g, rank, p, i, |p| - 1);
    }
  }

  /** `x` leads to `n` in exactly d calls. */
  ghost predicate LeadsIn(g: Graph, x: Name, n: Name, d: nat)
    decreases d
  {
    if d == 0 then false
    else if d == 1 then (x, n) in g
    else exists m :: (m, n) in g && LeadsIn(g, x, m, d - 1)
  }

  /** `x` is a transitive caller of `n`. */
  ghost predicate Leads(g: Graph, x: Name, n: Name) {
    exists d: nat :: LeadsIn(g, x, n, d)
  }

  lemma LeadsDirect(g: Graph, x: Name, n: Name)
    requires (x, n) in g
    ensures Leads(g, x, n)
  {
    assert LeadsIn(g, x, n, 1);
  }

  lemma LeadsOn(g: Graph, x: Name, m: Name, n: Name)
    requires Leads(g, x, m) && (m, n) in g
    ensures Leads(g, x, n)
  {
    var d: nat :| LeadsIn(g, x, m, d);
    assert LeadsIn(g, x, n, d + 1);
  }

  lemma {:induction false} LeadsFromIn(g: Graph, w: Name, x: Name, n: Name, d: nat)
    requires (w, x) in g && LeadsIn(g, x, n, d)
    ensures LeadsIn(g, w, n, d + 1)
    decreases d
  {
    if d == 1 {
      assert LeadsIn(g, w, x, 1);
    } else {
      var m :| (m, n) in g && LeadsIn(g, x, m, d - 1);
      LeadsFromIn(g, w, x, m, d - 1);
    }
  }

  /** Transitive callers are closed under callers. */
  lemma LeadsFrom(g: Graph, w: Name, x: Name, n: Name)
    requires (w, x) in g && Leads(g, x, n)
    ensures Leads(g, w, n)
  {
    var d: nat :| LeadsIn(g, x, n, d);
    LeadsFromIn(g, w, x, n, d);
  }

  lemma {:induction false} LeadsInWalk(g: Graph, x: Name, n: Name, d: nat) returns (p: seq<Name>)
    requires LeadsIn(g, x, n, d)
    ensures Walk(g, p) && p[0] == x && p[|p| - 1] == n
    decreases d
  {
    if d == 1 {
      p := [x, n];
    } else {
      var m :| (m, n) in g && LeadsIn(g, x, m, d - 1);
      var q := LeadsInWalk(g, x, m, d - 1);
      p := q + [n];
      forall i | 0 <= i < |p| - 1 ensures (p[i], p[i + 1]) in g {
        assert i < |q| - 1 ==> (q[i], q[i + 1]) in g;
      }
    }
  }

  lemma {:induction false} WalkLeads(g: Graph, p: seq<Name>)
    requires Walk(g, p)
    ensures Leads(g, p[0], p[|p| - 1])
  {
    var n := |p| - 1;
    assert (p[n - 1], p[n - 1 + 1]) in g;
    if n == 1 {
      LeadsDirect(g, p[0], p[1]);
    } else {
      var q := p[..n];
      forall i | 0 <= i < |q| - 1 ensures (q[i], q[i + 1]) in g {
        assert (p[i], p[i + 1]) in g;
      }
      WalkLeads(g, q);
      LeadsOn(g, p[0], q[n - 1], p[n]);
    }
  }

  /** Transitive callers are what walks say they are. */
  lemma LeadsIffWalk(g: Graph, x: Name, n: Name)
    ensures Leads(g, x, n) <==> exists p :: Walk(g, p) && p[0] == x && p[|p| - 1] == n
  {
    if Leads(g, x, n) {
      var d: nat :| LeadsIn(g, x, n, d);
      var p := LeadsInWalk(g, x, n, d);
    }
    if p :| Walk(g, p) && p[0] == x && p[|p| - 1] == n {
      WalkLeads(g, p);
    }
  }

  lemma {:induction false} LeadsGrows(g: Graph, g': Graph, x: Name, n: Name, d: nat)
    requires g <= g' && LeadsIn(g, x, n, d)
    ensures LeadsIn(g', x, n, d)
    decreases d
  {
    if d > 1 {
      var m :| (m, n) in g && LeadsIn(g, x, m, d - 1);
      LeadsGrows(g, g', x, m, d - 1);
    }
  }

  /** The last call on the way from `x` to `n` may be taken to come from another name. */
  lemma {:induction false} LastCaller(g: Graph, x: Name, n: Name, d: nat)
    requires LeadsIn(g, x, n, d)
    ensures (x, n) in g || exists m :: m != n && (m, n) in g && Leads(g, x, m)
    decreases d
  {
    if d > 1 {
      var m :| (m, n) in g && LeadsIn(g, x, m, d - 1);
      if m == n {
        LastCaller(g, x, n, d - 1);
      }
    }
  }

  /**
   * New calls from one name to names that do not already lead to it, or to itself, keep
   * the graph free of cycles: everything that does not lead to `n` is lifted above it.
   */
  lemma NewCallsKeepRank(g: Graph, g': Graph, rank: Name -> nat, n: Name) returns (rank': Name -> nat)
    requires Ranked(g, rank)
    requires forall a, b :: (a, b) in g' ==> (a, b) in g || a == b || (a == n && !Leads(g, b, n))
    ensures Ranked(g', rank')
  {
    rank' := x => if x == n || Leads(g, x, n) then rank(x) else rank(x) + rank(n) + 1;
    forall a, b | (a, b) in g' && a != b ensures rank'(a) < rank'(b) {
      if (a, b) in g {
        if b == n {
          LeadsDirect(g, a, n);
        } else if Leads(g, b, n) {
          LeadsFrom(g, a, b, n);
        }
      }
    }
  }

  /** Calls out of `n` are of no use to reach `n` from elsewhere. */
  lemma {:induction false} LeadsWithout(g: Graph, g': Graph, x: Name, t: Name, n: Name, d: nat)
    requires forall a, b :: (a, b) in g' ==> (a, b) in g || a == n
    requires LeadsIn(g', x, t, d) && x != n
    ensures Leads(g, x, t) || Leads(g, x, n)
    decreases d
  {
    if d == 1 {
      LeadsDirect(g, x, t);
    } else {
      var m :| (m, t) in g' && LeadsIn(g', x, m, d - 1);
      LeadsWithout(g, g', x, m, n, d - 1);
      if m != n && Leads(g, x, m) {
        LeadsOn(g, x, m, t);
      }
    }
  }
}
