/**
 * The call-cycle checker of the contract inspector: functions are visited in any
 * order, each call is checked against the calls collected so far, and the search
 * for callers recurses without a guard.
 */
module CallCycle {
  import opened CallGraph

  /** Receiver and function name; the search compares function names only. */
  datatype Node = Node(recv: Name, func: Name)

  type CallMap = map<Node, seq<Node>>

  /** What is called: `f(..)`, `x.f(..)`, or something else. */
  datatype Callee = Plain(name: Name) | Member(obj: Name, sel: Name) | Unknown

  /** A call expression with the call expressions inside it, in the order of the walk. */
  datatype Call = Call(callee: Callee, inner: seq<Call>)

  /** A function declaration; an unnamed receiver has the empty name. */
  datatype Decl = Decl(hasRecv: bool, recv: Name, func: Name, body: seq<Call>)

  datatype Report = Recursive(func: Name) | Cycle(caller: Name, callee: Name)

  function KeyOf(d: Decl): Node {
    Node(if d.hasRecv then d.recv else "", d.func)
  }

  function NodeOf(c: Callee): Node {
    match c
    case Plain(name) => Node("", name)
    case Member(_, sel) => Node("", sel)
    case Unknown => Node("", "")
  }

  predicate IsRecursive(d: Decl, c: Callee) {
    match c
    case Plain(name) => name == d.func && !d.hasRecv
    case Member(obj, sel) => d.hasRecv && d.recv != "" && obj == d.recv && sel == d.func
    case Unknown => false
  }

  /** All calls of a body, nested ones included, in the order of the walk. */
  function Targets(calls: seq<Call>): seq<Node>
    decreases calls
  {
    if calls == [] then []
    else [NodeOf(calls[0].callee)] + Targets(calls[0].inner) + Targets(calls[1..])
  }

  function GraphOf(cm: CallMap): Graph {
    set k, v | k in cm && v in cm[k] :: (k.func, v.func)
  }

  function ProgramGraph(decls: seq<Decl>): Graph {
    set d, v | d in decls && v in Targets(d.body) :: (d.func, v.func)
  }

  /** `k` calls `n`, directly or through others. */
  ghost predicate Calls(cm: CallMap, k: Node, n: Name) {
    k in cm && exists v :: v in cm[k] && (v.func == n || Leads(GraphOf(cm), v.func, n))
  }

  lemma EdgeOf(cm: CallMap, k: Node, v: Node)
    requires k in cm && v in cm[k]
    ensures (k.func, v.func) in GraphOf(cm)
  {
  }

  /** As names, the callers found are the transitive callers of the graph. */
  lemma CallsIffLeads(cm: CallMap, x: Name, n: Name)
    ensures (exists k: Node :: k.func == x && Calls(cm, k, n)) <==> Leads(GraphOf(cm), x, n)
  {
    var g := GraphOf(cm);
    if k: Node :| k.func == x && Calls(cm, k, n) {
      var v :| v in cm[k] && (v.func == n || Leads(g, v.func, n));
      EdgeOf(cm, k, v);
      if v.func == n {
        LeadsDirect(g, x, n);
      } else {
        LeadsFrom(g, x, v.func, n);
      }
    }
    if Leads(g, x, n) {
      var d: nat :| LeadsIn(g, x, n, d);
      FirstCall(cm, x, n, d);
    }
  }

  lemma {:induction false} FirstCall(cm: CallMap, x: Name, n: Name, d: nat)
    requires LeadsIn(GraphOf(cm), x, n, d)
    ensures exists k: Node :: k.func == x && Calls(cm, k, n)
    decreases d
  {
    var g := GraphOf(cm);
    if d == 1 {
      var k, v :| k in cm && v in cm[k] && k.func == x && v.func == n;
      assert Calls(cm, k, n);
    } else {
      var m :| (m, n) in g && LeadsIn(g, x, m, d - 1);
      FirstCall(cm, x, m, d - 1);
      var k: Node :| k.func == x && Calls(cm, k, m);
      var v :| v in cm[k] && (v.func == m || Leads(g, v.func, m));
      if v.func == m {
        LeadsDirect(g, m, n);
      } else {
        LeadsOn(g, v.func, m, n);
      }
      assert Calls(cm, k, n);
    }
  }

  // ----- the search --------------------------------------------------------------------

  /** What the loop body adds for one entry of a call list. */
  ghost predicate AddedBy(cm: CallMap, k1: Node, n: Name, k: Node) {
    k == k1 || (k1.func != n && Calls(cm, k, k1.func))
  }

  ghost predicate DirectlyCalls(cm: CallMap, k1: Node, n: Name) {
    k1 in cm && exists v :: v in cm[k1] && v.func == n
  }

  /** Through some direct caller of `n` the search reaches exactly the callers of `n`. */
  lemma SearchIsComplete(cm: CallMap, n: Name, k: Node)
    ensures Calls(cm, k, n) <==> exists k1 :: DirectlyCalls(cm, k1, n) && AddedBy(cm, k1, n, k)
  {
    var g := GraphOf(cm);
    if Calls(cm, k, n) {
      var v :| v in cm[k] && (v.func == n || Leads(g, v.func, n));
      if v.func == n {
        assert DirectlyCalls(cm, k, n) && AddedBy(cm, k, n, k);
      } else {
        ThroughLastCaller(cm, n, k, v);
      }
    }
    if k1 :| DirectlyCalls(cm, k1, n) && AddedBy(cm, k1, n, k) {
      var w :| w in cm[k1] && w.func == n;
      EdgeOf(cm, k1, w);
      if k != k1 {
        var v :| v in cm[k] && (v.func == k1.func || Leads(g, v.func, k1.func));
        if v.func == k1.func {
          LeadsDirect(g, k1.func, n);
        } else {
          LeadsOn(g, v.func, k1.func, n);
        }
      }
    }
  }

  lemma ThroughLastCaller(cm: CallMap, n: Name, k: Node, v: Node)
    requires k in cm && v in cm[k] && v.func != n && Leads(GraphOf(cm), v.func, n)
    ensures exists k1 :: DirectlyCalls(cm, k1, n) && AddedBy(cm, k1, n, k)
  {
    var g := GraphOf(cm);
    var d: nat :| LeadsIn(g, v.func, n, d);
    LastCaller(g, v.func, n, d);
    var m := v.func;
    if (v.func, n) !in g {
      m :| m != n && (m, n) in g && Leads(g, v.func, m);
    }
    var k1, w :| k1 in cm && w in cm[k1] && k1.func == m && w.func == n;
    assert Calls(cm, k, m);
    assert DirectlyCalls(cm, k1, n) && AddedBy(cm, k1, n, k);
  }

  /**
   * getCalledNodes: walks the map in any order and recurses on every caller of another
   * name.  The rank is what makes the unguarded recursion end.
   */
  method GetCalledNodes(n: Name, cm: CallMap, cns: seq<Node>, ghost rank: Name -> nat) returns (out: seq<Node>)
    requires Ranked(GraphOf(cm), rank)
    ensures forall k :: k in out <==> k in cns || Calls(cm, k, n)
    decreases rank(n)
  {
    out := cns;
    var left := cm.Keys;
    while left != {}
      invariant left <= cm.Keys
      invariant forall k :: k in out <==>
                  k in cns || exists k1 :: k1 !in left && DirectlyCalls(cm, k1, n) && AddedBy(cm, k1, n, k)
      decreases left
    {
      var k1 :| k1 in left;
      ghost var before := out;
      out := VisitCaller(n, cm, k1, out, rank);
      left := left - {k1};
    }
    forall k ensures k in out <==> k in cns || Calls(cm, k, n) {
      SearchIsComplete(cm, n, k);
    }
  }

  /** The inner loop, over one call list. */
  method VisitCaller(n: Name, cm: CallMap, k1: Node, cns: seq<Node>, ghost rank: Name -> nat) returns (out: seq<Node>)
    requires k1 in cm && Ranked(GraphOf(cm), rank)
    ensures forall k :: k in out <==> k in cns || (DirectlyCalls(cm, k1, n) && AddedBy(cm, k1, n, k))
    decreases rank(n), 0
  {
    out := cns;
    var calls := cm[k1];
    for i := 0 to |calls|
      invariant forall k :: k in out <==>
                  k in cns || ((exists j :: 0 <= j < i && calls[j].func == n) && AddedBy(cm, k1, n, k))
    {
      if calls[i].func == n {
        out := out + [k1];
        if k1.func != n {
          EdgeOf(cm, k1, calls[i]);
          out := GetCalledNodes(k1.func, cm, out, rank);
        }
      }
    }
    assert DirectlyCalls(cm, k1, n) <==> exists j :: 0 <= j < |calls| && calls[j].func == n by {
      if DirectlyCalls(cm, k1, n) {
        var v :| v in calls && v.func == n;
      }
    }
  }

  /** hasCycleCall: is `callee` a transitive caller of `caller`, as names? */
  method HasCycleCall(caller: Name, callee: Name, cm: CallMap, ghost rank: Name -> nat) returns (r: bool)
    requires Ranked(GraphOf(cm), rank)
    ensures r == Leads(GraphOf(cm), callee, caller)
  {
    var cns := GetCalledNodes(caller, cm, [], rank);
    CallsIffLeads(cm, callee, caller);
    for i := 0 to |cns|
      invariant forall j :: 0 <= j < i ==> cns[j].func != callee
    {
      if cns[i].func == callee {
        assert Calls(cm, cns[i], caller);
        return true;
      }
    }
    return false;
  }

  // ----- one function, then all ------------------------------------------------------------

  datatype Visited = Visited(list: seq<Node>, reports: seq<Report>)

  /** checkRecursive: a reported call is not collected, nor are the calls inside it. */
  ghost function Visit(d: Decl, cm: CallMap, calls: seq<Call>): Visited
    decreases calls
  {
    if calls == [] then Visited([], [])
    else
      var callee, rest := calls[0].callee, Visit(d, cm, calls[1..]);
      var node := NodeOf(callee);
      if IsRecursive(d, callee) then Visited(rest.list, [Recursive(d.func)] + rest.reports)
      else if Leads(GraphOf(cm), node.func, d.func) then Visited(rest.list, [Cycle(d.func, node.func)] + rest.reports)
      else
        var inner := Visit(d, cm, calls[0].inner);
        Visited([node] + inner.list + rest.list, inner.reports + rest.reports)
  }

  datatype Checked = Checked(cm: CallMap, reports: seq<Report>)

  /** checkCycleCall: each function's list is stored under its key, replacing an earlier one. */
  ghost function Check(decls: seq<Decl>): Checked {
    if decls == [] then Checked(map[], [])
    else
      var c, d := Check(decls[..|decls| - 1]), decls[|decls| - 1];
      var v := Visit(d, c.cm, d.body);
      Checked(c.cm[KeyOf(d) := v.list], c.reports + v.reports)
  }

  method CheckRecursive(d: Decl, cm: CallMap, calls: seq<Call>, ghost rank: Name -> nat)
    returns (list: seq<Node>, reports: seq<Report>)
    requires Ranked(GraphOf(cm), rank)
    ensures Visited(list, reports) == Visit(d, cm, calls)
    decreases calls
  {
    if calls == [] {
      return [], [];
    }
    var callee := calls[0].callee;
    var node := NodeOf(callee);
    if IsRecursive(d, callee) {
      list, reports := CheckRecursive(d, cm, calls[1..], rank);
      return list, [Recursive(d.func)] + reports;
    }
    var cycle := HasCycleCall(d.func, node.func, cm, rank);
    if cycle {
      list, reports := CheckRecursive(d, cm, calls[1..], rank);
      return list, [Cycle(d.func, node.func)] + reports;
    }
    var innerList, innerReports := CheckRecursive(d, cm, calls[0].inner, rank);
    list, reports := CheckRecursive(d, cm, calls[1..], rank);
    return [node] + innerList + list, innerReports + reports;
  }

  /** The walk over all functions; that it ends is the point of the rank. */
  method CheckCycleCall(decls: seq<Decl>) returns (cm: CallMap, reports: seq<Report>)
    ensures Checked(cm, reports) == Check(decls)
    ensures NoCycle(GraphOf(cm))
  {
    cm, reports := map[], [];
    ghost var rank: Name -> nat := x => 0;
    for i := 0 to |decls|
      invariant Checked(cm, reports) == Check(decls[..i])
      invariant Ranked(GraphOf(cm), rank)
    {
      assert decls[..i + 1][..i] == decls[..i];
      var d := decls[i];
      var list, rs := CheckRecursive(d, cm, d.body, rank);
      rank := StoringKeepsRank(d, cm, rank);
      cm, reports := cm[KeyOf(d) := list], reports + rs;
    }
    assert decls[..|decls|] == decls;
    RankedHasNoCycle(GraphOf(cm), rank);
  }

  lemma {:induction false} VisitFacts(d: Decl, cm: CallMap, calls: seq<Call>)
    ensures var v := Visit(d, cm, calls);
            && (forall n :: n in v.list ==> n in Targets(calls) && !Leads(GraphOf(cm), n.func, d.func) && n.recv == "")
            && (v.reports == [] ==> v.list == Targets(calls))
            && (forall r :: r in v.reports ==> Grounded(d, cm, Targets(calls), r))
    decreases calls
  {
    if calls != [] {
      VisitFacts(d, cm, calls[0].inner);
      VisitFacts(d, cm, calls[1..]);
      var node, inner, rest := NodeOf(calls[0].callee), Targets(calls[0].inner), Targets(calls[1..]);
      var all := Targets(calls);
      assert all == [node] + inner + rest;
      assert node in all;
      forall r | Grounded(d, cm, inner, r) || Grounded(d, cm, rest, r) ensures Grounded(d, cm, all, r) {
        var n :| (n in inner || n in rest) && GroundedIn(d, cm, n, r);
        assert n in all;
      }
      if IsRecursive(d, calls[0].callee) {
        assert GroundedIn(d, cm, node, Recursive(d.func));
      } else if Leads(GraphOf(cm), node.func, d.func) {
        assert GroundedIn(d, cm, node, Cycle(d.func, node.func));
      }
    }
  }

  /** A report is about a call that is there. */
  ghost predicate GroundedIn(d: Decl, cm: CallMap, n: Node, r: Report) {
    match r
    case Recursive(f) => f == d.func && n.func == f
    case Cycle(a, b) => a == d.func && n.func == b && Leads(GraphOf(cm), b, a)
  }

  ghost predicate Grounded(d: Decl, cm: CallMap, targets: seq<Node>, r: Report) {
    exists n :: n in targets && GroundedIn(d, cm, n, r)
  }

  lemma StoringKeepsRank(d: Decl, cm: CallMap, rank: Name -> nat) returns (rank': Name -> nat)
    requires Ranked(GraphOf(cm), rank)
    ensures Ranked(GraphOf(cm[KeyOf(d) := Visit(d, cm, d.body).list]), rank')
  {
    VisitFacts(d, cm, d.body);
    var list := Visit(d, cm, d.body).list;
    var g, g' := GraphOf(cm), GraphOf(cm[KeyOf(d) := list]);
    forall a, b | (a, b) in g' ensures (a, b) in g || (a == d.func && !Leads(g, b, d.func)) {
      var k, v :| k in cm[KeyOf(d) := list] && v in cm[KeyOf(d) := list][k] && k.func == a && v.func == b;
      if k != KeyOf(d) {
        EdgeOf(cm, k, v);
      }
    }
    rank' := NewCallsKeepRank(g, g', rank, d.func);
  }

  // ----- what the reports mean ---------------------------------------------------------------

  /** One function name, and one receiver variable or none on both sides. */
  predicate SameKey(d: Decl, e: Decl) {
    d.func == e.func && (if d.hasRecv then d.recv else "") == (if e.hasRecv then e.recv else "")
  }

  predicate DistinctKeys(decls: seq<Decl>) {
    forall i, j :: 0 <= i < j < |decls| ==> !SameKey(decls[i], decls[j])
  }

  lemma {:induction false} CollectedGraph(decls: seq<Decl>)
    ensures GraphOf(Check(decls).cm) <= ProgramGraph(decls)
  {
    if decls != [] {
      var n := |decls| - 1;
      var c, d := Check(decls[..n]), decls[n];
      CollectedGraph(decls[..n]);
      VisitFacts(d, c.cm, d.body);
      ProgramGrows(decls, n);
      forall e | e in GraphOf(Check(decls).cm) ensures e in ProgramGraph(decls) {
        var cm := Check(decls).cm;
        var k: Node, v: Node :| k in cm && v in cm[k] && e == (k.func, v.func);
        if k != KeyOf(d) {
          EdgeOf(c.cm, k, v);
        } else {
          assert d in decls && v in Targets(d.body);
        }
      }
    }
  }

  lemma ProgramGrows(decls: seq<Decl>, n: nat)
    requires n <= |decls|
    ensures ProgramGraph(decls[..n]) <= ProgramGraph(decls)
  {
    forall e | e in ProgramGraph(decls[..n]) ensures e in ProgramGraph(decls) {
      var d, v :| d in decls[..n] && v in Targets(d.body) && e == (d.func, v.func);
      assert d in decls;
    }
  }

  /** After a silent check a list is as it was collected, unless its key was stored again. */
  lemma {:induction false} SilentCheckCollects(decls: seq<Decl>, i: nat)
    requires Check(decls).reports == [] && i < |decls|
    requires forall j :: i < j < |decls| ==> KeyOf(decls[j]) != KeyOf(decls[i])
    ensures KeyOf(decls[i]) in Check(decls).cm && Check(decls).cm[KeyOf(decls[i])] == Targets(decls[i].body)
  {
    hide Visit, Targets, KeyOf, Grounded;
    var n := |decls| - 1;
    var before := decls[..n];
    assert Visit(decls[n], Check(before).cm, decls[n].body).reports == [];
    if i == n {
      VisitFacts(decls[n], Check(before).cm, decls[n].body);
    } else {
      assert forall j :: 0 <= j < n ==> before[j] == decls[j];
      SilentCheckCollects(before, i);
    }
  }

  /** The collected calls never form a cycle through two or more names. */
  lemma {:induction false} CollectedHasNoCycle(decls: seq<Decl>) returns (rank: Name -> nat)
    ensures Ranked(GraphOf(Check(decls).cm), rank) && NoCycle(GraphOf(Check(decls).cm))
  {
    if decls == [] {
      rank := x => 0;
    } else {
      var n := |decls| - 1;
      rank := CollectedHasNoCycle(decls[..n]);
      rank := StoringKeepsRank(decls[n], Check(decls[..n]).cm, rank);
    }
    RankedHasNoCycle(GraphOf(Check(decls).cm), rank);
  }

  /** No function is followed by one of its key and, after that, by one of another name. */
  predicate Unshadowed(decls: seq<Decl>) {
    forall i, j, k :: 0 <= i < j < k < |decls| && SameKey(decls[i], decls[j]) ==> decls[k].func == decls[i].func
  }

  /** A call that the check has lost leaves the name of the function that follows. */
  lemma LostCalls(decls: seq<Decl>, n: nat, e: (Name, Name))
    requires n < |decls| && Unshadowed(decls) && Check(decls[..n]).reports == []
    requires e in ProgramGraph(decls[..n])
    ensures e in GraphOf(Check(decls[..n]).cm) || e.0 == decls[n].func
  {
    hide Check, Targets, GraphOf;
    var before := decls[..n];
    var d, v :| d in before && v in Targets(d.body) && e == (d.func, v.func);
    var i :| 0 <= i < n && before[i] == d;
    if j :| i < j < n && KeyOf(before[j]) == KeyOf(before[i]) {
      assert decls[i] == before[i] && decls[j] == before[j];
    } else {
      SilentCheckCollects(before, i);
      EdgeOf(Check(before).cm, KeyOf(d), v);
    }
  }

  /** What a silent step adds: calls to names that do not lead here, as far as collected. */
  lemma SilentCalls(decls: seq<Decl>, n: nat, a: Name, b: Name)
    requires n < |decls| && Check(decls[..n + 1]).reports == []
    requires (a, b) in ProgramGraph(decls[..n + 1]) && (a, b) !in ProgramGraph(decls[..n])
    ensures a == decls[n].func && !Leads(GraphOf(Check(decls[..n]).cm), b, a)
  {
    hide Visit, Targets, Grounded, Leads;
    var d, before, upTo := decls[n], decls[..n], decls[..n + 1];
    assert upTo == before + [d];
    CheckNext(decls, n);
    VisitFacts(d, Check(before).cm, d.body);
    hide Check;
    var c, v :| c in upTo && v in Targets(c.body) && a == c.func && b == v.func;
    assert c in before ==> (a, b) in ProgramGraph(before);
  }

  /** One more function about which nothing is reported closes no cycle. */
  lemma SilentStep(decls: seq<Decl>, n: nat, rank: Name -> nat) returns (rank': Name -> nat)
    requires n < |decls| && Unshadowed(decls) && Check(decls[..n]).reports == [] && Check(decls[..n + 1]).reports == []
    requires Ranked(ProgramGraph(decls[..n]), rank)
    ensures Ranked(ProgramGraph(decls[..n + 1]), rank')
  {
    hide Check, ProgramGraph, GraphOf, Unshadowed, Leads, Ranked;
    var f, before, upTo := decls[n].func, decls[..n], decls[..n + 1];
    var g, g', g'' := GraphOf(Check(before).cm), ProgramGraph(before), ProgramGraph(upTo);
    forall a, b | (a, b) in g' ensures (a, b) in g || a == f {
      LostCalls(decls, n, (a, b));
    }
    forall a, b | (a, b) in g'' && (a, b) !in g' && a != b ensures a == f && !Leads(g', b, f) {
      SilentCalls(decls, n, a, b);
      if Leads(g', b, f) {
        LeadsBySteps(g', b, f);
        var steps: nat :| LeadsIn(g', b, f, steps);
        LeadsWithout(g, g', b, f, f, steps);
      }
    }
    rank' := NewCallsKeepRank(g', g'', rank, f);
  }

  lemma LeadsBySteps(g: Graph, x: Name, n: Name)
    requires Leads(g, x, n)
    ensures exists d: nat :: LeadsIn(g, x, n, d)
  {
  }

  lemma SilentBefore(decls: seq<Decl>)
    requires decls != [] && Check(decls).reports == []
    ensures Check(decls[..|decls| - 1]).reports == []
  {
  }

  lemma {:induction false} SilentRank(decls: seq<Decl>) returns (rank: Name -> nat)
    requires Unshadowed(decls) && Check(decls).reports == []
    ensures Ranked(ProgramGraph(decls), rank)
  {
    if decls == [] {
      rank := x => 0;
    } else {
      hide Check, ProgramGraph, Ranked, SameKey;
      var n := |decls| - 1;
      SilentBefore(decls);
      assert forall i :: 0 <= i < n ==> decls[..n][i] == decls[i];
      rank := SilentRank(decls[..n]);
      assert decls[..n + 1] == decls;
      rank := SilentStep(decls, n, rank);
    }
  }

  /**
   * Where no function is shadowed, no report means that the program's call graph, by
   * names, has no cycle through two or more names; distinct keys are enough for that.
   */
  lemma SilenceMeansNoCycle(decls: seq<Decl>)
    requires Unshadowed(decls) || DistinctKeys(decls)
    requires Check(decls).reports == []
    ensures NoCycle(ProgramGraph(decls))
  {
    hide Check, ProgramGraph, NoCycle, Ranked;
    var rank := SilentRank(decls);
    RankedHasNoCycle(ProgramGraph(decls), rank);
  }

  /** Every report is true of the program: a call to itself, or a call that closes a walk. */
  ghost predicate Justified(g: Graph, r: Report) {
    match r
    case Recursive(f) => (f, f) in g
    case Cycle(a, b) => (a, b) in g && Leads(g, b, a)
  }

  lemma {:induction false} ReportsAreJustified(decls: seq<Decl>)
    ensures forall r :: r in Check(decls).reports ==> Justified(ProgramGraph(decls), r)
  {
    if decls != [] {
      var n := |decls| - 1;
      var c, d := Check(decls[..n]), decls[n];
      ReportsAreJustified(decls[..n]);
      ProgramGrows(decls, n);
      CollectedGraph(decls[..n]);
      VisitFacts(d, c.cm, d.body);
      forall r | r in Check(decls).reports ensures Justified(ProgramGraph(decls), r) {
        if r in c.reports {
          JustifiedGrows(ProgramGraph(decls[..n]), ProgramGraph(decls), r);
        } else {
          var t :| t in Targets(d.body) && GroundedIn(d, c.cm, t, r);
          assert d in decls && (d.func, t.func) in ProgramGraph(decls);
          if r.Cycle? {
            LeadsGrowsAll(GraphOf(c.cm), ProgramGraph(decls), r.callee, r.caller);
          }
        }
      }
    }
  }

  lemma LeadsGrowsAll(g: Graph, g': Graph, x: Name, n: Name)
    requires g <= g' && Leads(g, x, n)
    ensures Leads(g', x, n)
  {
    var d: nat :| LeadsIn(g, x, n, d);
    LeadsGrows(g, g', x, n, d);
  }

  lemma JustifiedGrows(g: Graph, g': Graph, r: Report)
    requires g <= g' && Justified(g, r)
    ensures Justified(g', r)
  {
    if r.Cycle? {
      LeadsGrowsAll(g, g', r.callee, r.caller);
    }
  }

  /** No false alarm: where there is a report the program has a closed walk. */
  lemma ReportMeansClosedWalk(decls: seq<Decl>)
    requires Check(decls).reports != []
    ensures ClosedWalk(ProgramGraph(decls))
  {
    ReportsAreJustified(decls);
    var g, r := ProgramGraph(decls), Check(decls).reports[0];
    assert Justified(g, r);
    match r {
      case Recursive(f) => assert Walk(g, [f, f]);
      case Cycle(a, b) =>
        LeadsOn(g, b, a, b);
        LeadsIffWalk(g, b, b);
    }
  }

  // ----- exactly what is reported ---------------------------------------------------------------

  /** A call of the function by itself: plainly without a receiver, or through its named receiver. */
  predicate CallsItself(d: Decl, c: Callee) {
    if d.hasRecv then d.recv != "" && c == Member(d.recv, d.func) else c == Plain(d.func)
  }

  /** The name under which a call is compared. */
  function CalledName(c: Callee): Name {
    if c.Plain? then c.name else if c.Member? then c.sel else ""
  }

  /** The name called leads back to the function, by the calls collected so far. */
  ghost predicate LeadsBack(d: Decl, cm: CallMap, c: Callee) {
    Leads(GraphOf(cm), CalledName(c), d.func)
  }

  /** The calls the walk comes to: nothing inside a call to itself or a call that leads back. */
  ghost function Reached(d: Decl, cm: CallMap, calls: seq<Call>): seq<Callee>
    decreases calls
  {
    if calls == [] then []
    else
      var c := calls[0].callee;
      [c] + (if CallsItself(d, c) || LeadsBack(d, cm, c) then [] else Reached(d, cm, calls[0].inner))
          + Reached(d, cm, calls[1..])
  }

  /** All calls, nested ones included. */
  function AllCallees(calls: seq<Call>): seq<Callee>
    decreases calls
  {
    if calls == [] then [] else [calls[0].callee] + AllCallees(calls[0].inner) + AllCallees(calls[1..])
  }

  /** What is to be reported of one reached call. */
  ghost predicate Reportable(d: Decl, cm: CallMap, c: Callee, r: Report) {
    match r
    case Recursive(f) => f == d.func && CallsItself(d, c)
    case Cycle(a, b) => a == d.func && b == CalledName(c) && !CallsItself(d, c) && LeadsBack(d, cm, c)
  }

  ghost predicate SomeReportable(d: Decl, cm: CallMap, cs: seq<Callee>, r: Report) {
    exists c :: c in cs && Reportable(d, cm, c, r)
  }

  lemma SomeOfThree(d: Decl, cm: CallMap, c: Callee, inner: seq<Callee>, rest: seq<Callee>, r: Report)
    ensures SomeReportable(d, cm, [c] + inner + rest, r)
       <==> Reportable(d, cm, c, r) || SomeReportable(d, cm, inner, r) || SomeReportable(d, cm, rest, r)
  {
    hide Reportable;
    assert forall x :: x in [c] + inner + rest <==> x == c || x in inner || x in rest;
  }

  lemma {:induction false} VisitReports(d: Decl, cm: CallMap, calls: seq<Call>, r: Report)
    ensures r in Visit(d, cm, calls).reports <==> SomeReportable(d, cm, Reached(d, cm, calls), r)
    decreases calls
  {
    hide Leads, GraphOf, SomeReportable;
    if calls == [] {
      NoneReportable(d, cm, r);
    } else {
      var c, rest := calls[0].callee, Reached(d, cm, calls[1..]);
      VisitReports(d, cm, calls[1..], r);
      if CallsItself(d, c) || LeadsBack(d, cm, c) {
        NoneReportable(d, cm, r);
        SomeOfThree(d, cm, c, [], rest, r);
      } else {
        VisitReports(d, cm, calls[0].inner, r);
        SomeOfThree(d, cm, c, Reached(d, cm, calls[0].inner), rest, r);
      }
    }
  }

  lemma NoneReportable(d: Decl, cm: CallMap, r: Report)
    ensures !SomeReportable(d, cm, [], r)
  {
  }

  /**
   * A report is made exactly if some function has a reached call that calls for it: the
   * function itself, or a name that leads back to it by the calls collected before.
   */
  lemma {:induction false} ReportedIff(decls: seq<Decl>, r: Report)
    ensures r in Check(decls).reports
       <==> exists i :: 0 <= i < |decls| && ReportedAt(decls, i, r)
  {
    hide Visit, Reached, SomeReportable;
    if decls != [] {
      var n := |decls| - 1;
      var before := decls[..n];
      ReportedIff(before, r);
      VisitReports(decls[n], Check(before).cm, decls[n].body, r);
      forall i | 0 <= i < n ensures ReportedAt(before, i, r) <==> ReportedAt(decls, i, r) {
        assert before[..i] == decls[..i];
      }
      assert r in Check(decls).reports <==> r in Check(before).reports || ReportedAt(decls, n, r);
    }
  }

  ghost predicate ReportedAt(decls: seq<Decl>, i: nat, r: Report)
    requires i < |decls|
  {
    var d, cm := decls[i], Check(decls[..i]).cm;
    SomeReportable(d, cm, Reached(d, cm, d.body), r)
  }

  lemma {:induction false} SilentReachesAll(d: Decl, cm: CallMap, calls: seq<Call>)
    requires Visit(d, cm, calls).reports == []
    ensures Reached(d, cm, calls) == AllCallees(calls)
    ensures forall c :: c in AllCallees(calls) ==> !CallsItself(d, c) && !LeadsBack(d, cm, c)
    decreases calls
  {
    hide Leads, GraphOf;
    if calls != [] {
      SilentReachesAll(d, cm, calls[0].inner);
      SilentReachesAll(d, cm, calls[1..]);
    }
  }

  /** Without a report no function calls itself anywhere in its body. */
  lemma {:induction false} SilenceMeansNoRecursion(decls: seq<Decl>)
    requires Check(decls).reports == []
    ensures forall d, c :: d in decls && c in AllCallees(d.body) ==> !CallsItself(d, c)
  {
    hide Visit, AllCallees, CallsItself;
    if decls != [] {
      var n := |decls| - 1;
      assert decls == decls[..n] + [decls[n]];
      SilenceMeansNoRecursion(decls[..n]);
      SilentReachesAll(decls[n], Check(decls[..n]).cm, decls[n].body);
    }
  }

  // ----- and only then ------------------------------------------------------------------------

  /** The functions with other bodies: two call each other, and the rest call nothing. */
  function MutualCalls(decls: seq<Decl>, i: nat, k: nat): (r: seq<Decl>)
    requires i < |decls| && k < |decls|
    ensures |r| == |decls|
  {
    seq(|decls|, x requires 0 <= x < |decls| =>
      decls[x].(body := if x == i then [Call(Plain(decls[k].func), [])]
                        else if x == k then [Call(Plain(decls[i].func), [])]
                        else []))
  }

  lemma NothingLeads(g: Graph, x: Name, n: Name)
    requires g == {}
    ensures !Leads(g, x, n)
  {
    forall d: nat ensures !LeadsIn(g, x, n, d) {
    }
  }

  lemma CheckNext(decls: seq<Decl>, n: nat)
    requires n < |decls|
    ensures var c, d := Check(decls[..n]), decls[n];
            var v := Visit(d, c.cm, d.body);
            Check(decls[..n + 1]) == Checked(c.cm[KeyOf(d) := v.list], c.reports + v.reports)
  {
    assert decls[..n + 1][..n] == decls[..n];
  }

  /** A single call to another name, before any call was collected. */
  lemma LoneCall(d: Decl, cm: CallMap, name: Name)
    requires d.body == [Call(Plain(name), [])] && d.func != name && GraphOf(cm) == {}
    ensures Visit(d, cm, d.body) == Visited([Node("", name)], [])
  {
    NothingLeads(GraphOf(cm), name, d.func);
    LoneTarget(name);
    assert d.body[1..] == [] && Visit(d, cm, []) == Visited([], []);
    assert Visited([Node("", name)] + [] + [], [] + []) == Visited([Node("", name)], []);
  }

  lemma LoneTarget(name: Name)
    ensures Targets([Call(Plain(name), [])]) == [Node("", name)]
  {
    var calls := [Call(Plain(name), [])];
    assert calls[1..] == [] && Targets([]) == [];
  }

  /** Every list collected is empty, except one. */
  predicate EmptyBut(cm: CallMap, kept: set<Node>) {
    forall n :: n in cm && n !in kept ==> cm[n] == []
  }

  /** On the way to function k nothing is reported, and the only call is replaced at j. */
  lemma {:induction false} QuietUpTo(decls: seq<Decl>, i: nat, j: nat, k: nat, n: nat)
    requires i < j < k < |decls| && n <= k
    requires KeyOf(decls[i]) == KeyOf(decls[j]) && decls[k].func != decls[i].func
    ensures var c := Check(MutualCalls(decls, i, k)[..n]);
            c.reports == [] && EmptyBut(c.cm, if i < n <= j then {KeyOf(decls[i])} else {})
    decreases n
  {
    hide Check, Visit;
    var ds := MutualCalls(decls, i, k);
    if n == 0 {
      EmptyCheck(ds[0], map[]);
      assert ds[..0] == [];
    } else {
      QuietUpTo(decls, i, j, k, n - 1);
      CheckNext(ds, n - 1);
      var cm := Check(ds[..n - 1]).cm;
      if n - 1 == i {
        LoneCall(ds[i], cm, decls[k].func);
      } else {
        EmptyCheck(ds[n - 1], cm);
      }
    }
  }

  /** The rest of the functions call nothing and are not reported. */
  lemma {:induction false} QuietAfter(decls: seq<Decl>, i: nat, j: nat, k: nat, n: nat)
    requires i < j < k < n <= |decls|
    requires KeyOf(decls[i]) == KeyOf(decls[j]) && decls[k].func != decls[i].func
    ensures Check(MutualCalls(decls, i, k)[..n]).reports == []
    decreases n
  {
    hide Check, Visit;
    var ds := MutualCalls(decls, i, k);
    CheckNext(ds, n - 1);
    var cm := Check(ds[..n - 1]).cm;
    if n == k + 1 {
      QuietUpTo(decls, i, j, k, k);
      LoneCall(ds[k], cm, decls[i].func);
    } else {
      QuietAfter(decls, i, j, k, n - 1);
      EmptyCheck(ds[n - 1], cm);
    }
  }

  lemma EmptyCheck(d: Decl, cm: CallMap)
    ensures Check([]) == Checked(map[], []) && Visit(d, cm, []) == Visited([], [])
  {
  }

  /**
   * Wherever a function is shadowed, there are bodies for the same functions with which a
   * cycle goes unreported: the first calls the third, whose call back is checked after the
   * second has replaced the first's list.
   */
  lemma SharedKeyHidesCycle(decls: seq<Decl>, i: nat, j: nat, k: nat)
    requires i < j < k < |decls|
    requires SameKey(decls[i], decls[j]) && decls[k].func != decls[i].func
    ensures Check(MutualCalls(decls, i, k)).reports == [] && !NoCycle(ProgramGraph(MutualCalls(decls, i, k)))
  {
    hide Check, Targets;
    var ds := MutualCalls(decls, i, k);
    QuietAfter(decls, i, j, k, |decls|);
    assert ds[..|decls|] == ds;
    var g, a, b := ProgramGraph(ds), decls[i].func, decls[k].func;
    LoneTarget(a);
    LoneTarget(b);
    assert ds[i] in ds && ds[k] in ds;
    assert Node("", b) in Targets(ds[i].body) && Node("", a) in Targets(ds[k].body);
    assert (a, b) in g && (b, a) in g;
    var p := [a, b, a];
    assert Walk(g, p) && p[1] != p[0];
  }

  /** The same functions in the same order, whatever their bodies. */
  predicate SameSignatures(a: seq<Decl>, b: seq<Decl>) {
    |a| == |b| && forall i :: 0 <= i < |a| ==> a[i].(body := []) == b[i].(body := [])
  }

  /**
   * Silence can be relied on, whatever the bodies are, exactly if no function is shadowed.
   */
  lemma SilenceIsSoundIff(decls: seq<Decl>)
    ensures (forall ds :: SameSignatures(ds, decls) && Check(ds).reports == [] ==> NoCycle(ProgramGraph(ds)))
       <==> Unshadowed(decls)
  {
    hide Check, NoCycle, ProgramGraph, SameKey, MutualCalls, SameSignatures;
    if Unshadowed(decls) {
      forall ds | SameSignatures(ds, decls) && Check(ds).reports == [] ensures NoCycle(ProgramGraph(ds)) {
        SameShadows(ds, decls);
        SilenceMeansNoCycle(ds);
      }
    } else {
      var i, j, k :| 0 <= i < j < k < |decls| && SameKey(decls[i], decls[j]) && decls[k].func != decls[i].func;
      SharedKeyHidesCycle(decls, i, j, k);
      MutualSignatures(decls, i, k);
    }
  }

  lemma MutualSignatures(decls: seq<Decl>, i: nat, k: nat)
    requires i < |decls| && k < |decls|
    ensures SameSignatures(MutualCalls(decls, i, k), decls)
  {
  }

  lemma SameShadows(a: seq<Decl>, b: seq<Decl>)
    requires SameSignatures(a, b) && Unshadowed(b)
    ensures Unshadowed(a)
  {
    assert forall i, j :: 0 <= i < |a| && 0 <= j < |a| ==> (SameKey(a[i], a[j]) <==> SameKey(b[i], b[j]));
  }
}
