/** solver.py: labelling the tile graph as a SAT problem.  Every node owns
    `bitcount` consecutive variables that spell its value in binary; every
    banned (from-value, to-value) pair of an edge's direction becomes one
    clause that the two spellings must not both satisfy. */
module Labeling {

  import opened Bits
  import Sets
  import opened Cnf
  import opened TileGraph
  import opened Geometry

  /** (from-value, to-value). */
  type Pair = (int, int)

  predicate InRange(p: Pair, bitcount: nat)
  {
    0 <= p.0 < Pow2(bitcount) && 0 <= p.1 < Pow2(bitcount)
  }

  /** `constraints_by_dir[d]` of a `defaultdict(set)`: empty when absent. */
  function Lookup(constraints: map<Dir, set<Pair>>, d: Dir): set<Pair>
  {
    if d in constraints then constraints[d] else {}
  }

  /** `invert_constraints(constraints_by_dir, bitcount)`: for N and E, every
      pair of labels that is not allowed.  Allowed pairs under S or W play no
      part. */
  function InvertConstraints(allowed: map<Dir, set<Pair>>, bitcount: nat): (banned: map<Dir, set<Pair>>)
    ensures banned.Keys == {N, E}
    ensures forall d, p :: d in banned ==> (p in banned[d] <==> InRange(p, bitcount) && p !in Lookup(allowed, d))
  {
    var labels := Below(Pow2(bitcount));
    var all := set a, b | a in labels && b in labels :: (a, b);
    assert forall p: Pair :: InRange(p, bitcount) ==> p.0 in labels && p.1 in labels && p == (p.0, p.1);
    map d | d in {N, E} :: all - Lookup(allowed, d)
  }

  /** Inverting twice keeps exactly the allowed pairs of labels under N and E. */
  lemma InvertTwice(allowed: map<Dir, set<Pair>>, bitcount: nat)
    ensures var twice := InvertConstraints(InvertConstraints(allowed, bitcount), bitcount);
      && twice.Keys == {N, E}
      && forall d, p :: d in twice ==> (p in twice[d] <==> InRange(p, bitcount) && p in Lookup(allowed, d))
  {
  }

  // ---------------------------------------------------------------------
  // Variables (lines 61-66)

  /** Lines 62-66: the i-th node in iteration order gets the variables
      1 + i * bitcount .. (i + 1) * bitcount. */
  method AssignKeys(nodes: seq<int>, bitcount: nat) returns (keys: map<int, int>)
    requires forall i, j :: 0 <= i < j < |nodes| ==> nodes[i] != nodes[j]
    ensures forall n :: n in keys <==> n in nodes
    ensures forall i :: 0 <= i < |nodes| ==> nodes[i] in keys && keys[nodes[i]] == 1 + i * bitcount
  {
    keys := map[];
    var current := 1;
    for i := 0 to |nodes|
      invariant forall n :: n in keys <==> n in nodes[..i]
      invariant forall j :: 0 <= j < i ==> nodes[j] in keys && keys[nodes[j]] == 1 + j * bitcount
      invariant current == 1 + i * bitcount
    {
      keys := keys[nodes[i] := current];
      current := current + bitcount;
      assert nodes[..i + 1] == nodes[..i] + [nodes[i]];
    }
    assert nodes[..|nodes|] == nodes;
  }

  /** Each node owns the variables key .. key + bitcount - 1, all positive,
      and no two nodes share one. */
  ghost predicate OwnRanges(keys: map<int, int>, bitcount: nat)
  {
    && (forall n :: n in keys ==> keys[n] >= 1)
    && (forall m, n :: m in keys && n in keys && m != n ==>
          keys[m] + bitcount <= keys[n] || keys[n] + bitcount <= keys[m])
  }

  lemma KeysOwnRanges(nodes: seq<int>, keys: map<int, int>, bitcount: nat)
    requires forall n :: n in keys <==> n in nodes
    requires forall i :: 0 <= i < |nodes| ==> nodes[i] in keys && keys[nodes[i]] == 1 + i * bitcount
    ensures OwnRanges(keys, bitcount)
  {
    forall n | n in keys
      ensures keys[n] >= 1
    {
      var i :| 0 <= i < |nodes| && nodes[i] == n;
      MulMono(i, 0, bitcount);
    }
    forall m, n | m in keys && n in keys && m != n
      ensures keys[m] + bitcount <= keys[n] || keys[n] + bitcount <= keys[m]
    {
      var i :| 0 <= i < |nodes| && nodes[i] == m;
      var j :| 0 <= j < |nodes| && nodes[j] == n;
      if i < j {
        MulMono(j, i + 1, bitcount);
        MulSucc(i, bitcount);
      } else {
        MulMono(i, j + 1, bitcount);
        MulSucc(j, bitcount);
      }
    }
  }

  // ---------------------------------------------------------------------
  // Clauses (lines 73-76) and what they mean

  /** Variable v with the sign of a bit: negated when the bit is 1. */
  function Literal(v: int, bit: bool): int
  {
    if bit then -v else v
  }

  /** Lines 74-75: the clause banning `pair` across an edge, over the from
      node's variables and then the to node's. */
  function Clause(keyFrom: int, keyTo: int, pair: Pair, bitcount: nat): seq<int>
  {
    seq(bitcount, i requires 0 <= i < bitcount => Literal(keyFrom + i, Bit(pair.0, i)))
    + seq(bitcount, i requires 0 <= i < bitcount => Literal(keyTo + i, Bit(pair.1, i)))
  }

  /** The true variables `a` spell `value` on the variables from `key` on. */
  ghost predicate Spells(a: set<int>, key: int, value: int, bitcount: nat)
  {
    forall i: nat :: i < bitcount ==> (key + i in a <==> Bit(value, i))
  }

  /** An assignment falsifies a ban clause exactly when the from node's
      variables spell the pair's first value and the to node's its second. */
  lemma BanClauseMeaning(a: set<int>, keyFrom: int, keyTo: int, pair: Pair, bitcount: nat)
    requires keyFrom >= 1 && keyTo >= 1
    ensures |Clause(keyFrom, keyTo, pair, bitcount)| == 2 * bitcount
    ensures !SatisfiesClause(a, Clause(keyFrom, keyTo, pair, bitcount)) <==>
              Spells(a, keyFrom, pair.0, bitcount) && Spells(a, keyTo, pair.1, bitcount)
  {
    var clause := Clause(keyFrom, keyTo, pair, bitcount);
    if SatisfiesClause(a, clause) {
      var lit :| lit in clause && LiteralTrue(a, lit);
      var k :| 0 <= k < |clause| && clause[k] == lit;
      if k < bitcount {
        assert !(keyFrom + k in a <==> Bit(pair.0, k));
      } else {
        var i: nat := k - bitcount;
        assert !(keyTo + i in a <==> Bit(pair.1, i));
      }
    } else {
      forall i: nat | i < bitcount
        ensures keyFrom + i in a <==> Bit(pair.0, i)
        ensures keyTo + i in a <==> Bit(pair.1, i)
      {
        assert !LiteralTrue(a, clause[i]);
        assert !LiteralTrue(a, clause[bitcount + i]);
      }
    }
  }

  /** The value the variables from `key` on spell, lowest bit first: the sum
      of 2**i over the bits i < bitcount whose variable is true. */
  function LabelIn(a: set<int>, key: int, bitcount: nat): nat
    decreases bitcount
  {
    if bitcount == 0 then 0
    else (if key in a then 1 else 0) + 2 * LabelIn(a, key + 1, bitcount - 1)
  }

  /** Putting one variable's bit below a spelled value spells the doubled
      value plus that bit, one variable further down. */
  lemma SpellsShift(a: set<int>, key: int, low: int, q: int, bitcount: nat)
    requires bitcount > 0 && (low == if key in a then 1 else 0)
    requires Spells(a, key + 1, q, bitcount - 1)
    ensures Spells(a, key, low + 2 * q, bitcount)
  {
    var v := low + 2 * q;
    Halve(low, q);
    forall i: nat | i < bitcount
      ensures key + i in a <==> Bit(v, i)
    {
      if i > 0 {
        var j: nat := i - 1;
        assert key + i == (key + 1) + j;
        assert Bit(v, i) == Bit(q, j);
      }
    }
  }

  /** The decoded value is a label, and the variables spell it. */
  lemma {:induction false} LabelInSpelled(a: set<int>, key: int, bitcount: nat)
    ensures LabelIn(a, key, bitcount) < Pow2(bitcount)
    ensures Spells(a, key, LabelIn(a, key, bitcount), bitcount)
    decreases bitcount
  {
    if bitcount > 0 {
      var low := if key in a then 1 else 0;
      LabelInSpelled(a, key + 1, bitcount - 1);
      SpellsShift(a, key, low, LabelIn(a, key + 1, bitcount - 1), bitcount);
    }
  }

  /** Variables spelling a label decode to that label. */
  lemma SpelledLabelIn(a: set<int>, key: int, value: int, bitcount: nat)
    requires 0 <= value < Pow2(bitcount)
    requires Spells(a, key, value, bitcount)
    ensures LabelIn(a, key, bitcount) == value
  {
    var decoded := LabelIn(a, key, bitcount);
    LabelInSpelled(a, key, bitcount);
    forall i: nat
      ensures Bit(decoded, i) == Bit(value, i)
    {
      if i >= bitcount {
        HighBitsClear(value, bitcount, i);
        HighBitsClear(decoded, bitcount, i);
      }
    }
    BitsEqual(decoded, value);
  }

  /** With a value for every node, an assignment falsifies a ban clause
      exactly when the two decoded labels are the banned pair. */
  lemma BanClauseDecoded(a: set<int>, keyFrom: int, keyTo: int, pair: Pair, bitcount: nat)
    requires keyFrom >= 1 && keyTo >= 1 && InRange(pair, bitcount)
    ensures !SatisfiesClause(a, Clause(keyFrom, keyTo, pair, bitcount)) <==>
              (LabelIn(a, keyFrom, bitcount), LabelIn(a, keyTo, bitcount)) == pair
  {
    BanClauseMeaning(a, keyFrom, keyTo, pair, bitcount);
    LabelInSpelled(a, keyFrom, bitcount);
    LabelInSpelled(a, keyTo, bitcount);
    if Spells(a, keyFrom, pair.0, bitcount) && Spells(a, keyTo, pair.1, bitcount) {
      SpelledLabelIn(a, keyFrom, pair.0, bitcount);
      SpelledLabelIn(a, keyTo, pair.1, bitcount);
    }
  }

  // ---------------------------------------------------------------------
  // The clause list (lines 68-76)

  /** An entry of `edges_by_node[from]`: (direction, target). */
  type Arc = (Dir, int)

  /** `edges_by_node`: each source node's set of arcs. */
  type Graph = map<int, set<Arc>>

  /** Line 75 looks up the key of the target of every edge with a banned pair
      in its direction, so each such target must also be a source. */
  predicate TargetsAreSources(graph: Graph, banned: map<Dir, set<Pair>>)
  {
    forall n, e :: n in graph && e in graph[n] && e.0 in banned && banned[e.0] != {} ==> e.1 in graph
  }

  /** Lines 55-59: the edge list grouped by source node. */
  function GraphOf(edges: seq<Edge>): (graph: Graph)
    ensures forall n :: n in graph <==> exists e :: e in edges && e.from == n
    ensures forall n, arc :: n in graph ==> (arc in graph[n] <==> Edge(n, arc.0, arc.1) in edges)
  {
    var sources := set e | e in edges :: e.from;
    var graph := map n | n in sources :: set e | e in edges && e.from == n :: (e.dir, e.to);
    assert forall n, arc: Arc :: n in graph && Edge(n, arc.0, arc.1) in edges ==> arc in graph[n];
    graph
  }

  /** When every target in the edge list is also a source, every target of the
      grouped graph is a source. */
  lemma ClosedGraphTargets(edges: seq<Edge>, banned: map<Dir, set<Pair>>)
    requires forall e :: e in edges ==> exists f :: f in edges && f.from == e.to
    ensures TargetsAreSources(GraphOf(edges), banned)
  {
    var graph := GraphOf(edges);
    forall n, arc: Arc | n in graph && arc in graph[n]
      ensures arc.1 in graph
    {
      var e := Edge(n, arc.0, arc.1);
      assert e in edges;
      var f :| f in edges && f.from == e.to;
    }
  }

  /** The edges tile2graph.py writes for any tile sets form a graph whose
      every target is a source, so line 75 always finds a key. */
  lemma TileGraphTargets(vtiles: seq<set<Point>>, htiles: seq<set<Point>>, width: nat, height: int,
                         banned: map<Dir, set<Pair>>)
    requires AllNatural(vtiles) && AllNatural(htiles)
    ensures TargetsAreSources(GraphOf(VerticalEdges(vtiles, width, height) + HorizontalEdges(htiles, width)), banned)
  {
    EdgesReverseClosed(vtiles, htiles, width, height);
    ClosedGraphTargets(VerticalEdges(vtiles, width, height) + HorizontalEdges(htiles, width), banned);
  }

  predicate Distinct<T(==)>(xs: seq<T>)
  {
    forall i, j :: 0 <= i < j < |xs| ==> xs[i] != xs[j]
  }

  /** Why a clause is in the list: the edge from `from` in direction `dir` to
      `to`, and the pair of labels it bans there. */
  datatype Ban = Ban(from: int, dir: Dir, to: int, pair: Pair)

  /** Lines 69-76 write a clause for exactly these: an edge of the graph whose
      direction has an entry, and a pair under that entry. */
  ghost predicate Called(b: Ban, graph: Graph, banned: map<Dir, set<Pair>>)
  {
    b.from in graph && (b.dir, b.to) in graph[b.from] && b.dir in banned && b.pair in banned[b.dir]
  }

  /** Clause i is the clause of ban i, over the two nodes' variables. */
  ghost predicate Written(clauses: seq<seq<int>>, bans: seq<Ban>, keys: map<int, int>, bitcount: nat)
  {
    && |clauses| == |bans|
    && forall i :: 0 <= i < |bans| ==>
         && bans[i].from in keys && bans[i].to in keys
         && clauses[i] == Clause(keys[bans[i].from], keys[bans[i].to], bans[i].pair, bitcount)
  }

  /** How many clauses an edge gets: the banned pairs of its direction. */
  function EdgeWeight(banned: map<Dir, set<Pair>>): Arc -> nat
  {
    (e: Arc) => if e.0 in banned then |banned[e.0]| else 0
  }

  /** How many clauses a source node gets: the sum over its edges. */
  ghost function NodeWeight(graph: Graph, banned: map<Dir, set<Pair>>): int -> nat
  {
    n => if n in graph then Sets.SumOf(graph[n], EdgeWeight(banned)) else 0
  }

  lemma WrittenAppend(c1: seq<seq<int>>, b1: seq<Ban>, c2: seq<seq<int>>, b2: seq<Ban>, keys: map<int, int>, bitcount: nat)
    requires Written(c1, b1, keys, bitcount) && Written(c2, b2, keys, bitcount)
    ensures Written(c1 + c2, b1 + b2, keys, bitcount)
  {
    forall i | 0 <= i < |b1 + b2|
      ensures (b1 + b2)[i].from in keys && (b1 + b2)[i].to in keys
      ensures (c1 + c2)[i] == Clause(keys[(b1 + b2)[i].from], keys[(b1 + b2)[i].to], (b1 + b2)[i].pair, bitcount)
    {
      if i >= |b1| {
        assert (b1 + b2)[i] == b2[i - |b1|] && (c1 + c2)[i] == c2[i - |c1|];
      }
    }
  }

  lemma DistinctAppend<T>(xs: seq<T>, ys: seq<T>)
    requires Distinct(xs) && Distinct(ys)
    requires forall x :: x in xs ==> x !in ys
    ensures Distinct(xs + ys)
  {
    forall i, j | 0 <= i < j < |xs + ys|
      ensures (xs + ys)[i] != (xs + ys)[j]
    {
      if i < |xs| && j >= |xs| {
        assert (xs + ys)[j] == ys[j - |xs|];
        assert (xs + ys)[i] in xs;
      } else if i >= |xs| {
        assert (xs + ys)[i] == ys[i - |xs|] && (xs + ys)[j] == ys[j - |xs|];
      }
    }
  }

  /** Lines 73-76 for one edge: one clause per banned pair of its direction. */
  method EdgeClauses(from: int, dir: Dir, to: int, pairs: set<Pair>, keys: map<int, int>, bitcount: nat)
    returns (clauses: seq<seq<int>>, ghost bans: seq<Ban>)
    requires from in keys && to in keys
    ensures Written(clauses, bans, keys, bitcount) && Distinct(bans)
    ensures |clauses| == |pairs|
    ensures forall b :: b in bans <==> b.from == from && b.dir == dir && b.to == to && b.pair in pairs
  {
    var ps := Sets.Enumerate(pairs);
    clauses, bans := [], [];
    for k := 0 to |ps|
      invariant Written(clauses, bans, keys, bitcount)
      invariant |bans| == k
      invariant forall j :: 0 <= j < k ==> bans[j] == Ban(from, dir, to, ps[j])
    {
      clauses := clauses + [Clause(keys[from], keys[to], ps[k], bitcount)];
      bans := bans + [Ban(from, dir, to, ps[k])];
    }
    forall b: Ban | b.from == from && b.dir == dir && b.to == to && b.pair in pairs
      ensures b in bans
    {
      var j :| 0 <= j < |ps| && ps[j] == b.pair;
      assert bans[j] == b;
    }
  }

  /** The bans written so far for `from`: those of the edges in `done`. */
  ghost predicate BansOf(bans: seq<Ban>, from: int, done: set<Arc>, banned: map<Dir, set<Pair>>)
  {
    forall b :: b in bans <==>
      b.from == from && (b.dir, b.to) in done && b.dir in banned && b.pair in banned[b.dir]
  }

  /** Appending one edge's clauses keeps the list written, distinct and
      accounted for. */
  lemma NodeStep(clauses: seq<seq<int>>, bans: seq<Ban>, cls: seq<seq<int>>, bs: seq<Ban>,
                 from: int, e: Arc, done: set<Arc>,
                 banned: map<Dir, set<Pair>>, keys: map<int, int>, bitcount: nat)
    requires Written(clauses, bans, keys, bitcount) && Distinct(bans)
    requires BansOf(bans, from, done, banned) && e !in done
    requires Written(cls, bs, keys, bitcount) && Distinct(bs)
    requires forall b :: b in bs <==>
               b.from == from && b.dir == e.0 && b.to == e.1 && e.0 in banned && b.pair in banned[e.0]
    ensures Written(clauses + cls, bans + bs, keys, bitcount) && Distinct(bans + bs)
    ensures BansOf(bans + bs, from, done + {e}, banned)
  {
    WrittenAppend(clauses, bans, cls, bs, keys, bitcount);
    DistinctAppend(bans, bs);
  }

  /** Lines 70-76 for one source node: its edges in some order, skipping
      those whose direction has no entry (lines 71-72) or an empty one (the
      loop of line 73 then writes nothing). */
  method NodeClauses(from: int, graph: Graph, banned: map<Dir, set<Pair>>, keys: map<int, int>, bitcount: nat)
    returns (clauses: seq<seq<int>>, ghost bans: seq<Ban>)
    requires from in graph && graph.Keys == keys.Keys
    requires TargetsAreSources(graph, banned)
    ensures Written(clauses, bans, keys, bitcount) && Distinct(bans)
    ensures |clauses| == Sets.SumOf(graph[from], EdgeWeight(banned))
    ensures BansOf(bans, from, graph[from], banned)
  {
    var edges := Sets.Enumerate(graph[from]);
    clauses, bans := [], [];
    ghost var done: set<Arc> := {};
    for k := 0 to |edges|
      invariant forall e :: e in done <==> e in edges[..k]
      invariant Written(clauses, bans, keys, bitcount) && Distinct(bans)
      invariant |clauses| == Sets.SumOf(done, EdgeWeight(banned))
      invariant BansOf(bans, from, done, banned)
    {
      var e := edges[k];
      assert e !in done;
      var cls: seq<seq<int>>;
      ghost var bs: seq<Ban>;
      if e.0 in banned && banned[e.0] != {} {
        cls, bs := EdgeClauses(from, e.0, e.1, banned[e.0], keys, bitcount);
      } else {
        cls, bs := [], [];
      }
      NodeStep(clauses, bans, cls, bs, from, e, done, banned, keys, bitcount);
      Sets.SumOfAdd(done, EdgeWeight(banned), e);
      clauses, bans := clauses + cls, bans + bs;
      done := done + {e};
      assert edges[..k + 1] == edges[..k] + [e];
    }
    assert edges[..|edges|] == edges;
    assert done == graph[from];
  }

  /** The bans written so far: those of the source nodes in `done`. */
  ghost predicate BansFrom(bans: seq<Ban>, done: set<int>, graph: Graph, banned: map<Dir, set<Pair>>)
  {
    forall b :: b in bans <==> b.from in done && Called(b, graph, banned)
  }

  /** Appending one source node's clauses keeps the list written, distinct
      and accounted for. */
  lemma GraphStep(clauses: seq<seq<int>>, bans: seq<Ban>, cls: seq<seq<int>>, bs: seq<Ban>,
                  from: int, done: set<int>, graph: Graph,
                  banned: map<Dir, set<Pair>>, keys: map<int, int>, bitcount: nat)
    requires from in graph && from !in done
    requires Written(clauses, bans, keys, bitcount) && Distinct(bans)
    requires BansFrom(bans, done, graph, banned)
    requires Written(cls, bs, keys, bitcount) && Distinct(bs)
    requires BansOf(bs, from, graph[from], banned)
    ensures Written(clauses + cls, bans + bs, keys, bitcount) && Distinct(bans + bs)
    ensures BansFrom(bans + bs, done + {from}, graph, banned)
  {
    WrittenAppend(clauses, bans, cls, bs, keys, bitcount);
    DistinctAppend(bans, bs);
  }

  /** Lines 68-76: the clause list, source node by source node.  It holds one
      clause for every constrained edge and banned pair, each once, and so as
      many clauses as the edges have banned pairs. */
  method BuildClauses(nodes: seq<int>, graph: Graph, banned: map<Dir, set<Pair>>, keys: map<int, int>, bitcount: nat)
    returns (clauses: seq<seq<int>>, ghost bans: seq<Ban>)
    requires Distinct(nodes) && forall n :: n in nodes <==> n in graph
    requires graph.Keys == keys.Keys
    requires TargetsAreSources(graph, banned)
    ensures Written(clauses, bans, keys, bitcount) && Distinct(bans)
    ensures forall b :: b in bans <==> Called(b, graph, banned)
    ensures |clauses| == Sets.SumOf(graph.Keys, NodeWeight(graph, banned))
  {
    clauses, bans := [], [];
    ghost var done: set<int> := {};
    for k := 0 to |nodes|
      invariant forall n :: n in done <==> n in nodes[..k]
      invariant Written(clauses, bans, keys, bitcount) && Distinct(bans)
      invariant |clauses| == Sets.SumOf(done, NodeWeight(graph, banned))
      invariant BansFrom(bans, done, graph, banned)
    {
      var from := nodes[k];
      assert from !in done;
      var cls;
      ghost var bs;
      cls, bs := NodeClauses(from, graph, banned, keys, bitcount);
      GraphStep(clauses, bans, cls, bs, from, done, graph, banned, keys, bitcount);
      Sets.SumOfAdd(done, NodeWeight(graph, banned), from);
      clauses, bans := clauses + cls, bans + bs;
      done := done + {from};
      assert nodes[..k + 1] == nodes[..k] + [from];
    }
    assert nodes[..|nodes|] == nodes;
    assert forall n :: n in done <==> n in graph.Keys;
    assert done == graph.Keys;
  }

  // ---------------------------------------------------------------------
  // What the clause list means

  /** An assignment satisfies the clause list exactly when no constrained edge
      has its two nodes' variables spelling one of its banned pairs. */
  lemma ClausesMeaning(a: set<int>, clauses: seq<seq<int>>, bans: seq<Ban>, graph: Graph,
                       banned: map<Dir, set<Pair>>, keys: map<int, int>, bitcount: nat)
    requires Written(clauses, bans, keys, bitcount) && OwnRanges(keys, bitcount)
    requires forall b :: b in bans <==> Called(b, graph, banned)
    requires graph.Keys == keys.Keys && TargetsAreSources(graph, banned)
    ensures Satisfies(a, clauses) <==>
              forall b :: Called(b, graph, banned) ==>
                !(Spells(a, keys[b.from], b.pair.0, bitcount) && Spells(a, keys[b.to], b.pair.1, bitcount))
  {
    forall i | 0 <= i < |clauses|
      ensures SatisfiesClause(a, clauses[i]) <==>
                !(Spells(a, keys[bans[i].from], bans[i].pair.0, bitcount) && Spells(a, keys[bans[i].to], bans[i].pair.1, bitcount))
    {
      BanClauseMeaning(a, keys[bans[i].from], keys[bans[i].to], bans[i].pair, bitcount);
    }
    forall b | Called(b, graph, banned)
      ensures exists i :: 0 <= i < |bans| && bans[i] == b
    {
      assert b in bans;
    }
  }

  /** A labelling meets the constraints: every edge with a banned pair in its
      direction joins two labelled nodes whose pair of labels is not banned
      there. */
  ghost predicate Proper(labels: map<int, int>, graph: Graph, banned: map<Dir, set<Pair>>)
  {
    forall n, e :: n in graph && e in graph[n] && e.0 in banned && banned[e.0] != {} ==>
      n in labels && e.1 in labels && (labels[n], labels[e.1]) !in banned[e.0]
  }

  predicate LabelsInRange(labels: map<int, int>, bitcount: nat)
  {
    forall n :: n in labels ==> 0 <= labels[n] < Pow2(bitcount)
  }

  predicate BannedInRange(banned: map<Dir, set<Pair>>, bitcount: nat)
  {
    forall d, p :: d in banned && p in banned[d] ==> InRange(p, bitcount)
  }

  /** Every node's label as the assignment spells it. */
  function DecodeAll(a: set<int>, keys: map<int, int>, bitcount: nat): (labels: map<int, int>)
    ensures labels.Keys == keys.Keys
    ensures forall n :: n in labels ==> labels[n] == LabelIn(a, keys[n], bitcount)
  {
    map n | n in keys :: LabelIn(a, keys[n], bitcount)
  }

  /** With banned pairs that are labels, an assignment satisfies the clause
      list exactly when the labelling it spells is proper. */
  lemma DecodedProper(a: set<int>, clauses: seq<seq<int>>, bans: seq<Ban>, graph: Graph,
                      banned: map<Dir, set<Pair>>, keys: map<int, int>, bitcount: nat)
    requires Written(clauses, bans, keys, bitcount) && OwnRanges(keys, bitcount)
    requires forall b :: b in bans <==> Called(b, graph, banned)
    requires graph.Keys == keys.Keys && TargetsAreSources(graph, banned)
    requires BannedInRange(banned, bitcount)
    ensures Satisfies(a, clauses) <==> Proper(DecodeAll(a, keys, bitcount), graph, banned)
  {
    var labels := DecodeAll(a, keys, bitcount);
    ClausesMeaning(a, clauses, bans, graph, banned, keys, bitcount);
    forall b | Called(b, graph, banned)
      ensures (Spells(a, keys[b.from], b.pair.0, bitcount) && Spells(a, keys[b.to], b.pair.1, bitcount)) <==>
                (labels[b.from], labels[b.to]) == b.pair
    {
      SpelledPair(a, keys[b.from], keys[b.to], b.pair, bitcount);
    }
    if Proper(labels, graph, banned) {
      forall b | Called(b, graph, banned)
        ensures (labels[b.from], labels[b.to]) != b.pair
      {
        assert (b.dir, b.to) in graph[b.from];
      }
    } else {
      var n, e :| n in graph && e in graph[n] && e.0 in banned && banned[e.0] != {} && (labels[n], labels[e.1]) in banned[e.0];
      assert Called(Ban(n, e.0, e.1, (labels[n], labels[e.1])), graph, banned);
    }
  }

  /** Two spellings of a pair of labels are the two decoded labels. */
  lemma SpelledPair(a: set<int>, keyFrom: int, keyTo: int, pair: Pair, bitcount: nat)
    requires InRange(pair, bitcount)
    ensures (Spells(a, keyFrom, pair.0, bitcount) && Spells(a, keyTo, pair.1, bitcount)) <==>
              (LabelIn(a, keyFrom, bitcount), LabelIn(a, keyTo, bitcount)) == pair
  {
    LabelInSpelled(a, keyFrom, bitcount);
    LabelInSpelled(a, keyTo, bitcount);
    if Spells(a, keyFrom, pair.0, bitcount) && Spells(a, keyTo, pair.1, bitcount) {
      SpelledLabelIn(a, keyFrom, pair.0, bitcount);
      SpelledLabelIn(a, keyTo, pair.1, bitcount);
    }
  }

  /** The variables a labelling sets true: bit i of node n's label on
      variable keys[n] + i. */
  ghost function EncodeLabels(labels: map<int, int>, keys: map<int, int>, bitcount: nat): set<int>
  {
    set n, i: nat | n in keys && n in labels && i in Below(bitcount) && Bit(labels[n], i) :: keys[n] + i
  }

  /** With disjoint variable ranges, each node's variables spell its label. */
  lemma EncodeSpells(labels: map<int, int>, keys: map<int, int>, bitcount: nat, n: int)
    requires OwnRanges(keys, bitcount) && n in keys && n in labels
    ensures Spells(EncodeLabels(labels, keys, bitcount), keys[n], labels[n], bitcount)
  {
    var a := EncodeLabels(labels, keys, bitcount);
    forall i: nat | i < bitcount
      ensures keys[n] + i in a <==> Bit(labels[n], i)
    {
      if keys[n] + i in a {
        var m, j: nat :| m in keys && m in labels && j in Below(bitcount) && Bit(labels[m], j) && keys[m] + j == keys[n] + i;
        assert m == n;
      }
      if Bit(labels[n], i) {
        assert i in Below(bitcount);
      }
    }
  }

  /** Encoding a labelling of the keyed nodes and decoding it gives it back. */
  lemma DecodeEncodeLabels(labels: map<int, int>, keys: map<int, int>, bitcount: nat)
    requires OwnRanges(keys, bitcount) && labels.Keys == keys.Keys && LabelsInRange(labels, bitcount)
    ensures DecodeAll(EncodeLabels(labels, keys, bitcount), keys, bitcount) == labels
  {
    var a := EncodeLabels(labels, keys, bitcount);
    forall n | n in keys
      ensures LabelIn(a, keys[n], bitcount) == labels[n]
    {
      EncodeSpells(labels, keys, bitcount, n);
      SpelledLabelIn(a, keys[n], labels[n], bitcount);
    }
  }

  /** The graph has a proper labelling with `bitcount`-bit labels. */
  ghost predicate Labelable(graph: Graph, banned: map<Dir, set<Pair>>, bitcount: nat)
  {
    exists labels: map<int, int> ::
      labels.Keys == graph.Keys && LabelsInRange(labels, bitcount) && Proper(labels, graph, banned)
  }

  /** The clause list is satisfiable exactly when a proper labelling exists. */
  lemma SatisfiableIffLabelable(clauses: seq<seq<int>>, bans: seq<Ban>, graph: Graph,
                                banned: map<Dir, set<Pair>>, keys: map<int, int>, bitcount: nat)
    requires Written(clauses, bans, keys, bitcount) && OwnRanges(keys, bitcount)
    requires forall b :: b in bans <==> Called(b, graph, banned)
    requires graph.Keys == keys.Keys && TargetsAreSources(graph, banned)
    requires BannedInRange(banned, bitcount)
    ensures Satisfiable(clauses) <==> Labelable(graph, banned, bitcount)
  {
    if Satisfiable(clauses) {
      var a :| Satisfies(a, clauses);
      DecodedProper(a, clauses, bans, graph, banned, keys, bitcount);
      var labels := DecodeAll(a, keys, bitcount);
      forall n | n in labels
        ensures 0 <= labels[n] < Pow2(bitcount)
      {
        LabelInSpelled(a, keys[n], bitcount);
      }
      assert labels.Keys == graph.Keys && LabelsInRange(labels, bitcount) && Proper(labels, graph, banned);
    }
    if Labelable(graph, banned, bitcount) {
      var labels: map<int, int> :| labels.Keys == graph.Keys && LabelsInRange(labels, bitcount) && Proper(labels, graph, banned);
      var a := EncodeLabels(labels, keys, bitcount);
      DecodeEncodeLabels(labels, keys, bitcount);
      DecodedProper(a, clauses, bans, graph, banned, keys, bitcount);
      assert Satisfies(a, clauses);
    }
  }

  // ---------------------------------------------------------------------
  // Decoding (lines 82-89) and the whole run (lines 44-89)

  /** The variables a model from the solver sets true: variable v is true
      when position v - 1 of the model holds v. */
  function TrueVars(solution: seq<int>): (r: set<int>)
    ensures forall v :: v in r <==> 1 <= v <= |solution| && solution[v - 1] == v
  {
    set i | 0 <= i < |solution| && solution[i] == i + 1 :: i + 1
  }

  /** Lines 84-89: one node's label, adding 2**i for each true variable. */
  method DecodeLabel(solution: seq<int>, key: int, bitcount: nat) returns (value: nat)
    requires 1 <= key && key + bitcount - 1 <= |solution|
    ensures value == LabelIn(TrueVars(solution), key, bitcount)
  {
    value := 0;
    forall j: nat
      ensures !Bit(0, j)
    {
      HighBitsZero(0, j);
    }
    for i := 0 to bitcount
      invariant value < Pow2(i)
      invariant forall j: nat :: Bit(value, j) <==> j < i && key + j in TrueVars(solution)
    {
      if solution[key + i - 1] == key + i {
        AddHighBit(value, i, value + Pow2(i));
        value := value + Pow2(i);
      }
    }
    SpelledLabelIn(TrueVars(solution), key, value, bitcount);
  }

  /** Lines 82-89: every node's label, in the order of `nodes`. */
  method DecodeLabels(solution: seq<int>, nodes: seq<int>, keys: map<int, int>, bitcount: nat)
    returns (labels: map<int, int>)
    requires forall i :: 0 <= i < |nodes| ==> nodes[i] in keys
    requires forall n :: n in keys ==> n in nodes
    requires forall n :: n in keys ==> 1 <= keys[n] && keys[n] + bitcount - 1 <= |solution|
    ensures labels == DecodeAll(TrueVars(solution), keys, bitcount)
  {
    labels := map[];
    for k := 0 to |nodes|
      invariant forall n :: n in labels <==> n in nodes[..k]
      invariant forall n :: n in labels ==> n in keys && labels[n] == LabelIn(TrueVars(solution), keys[n], bitcount)
    {
      var node := nodes[k];
      var key := keys[node];
      var value := DecodeLabel(solution, key, bitcount);
      labels := labels[node := value];
      assert nodes[..k + 1] == nodes[..k] + [nodes[k]];
    }
    assert nodes[..|nodes|] == nodes;
    forall n | n in keys
      ensures n in labels
    {
      assert n in nodes[..|nodes|];
    }
    assert forall n :: n in labels.Keys <==> n in keys.Keys;
    var decoded := DecodeAll(TrueVars(solution), keys, bitcount);
    assert labels.Keys == decoded.Keys;
    assert forall n :: n in labels ==> labels[n] == decoded[n];
  }

  /** The last variable of every node is at most |nodes| * bitcount. */
  lemma KeysWithin(nodes: seq<int>, keys: map<int, int>, bitcount: nat)
    requires forall n :: n in keys <==> n in nodes
    requires forall i :: 0 <= i < |nodes| ==> nodes[i] in keys && keys[nodes[i]] == 1 + i * bitcount
    ensures forall n :: n in keys ==> keys[n] + bitcount - 1 <= |nodes| * bitcount
  {
    forall n | n in keys
      ensures keys[n] + bitcount - 1 <= |nodes| * bitcount
    {
      var i :| 0 <= i < |nodes| && nodes[i] == n;
      MulSucc(i, bitcount);
      MulMono(|nodes|, i + 1, bitcount);
    }
  }

  /** The pairs in force: with `-i` the file lists banned pairs, otherwise
      allowed ones, inverted at line 52. */
  function Banned(constraints: map<Dir, set<Pair>>, invert: bool, bitcount: nat): map<Dir, set<Pair>>
  {
    if invert then constraints else InvertConstraints(constraints, bitcount)
  }

  /** What the run ends with: "UNSAT", a labelling, or no labelling because
      the solver gave no model to read every node's bits from. */
  datatype Outcome = Unsatisfiable | Labelled(labels: map<int, int>) | Undecoded

  /** Lines 61-76: keys in the order of `nodes`, then the clause list, with
      everything the meaning of the list rests on. */
  method KeysAndClauses(graph: Graph, nodes: seq<int>, banned: map<Dir, set<Pair>>, bitcount: nat)
    returns (keys: map<int, int>, clauses: seq<seq<int>>, ghost bans: seq<Ban>)
    requires Distinct(nodes) && forall n :: n in nodes <==> n in graph
    requires TargetsAreSources(graph, banned)
    ensures keys.Keys == graph.Keys && OwnRanges(keys, bitcount)
    ensures forall n :: n in keys ==> keys[n] + bitcount - 1 <= |nodes| * bitcount
    ensures Written(clauses, bans, keys, bitcount)
    ensures forall b :: b in bans <==> Called(b, graph, banned)
    ensures |clauses| == Sets.SumOf(graph.Keys, NodeWeight(graph, banned))
  {
    keys := AssignKeys(nodes, bitcount);
    KeysOwnRanges(nodes, keys, bitcount);
    KeysWithin(nodes, keys, bitcount);
    assert forall n :: n in keys.Keys <==> n in graph.Keys;
    clauses, bans := BuildClauses(nodes, graph, banned, keys, bitcount);
  }

  /** Lines 51-89 on a graph whose source nodes, in iteration order, are
      `nodes`, with the SAT solver as a parameter. */
  method Solve(graph: Graph, nodes: seq<int>, constraints: map<Dir, set<Pair>>, invert: bool, bitcount: nat,
               solve: seq<seq<int>> -> SatAnswer)
    returns (outcome: Outcome, clauses: seq<seq<int>>)
    requires Distinct(nodes) && forall n :: n in nodes <==> n in graph
    requires TargetsAreSources(graph, Banned(constraints, invert, bitcount))
    ensures |clauses| == Sets.SumOf(graph.Keys, NodeWeight(graph, Banned(constraints, invert, bitcount)))
    ensures outcome.Unsatisfiable? <==> solve(clauses) == Unsat
    ensures outcome.Undecoded? <==>
              solve(clauses).Unknown? || (solve(clauses).Solution? && |solve(clauses).literals| < |nodes| * bitcount)
    ensures outcome.Labelled? ==> outcome.labels.Keys == graph.Keys && LabelsInRange(outcome.labels, bitcount)
    ensures outcome.Labelled? && BannedInRange(Banned(constraints, invert, bitcount), bitcount)
            && Satisfies(TrueVars(solve(clauses).literals), clauses) ==>
              Proper(outcome.labels, graph, Banned(constraints, invert, bitcount))
    ensures BannedInRange(Banned(constraints, invert, bitcount), bitcount) && Decides(solve, clauses) ==>
              (outcome.Unsatisfiable? <==> !Labelable(graph, Banned(constraints, invert, bitcount), bitcount))
  {
    var banned := Banned(constraints, invert, bitcount);
    var keys;
    ghost var bans;
    keys, clauses, bans := KeysAndClauses(graph, nodes, banned, bitcount);
    if BannedInRange(banned, bitcount) {
      SatisfiableIffLabelable(clauses, bans, graph, banned, keys, bitcount);
    }
    var answer := solve(clauses);
    match answer {
      case Unsat =>
        outcome := Unsatisfiable;
      case Unknown =>
        outcome := Undecoded;
      case Solution(literals) =>
        if |literals| < |nodes| * bitcount {
          outcome := Undecoded;
        } else {
          var labels := DecodeLabels(literals, nodes, keys, bitcount);
          DecodedInRange(TrueVars(literals), keys, bitcount);
          if BannedInRange(banned, bitcount) {
            DecodedProper(TrueVars(literals), clauses, bans, graph, banned, keys, bitcount);
          }
          outcome := Labelled(labels);
        }
    }
  }

  /** Every decoded label is below 2**bitcount. */
  lemma DecodedInRange(a: set<int>, keys: map<int, int>, bitcount: nat)
    ensures LabelsInRange(DecodeAll(a, keys, bitcount), bitcount)
  {
    forall n | n in keys
      ensures LabelIn(a, keys[n], bitcount) < Pow2(bitcount)
    {
      LabelInSpelled(a, keys[n], bitcount);
    }
  }
}

