/** Clause lists in the DIMACS style the SAT solver takes, their meaning under
    an assignment, and the two kinds of clause the completability check writes
    over numbered phantom anchors. */
module Cnf {

  import opened Geometry

  /** What `pycosat.solve` hands back: "UNSAT", "UNKNOWN", or a model as a
      list of literals. */
  datatype SatAnswer = Unsat | Unknown | Solution(literals: seq<int>)

  /** A literal is true when its variable is in the set of true variables `a`
      and it is positive, or its variable is not and it is negative. */
  predicate LiteralTrue(a: set<int>, lit: int)
  {
    (lit > 0 && lit in a) || (lit < 0 && -lit !in a)
  }

  ghost predicate SatisfiesClause(a: set<int>, clause: seq<int>)
  {
    exists lit :: lit in clause && LiteralTrue(a, lit)
  }

  ghost predicate Satisfies(a: set<int>, cnf: seq<seq<int>>)
  {
    forall i :: 0 <= i < |cnf| ==> SatisfiesClause(a, cnf[i])
  }

  ghost predicate Satisfiable(cnf: seq<seq<int>>)
  {
    exists a :: Satisfies(a, cnf)
  }

  /** The solver answers correctly on `cnf`: "UNSAT" exactly when nothing
      satisfies it. */
  ghost predicate Decides(solve: seq<seq<int>> -> SatAnswer, cnf: seq<seq<int>>)
  {
    solve(cnf) == Unsat <==> !Satisfiable(cnf)
  }

  /** Why a clause is in the list: an exposed zero that needs one of its
      candidate cells, or two candidates too close to both hold anchors. */
  datatype Reason = AtLeastOne(zero: Point, cands: set<Point>) | NotBoth(a: Point, b: Point)

  /** The numbering of candidate cells is one-to-one onto positive variables. */
  ghost predicate Numbering(ids: map<Point, int>)
  {
    && (forall p :: p in ids ==> ids[p] >= 1)
    && (forall p, q :: p in ids && q in ids && p != q ==> ids[p] != ids[q])
  }

  /** The clause written for a reason: the ids of all its candidates, or the
      negated ids of the two close cells. */
  ghost predicate Encodes(clause: seq<int>, r: Reason, ids: map<Point, int>)
  {
    match r
    case AtLeastOne(_, cands) =>
      && cands <= ids.Keys
      && |clause| == |cands|
      && forall lit :: lit in clause <==> exists p :: p in cands && ids[p] == lit
    case NotBoth(a, b) =>
      a in ids && b in ids && clause == [-ids[a], -ids[b]]
  }

  /** A set of phantom anchors meets a reason. */
  ghost predicate Holds(anchors: set<Point>, r: Reason)
  {
    match r
    case AtLeastOne(_, cands) => exists p :: p in anchors && p in cands
    case NotBoth(a, b) => !(a in anchors && b in anchors)
  }

  /** The cells whose variables an assignment sets true. */
  ghost function Decode(a: set<int>, ids: map<Point, int>): set<Point>
  {
    set p | p in ids && ids[p] in a
  }

  /** The variables of a set of cells. */
  ghost function Encode(anchors: set<Point>, ids: map<Point, int>): set<int>
    requires anchors <= ids.Keys
  {
    set p | p in anchors :: ids[p]
  }

  /** A clause written for a reason is satisfied exactly when the cells the
      assignment sets true meet the reason. */
  lemma ClauseMeaning(a: set<int>, clause: seq<int>, r: Reason, ids: map<Point, int>)
    requires Numbering(ids) && Encodes(clause, r, ids)
    ensures SatisfiesClause(a, clause) <==> Holds(Decode(a, ids), r)
  {
    match r
    case AtLeastOne(_, cands) =>
      if SatisfiesClause(a, clause) {
        var lit :| lit in clause && LiteralTrue(a, lit);
        var p :| p in cands && ids[p] == lit;
        assert p in Decode(a, ids);
      }
      if Holds(Decode(a, ids), r) {
        var p :| p in Decode(a, ids) && p in cands;
        assert ids[p] in clause && LiteralTrue(a, ids[p]);
      }
    case NotBoth(x, y) =>
      assert clause[0] in clause && clause[1] in clause;
  }

  /** Numbering cells and reading them back is the identity. */
  lemma DecodeEncode(anchors: set<Point>, ids: map<Point, int>)
    requires Numbering(ids) && anchors <= ids.Keys
    ensures Decode(Encode(anchors, ids), ids) == anchors
  {
  }

  /** An assignment satisfies every clause exactly when the cells it sets true
      meet every reason. */
  lemma ListMeaning(a: set<int>, cnf: seq<seq<int>>, reasons: seq<Reason>, ids: map<Point, int>)
    requires Numbering(ids) && |cnf| == |reasons|
    requires forall i :: 0 <= i < |cnf| ==> Encodes(cnf[i], reasons[i], ids)
    ensures Satisfies(a, cnf) <==> forall i :: 0 <= i < |reasons| ==> Holds(Decode(a, ids), reasons[i])
  {
    forall i | 0 <= i < |cnf|
      ensures SatisfiesClause(a, cnf[i]) <==> Holds(Decode(a, ids), reasons[i])
    {
      ClauseMeaning(a, cnf[i], reasons[i], ids);
    }
  }
}
