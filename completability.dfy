/** `cnfsat_verify` (generate_tiles.py:182-221) and the filter in `main` that
    uses it (lines 43-46): can anchors be placed outside a finished tile, more
    than k apart from each other and from the tile's own anchors, so that every
    exposed zero of the tile has one within distance k?  The question goes to a
    SAT solver, which the model takes as a parameter. */
module Completability {

  import opened Geometry
  import Sets
  import Exposure
  import opened Cnf

  datatype Option<T> = None | Some(value: T)

  ghost function Exposed(ones: set<Point>, tilewidth: int, tileheight: int, k: int): set<Point>
  {
    Exposure.ExposedZeroes(ones, tilewidth, tileheight, tilewidth, k)
  }

  /** Where a phantom anchor dominating `zero` may go (line 186): outside the
      tile, within k of the zero, and farther than k from every anchor. */
  ghost function Candidates(zero: Point, ones: set<Point>, tilewidth: int, tileheight: int, k: int): set<Point>
  {
    Exposure.OuterBall(zero, tilewidth, tileheight, k) - Exposure.ExclusionSet(ones, tilewidth, tileheight, k)
  }

  /** Every candidate cell of some exposed zero: the cells that get a variable. */
  ghost function Phantoms(ones: set<Point>, tilewidth: int, tileheight: int, k: int): set<Point>
  {
    set z, p | z in Exposed(ones, tilewidth, tileheight, k) && p in Candidates(z, ones, tilewidth, tileheight, k) :: p
  }

  /** `anchors` completes the tile: they lie outside it and farther than k from
      its anchors, every exposed zero has one within k, and no two are within k
      of each other. */
  ghost predicate Completes(anchors: set<Point>, ones: set<Point>, tilewidth: int, tileheight: int, k: int)
  {
    && (forall p :: p in anchors ==>
          !InsideArea(p, 0, 0, tilewidth, tileheight) && p !in Exposure.ExclusionSet(ones, tilewidth, tileheight, k))
    && (forall z :: z in Exposed(ones, tilewidth, tileheight, k) ==> exists p :: p in anchors && IsManhattanClose(p, z, k))
    && (forall p, q :: p in anchors && q in anchors && p != q ==> !IsManhattanClose(p, q, k))
  }

  ghost predicate Completable(ones: set<Point>, tilewidth: int, tileheight: int, k: int)
  {
    exists anchors :: Completes(anchors, ones, tilewidth, tileheight, k)
  }

  /** The solver answers correctly on every clause list. */
  ghost predicate SolverCorrect(solve: seq<seq<int>> -> SatAnswer)
  {
    forall cnf :: Decides(solve, cnf)
  }

  /** With no exposed zero, no outside anchor is needed. */
  lemma NothingExposed(ones: set<Point>, tilewidth: int, tileheight: int, k: int)
    requires Exposed(ones, tilewidth, tileheight, k) == {}
    ensures Completable(ones, tilewidth, tileheight, k)
  {
    assert Completes({}, ones, tilewidth, tileheight, k);
  }

  /** An exposed zero without candidate cells cannot be dominated. */
  lemma StrandedZero(ones: set<Point>, tilewidth: int, tileheight: int, k: int, z: Point)
    requires z in Exposed(ones, tilewidth, tileheight, k)
    requires Candidates(z, ones, tilewidth, tileheight, k) == {}
    ensures !Completable(ones, tilewidth, tileheight, k)
  {
    if anchors :| Completes(anchors, ones, tilewidth, tileheight, k) {
      var p := DominatorIsCandidate(anchors, ones, tilewidth, tileheight, k, z);
      assert false;
    }
  }

  /** In a completion, each exposed zero is dominated by one of its candidate
      cells. */
  lemma DominatorIsCandidate(anchors: set<Point>, ones: set<Point>, tilewidth: int, tileheight: int, k: int, z: Point)
    returns (p: Point)
    requires Completes(anchors, ones, tilewidth, tileheight, k)
    requires z in Exposed(ones, tilewidth, tileheight, k)
    ensures p in anchors && p in Candidates(z, ones, tilewidth, tileheight, k)
  {
    p :| p in anchors && IsManhattanClose(p, z, k);
  }

  // ---------------------------------------------------------------------
  // Numbering the candidate cells (lines 197-201)

  /** Numbers the cells 1, 2, ... in iteration order: one-to-one from the N
      cells into 1..N, hence onto it. */
  method AssignIds(cells: set<Point>) returns (ids: map<Point, int>)
    ensures ids.Keys == cells
    ensures Numbering(ids)
    ensures forall p :: p in ids ==> ids[p] <= |cells|
  {
    ids := map[];
    var nextId := 1;
    var todo := cells;
    while todo != {}
      invariant todo <= cells
      invariant ids.Keys == cells - todo
      invariant nextId - 1 + |todo| == |cells|
      invariant Numbering(ids)
      invariant forall p :: p in ids ==> ids[p] < nextId
      decreases |todo|
    {
      Sets.NonEmpty(todo);
      var cell :| cell in todo;
      ids := ids[cell := nextId];
      nextId := nextId + 1;
      todo := todo - {cell};
    }
  }

  // ---------------------------------------------------------------------
  // Writing the clauses (lines 202-216)

  /** Line 205: the ids of a zero's candidate cells, in iteration order. */
  method ListIds(cands: set<Point>, ids: map<Point, int>) returns (clause: seq<int>)
    requires cands <= ids.Keys
    ensures |clause| == |cands|
    ensures forall lit :: lit in clause <==> exists p :: p in cands && ids[p] == lit
  {
    var order := Sets.Enumerate(cands);
    clause := [];
    for i := 0 to |order|
      invariant |clause| == i
      invariant forall j :: 0 <= j < i ==> clause[j] == ids[order[j]]
    {
      clause := clause + [ids[order[i]]];
    }
    forall lit | exists p :: p in cands && ids[p] == lit
      ensures lit in clause
    {
      var p :| p in cands && ids[p] == lit;
      var j :| 0 <= j < |order| && order[j] == p;
      assert clause[j] == lit;
    }
  }

  ghost predicate Written(cnf: seq<seq<int>>, reasons: seq<Reason>, ids: map<Point, int>)
  {
    |cnf| == |reasons| && forall i :: 0 <= i < |cnf| ==> Encodes(cnf[i], reasons[i], ids)
  }

  /** Every pair clause is about two distinct numbered cells within k. */
  ghost predicate PairsSound(reasons: seq<Reason>, ids: map<Point, int>, k: int)
  {
    forall i :: 0 <= i < |reasons| && reasons[i].NotBoth? ==>
      && reasons[i].a in ids && reasons[i].b in ids
      && reasons[i].a != reasons[i].b && IsManhattanClose(reasons[i].a, reasons[i].b, k)
  }

  /** Every close pair involving a handled cell has its clause. */
  ghost predicate PairsCovered(reasons: seq<Reason>, handled: set<Point>, ids: map<Point, int>, k: int)
  {
    forall a, b :: a in handled && b in ids && a != b && IsManhattanClose(a, b, k) ==>
      NotBoth(a, b) in reasons || NotBoth(b, a) in reasons
  }

  /** No unordered pair gets two clauses. */
  ghost predicate PairsOnce(reasons: seq<Reason>)
  {
    forall i, j :: 0 <= i < j < |reasons| && reasons[i].NotBoth? && reasons[j].NotBoth? ==>
      {reasons[i].a, reasons[i].b} != {reasons[j].a, reasons[j].b}
  }

  /** Pair clauses are written only while handling their first cell. */
  ghost predicate FirstHandled(reasons: seq<Reason>, handled: set<Point>)
  {
    forall i :: 0 <= i < |reasons| && reasons[i].NotBoth? ==> reasons[i].a in handled
  }

  ghost predicate PairsInvariant(reasons: seq<Reason>, handled: set<Point>, ids: map<Point, int>, k: int)
  {
    && handled <= ids.Keys
    && PairsSound(reasons, ids, k)
    && PairsCovered(reasons, handled, ids, k)
    && PairsOnce(reasons)
    && FirstHandled(reasons, handled)
  }

  /** Lines 213-215 for a cell `a` just marked handled: a clause [-a, -b] for
      every other cell b within k that is not handled yet. */
  method PairClauses(a: Point, keys: seq<Point>, handled: set<Point>, ids: map<Point, int>, k: int)
    returns (cls: seq<seq<int>>, ghost rs: seq<Reason>)
    requires a in ids && forall q :: q in keys ==> q in ids
    requires forall i, j :: 0 <= i < j < |keys| ==> keys[i] != keys[j]
    ensures Written(cls, rs, ids)
    ensures forall i :: 0 <= i < |rs| ==>
              && rs[i].NotBoth? && rs[i].a == a && rs[i].b != a && rs[i].b !in handled
              && rs[i].b in keys && IsManhattanClose(a, rs[i].b, k)
    ensures forall b :: b in keys && b != a && b !in handled && IsManhattanClose(a, b, k) ==> NotBoth(a, b) in rs
    ensures forall i, j :: 0 <= i < j < |rs| ==> rs[i].b != rs[j].b
  {
    cls := [];
    rs := [];
    for j := 0 to |keys|
      invariant Written(cls, rs, ids)
      invariant forall i :: 0 <= i < |rs| ==>
                  && rs[i].NotBoth? && rs[i].a == a && rs[i].b != a && rs[i].b !in handled
                  && rs[i].b in keys[..j] && IsManhattanClose(a, rs[i].b, k)
      invariant forall b :: b in keys[..j] && b != a && b !in handled && IsManhattanClose(a, b, k) ==> NotBoth(a, b) in rs
      invariant forall i, m :: 0 <= i < m < |rs| ==> rs[i].b != rs[m].b
    {
      var other := keys[j];
      assert other !in keys[..j];
      if IsManhattanClose(a, other, k) && a != other && other !in handled {
        cls := cls + [[-ids[a], -ids[other]]];
        rs := rs + [NotBoth(a, other)];
      }
      assert keys[..j + 1] == keys[..j] + [other];
    }
    assert keys[..|keys|] == keys;
  }

  /** Appending the pair clauses of a newly handled cell keeps every unordered
      pair to at most one clause. */
  lemma PairsOnceAppend(reasons: seq<Reason>, rs: seq<Reason>, handled: set<Point>, a: Point)
    requires PairsOnce(reasons) && FirstHandled(reasons, handled) && a !in handled
    requires forall i :: 0 <= i < |rs| ==> rs[i].NotBoth? && rs[i].a == a && rs[i].b != a && rs[i].b !in handled
    requires forall i, j :: 0 <= i < j < |rs| ==> rs[i].b != rs[j].b
    ensures PairsOnce(reasons + rs)
  {
    var all := reasons + rs;
    forall i, j | 0 <= i < j < |all| && all[i].NotBoth? && all[j].NotBoth?
      ensures {all[i].a, all[i].b} != {all[j].a, all[j].b}
    {
      if j >= |reasons| {
        var y := all[j].b;
        assert all[j].a == a && y != a && y !in handled;
        if i < |reasons| {
          assert all[i].a in handled;
          assert all[i].a !in {a, y};
        } else {
          assert all[i].a == a && all[i].b != y;
          assert all[i].b !in {a, y};
        }
      }
    }
  }

  lemma WrittenAppend(cnf: seq<seq<int>>, reasons: seq<Reason>, more: seq<seq<int>>, rs: seq<Reason>,
                      ids: map<Point, int>)
    requires Written(cnf, reasons, ids) && Written(more, rs, ids)
    ensures Written(cnf + more, reasons + rs, ids)
  {
    assert forall i :: |cnf| <= i < |cnf| + |more| ==> (cnf + more)[i] == more[i - |cnf|] && (reasons + rs)[i] == rs[i - |cnf|];
  }

  /** Handling one more cell, with the pair clauses PairClauses writes for it,
      keeps the pair invariant. */
  lemma PairsStep(reasons: seq<Reason>, handled: set<Point>, ids: map<Point, int>, k: int, cell: Point,
                  rs: seq<Reason>)
    requires PairsInvariant(reasons, handled, ids, k)
    requires cell in ids && cell !in handled
    requires forall i :: 0 <= i < |rs| ==>
               && rs[i].NotBoth? && rs[i].a == cell && rs[i].b != cell && rs[i].b !in handled + {cell}
               && rs[i].b in ids && IsManhattanClose(cell, rs[i].b, k)
    requires forall b :: b in ids && b != cell && b !in handled + {cell} && IsManhattanClose(cell, b, k) ==> NotBoth(cell, b) in rs
    requires forall i, j :: 0 <= i < j < |rs| ==> rs[i].b != rs[j].b
    ensures PairsInvariant(reasons + rs, handled + {cell}, ids, k)
  {
    var all := reasons + rs;
    PairsOnceAppend(reasons, rs, handled, cell);
    forall i | 0 <= i < |all| && all[i].NotBoth?
      ensures all[i].a in ids && all[i].b in ids && all[i].a != all[i].b && IsManhattanClose(all[i].a, all[i].b, k)
      ensures all[i].a in handled + {cell}
    {
      if i >= |reasons| {
        assert all[i] == rs[i - |reasons|];
      }
    }
    forall a, b | a in handled + {cell} && b in ids && a != b && IsManhattanClose(a, b, k)
      ensures NotBoth(a, b) in all || NotBoth(b, a) in all
    {
      if a == cell && b !in handled {
        assert NotBoth(a, b) in rs;
      } else if a == cell {
        assert IsManhattanClose(b, a, k);
        assert NotBoth(b, a) in reasons || NotBoth(a, b) in reasons;
      } else {
        assert NotBoth(a, b) in reasons || NotBoth(b, a) in reasons;
      }
    }
  }

  /** Lines 206-216 for one zero's candidate cells: each cell not yet handled is
      marked handled and gets its pair clauses. */
  method HandleCells(cells: seq<Point>, keys: seq<Point>, handled: set<Point>, ids: map<Point, int>, k: int,
                     ghost reasons: seq<Reason>)
    returns (cls: seq<seq<int>>, ghost rs: seq<Reason>, handledOut: set<Point>)
    requires forall q :: q in cells ==> q in ids
    requires forall q :: q in keys <==> q in ids
    requires forall i, j :: 0 <= i < j < |keys| ==> keys[i] != keys[j]
    requires PairsInvariant(reasons, handled, ids, k)
    ensures Written(cls, rs, ids)
    ensures forall i :: 0 <= i < |rs| ==> rs[i].NotBoth?
    ensures forall q :: q in handledOut <==> q in handled || q in cells
    ensures PairsInvariant(reasons + rs, handledOut, ids, k)
  {
    cls := [];
    rs := [];
    handledOut := handled;
    for i := 0 to |cells|
      invariant Written(cls, rs, ids)
      invariant forall m :: 0 <= m < |rs| ==> rs[m].NotBoth?
      invariant forall q :: q in handledOut <==> q in handled || q in cells[..i]
      invariant PairsInvariant(reasons + rs, handledOut, ids, k)
    {
      var cell := cells[i];
      assert cells[..i + 1] == cells[..i] + [cell];
      if cell in handledOut {
        continue;
      }
      var pairCls, pairRs := PairClauses(cell, keys, handledOut + {cell}, ids, k);
      PairsStep(reasons + rs, handledOut, ids, k, cell, pairRs);
      WrittenAppend(cls, rs, pairCls, pairRs, ids);
      assert reasons + rs + pairRs == reasons + (rs + pairRs);
      cls := cls + pairCls;
      rs := rs + pairRs;
      handledOut := handledOut + {cell};
    }
    assert cells[..|cells|] == cells;
  }

  /** The pairs `(zero, candidate cells)` list exactly these cells. */
  function Covered(nbhs: seq<(Point, set<Point>)>): (cells: set<Point>)
    ensures forall p :: p in cells <==> exists i :: 0 <= i < |nbhs| && p in nbhs[i].1
  {
    set i, p | 0 <= i < |nbhs| && p in nbhs[i].1 :: p
  }

  /** Lines 202-216: one clause listing the candidates of each exposed zero,
      then, for each candidate met for the first time, a clause forbidding it
      together with each close candidate not met before. */
  method BuildCnf(nbhs: seq<(Point, set<Point>)>, keys: seq<Point>, ids: map<Point, int>, k: int)
    returns (cnf: seq<seq<int>>, ghost reasons: seq<Reason>)
    requires forall q :: q in keys <==> q in ids
    requires forall i, j :: 0 <= i < j < |keys| ==> keys[i] != keys[j]
    requires forall i :: 0 <= i < |nbhs| ==> nbhs[i].1 <= ids.Keys
    ensures Written(cnf, reasons, ids)
    ensures forall z, cands :: AtLeastOne(z, cands) in reasons <==> (z, cands) in nbhs
    ensures PairsInvariant(reasons, Covered(nbhs), ids, k)
  {
    cnf := [];
    reasons := [];
    var handled := {};
    for i := 0 to |nbhs|
      invariant Written(cnf, reasons, ids)
      invariant forall z, cands :: AtLeastOne(z, cands) in reasons <==> (z, cands) in nbhs[..i]
      invariant forall q :: q in handled <==> exists j :: 0 <= j < i && q in nbhs[j].1
      invariant PairsInvariant(reasons, handled, ids, k)
    {
      var (zero, cands) := nbhs[i];
      var clause := ListIds(cands, ids);
      var cells := Sets.Enumerate(cands);
      ZeroStep(cnf, reasons, handled, ids, k, clause, zero, cands);
      var pairCls, pairRs, handledOut := HandleCells(cells, keys, handled, ids, k, reasons + [AtLeastOne(zero, cands)]);
      ZeroStepDone(cnf + [clause], reasons + [AtLeastOne(zero, cands)], pairCls, pairRs, ids, nbhs, i);
      cnf := cnf + [clause] + pairCls;
      reasons := reasons + [AtLeastOne(zero, cands)] + pairRs;
      handled := handledOut;
    }
    assert nbhs[..|nbhs|] == nbhs;
  }

  /** Appending the clause that lists a zero's candidates keeps the clause list
      written and the pair invariant. */
  lemma ZeroStep(cnf: seq<seq<int>>, reasons: seq<Reason>, handled: set<Point>, ids: map<Point, int>, k: int,
                 clause: seq<int>, zero: Point, cands: set<Point>)
    requires Written(cnf, reasons, ids) && PairsInvariant(reasons, handled, ids, k)
    requires cands <= ids.Keys && |clause| == |cands|
    requires forall lit :: lit in clause <==> exists p :: p in cands && ids[p] == lit
    ensures Written(cnf + [clause], reasons + [AtLeastOne(zero, cands)], ids)
    ensures PairsInvariant(reasons + [AtLeastOne(zero, cands)], handled, ids, k)
  {
    var all := reasons + [AtLeastOne(zero, cands)];
    assert forall i :: 0 <= i < |reasons| ==> all[i] == reasons[i];
    assert forall r :: r in all && r.NotBoth? ==> r in reasons;
  }

  /** After the pair clauses of zero i, the list clauses are those of the
      first i + 1 zeros. */
  lemma ZeroStepDone(cnf: seq<seq<int>>, reasons: seq<Reason>, more: seq<seq<int>>, rs: seq<Reason>,
                     ids: map<Point, int>, nbhs: seq<(Point, set<Point>)>, i: int)
    requires 0 <= i < |nbhs| && |reasons| > 0 && reasons[|reasons| - 1] == AtLeastOne(nbhs[i].0, nbhs[i].1)
    requires forall z, cands :: AtLeastOne(z, cands) in reasons[..|reasons| - 1] <==> (z, cands) in nbhs[..i]
    requires Written(cnf, reasons, ids) && Written(more, rs, ids)
    requires forall m :: 0 <= m < |rs| ==> rs[m].NotBoth?
    ensures Written(cnf + more, reasons + rs, ids)
    ensures forall z, cands :: AtLeastOne(z, cands) in reasons + rs <==> (z, cands) in nbhs[..i + 1]
  {
    WrittenAppend(cnf, reasons, more, rs, ids);
    assert nbhs[..i + 1] == nbhs[..i] + [nbhs[i]];
    assert reasons == reasons[..|reasons| - 1] + [reasons[|reasons| - 1]];
    forall z, cands | AtLeastOne(z, cands) in reasons + rs
      ensures AtLeastOne(z, cands) in reasons
    {
      var m :| 0 <= m < |reasons + rs| && (reasons + rs)[m] == AtLeastOne(z, cands);
      if m >= |reasons| {
        assert rs[m - |reasons|].NotBoth?;
      }
    }
  }

  // ---------------------------------------------------------------------
  // What the clauses mean

  /** The clauses are satisfiable exactly when the tile can be completed. */
  lemma CnfMeaning(ones: set<Point>, tilewidth: int, tileheight: int, k: int, nbhs: seq<(Point, set<Point>)>,
                   ids: map<Point, int>, cnf: seq<seq<int>>, reasons: seq<Reason>)
    requires forall z, cands :: (z, cands) in nbhs <==>
               z in Exposed(ones, tilewidth, tileheight, k) && cands == Candidates(z, ones, tilewidth, tileheight, k)
    requires ids.Keys == Phantoms(ones, tilewidth, tileheight, k) && Numbering(ids)
    requires Written(cnf, reasons, ids)
    requires forall z, cands :: AtLeastOne(z, cands) in reasons <==> (z, cands) in nbhs
    requires PairsInvariant(reasons, ids.Keys, ids, k)
    ensures Satisfiable(cnf) <==> Completable(ones, tilewidth, tileheight, k)
  {
    if Satisfiable(cnf) {
      var a :| Satisfies(a, cnf);
      ListMeaning(a, cnf, reasons, ids);
      SatisfiedCompletes(ones, tilewidth, tileheight, k, nbhs, ids, reasons, Decode(a, ids));
    }
    if Completable(ones, tilewidth, tileheight, k) {
      var anchors :| Completes(anchors, ones, tilewidth, tileheight, k);
      var used := anchors * ids.Keys;
      CompletesMeetsReasons(ones, tilewidth, tileheight, k, nbhs, ids, reasons, anchors);
      DecodeEncode(used, ids);
      ListMeaning(Encode(used, ids), cnf, reasons, ids);
    }
  }

  /** Every numbered cell is a candidate of some exposed zero. */
  lemma PhantomOf(ones: set<Point>, tilewidth: int, tileheight: int, k: int, p: Point) returns (z: Point)
    requires p in Phantoms(ones, tilewidth, tileheight, k)
    ensures z in Exposed(ones, tilewidth, tileheight, k) && p in Candidates(z, ones, tilewidth, tileheight, k)
  {
    z :| z in Exposed(ones, tilewidth, tileheight, k) && p in Candidates(z, ones, tilewidth, tileheight, k);
  }

  /** Cells meeting every reason complete the tile. */
  lemma SatisfiedCompletes(ones: set<Point>, tilewidth: int, tileheight: int, k: int, nbhs: seq<(Point, set<Point>)>,
                           ids: map<Point, int>, reasons: seq<Reason>, anchors: set<Point>)
    requires forall z, cands :: (z, cands) in nbhs <==>
               z in Exposed(ones, tilewidth, tileheight, k) && cands == Candidates(z, ones, tilewidth, tileheight, k)
    requires ids.Keys == Phantoms(ones, tilewidth, tileheight, k)
    requires forall z, cands :: AtLeastOne(z, cands) in reasons <==> (z, cands) in nbhs
    requires PairsCovered(reasons, ids.Keys, ids, k)
    requires anchors <= ids.Keys
    requires forall i :: 0 <= i < |reasons| ==> Holds(anchors, reasons[i])
    ensures Completable(ones, tilewidth, tileheight, k)
  {
    forall p | p in anchors
      ensures !InsideArea(p, 0, 0, tilewidth, tileheight) && p !in Exposure.ExclusionSet(ones, tilewidth, tileheight, k)
    {
      var z := PhantomOf(ones, tilewidth, tileheight, k, p);
    }
    SatisfiedDominates(ones, tilewidth, tileheight, k, nbhs, reasons, anchors);
    SatisfiedApart(ids, reasons, anchors, k);
    assert Completes(anchors, ones, tilewidth, tileheight, k);
  }

  /** Cells meeting every list clause dominate every exposed zero. */
  lemma SatisfiedDominates(ones: set<Point>, tilewidth: int, tileheight: int, k: int, nbhs: seq<(Point, set<Point>)>,
                           reasons: seq<Reason>, anchors: set<Point>)
    requires forall z, cands :: (z, cands) in nbhs <==>
               z in Exposed(ones, tilewidth, tileheight, k) && cands == Candidates(z, ones, tilewidth, tileheight, k)
    requires forall z, cands :: AtLeastOne(z, cands) in reasons <==> (z, cands) in nbhs
    requires forall i :: 0 <= i < |reasons| ==> Holds(anchors, reasons[i])
    ensures forall z :: z in Exposed(ones, tilewidth, tileheight, k) ==> exists p :: p in anchors && IsManhattanClose(p, z, k)
  {
    forall z | z in Exposed(ones, tilewidth, tileheight, k)
      ensures exists p :: p in anchors && IsManhattanClose(p, z, k)
    {
      var cands := Candidates(z, ones, tilewidth, tileheight, k);
      assert (z, cands) in nbhs;
      var i :| 0 <= i < |reasons| && reasons[i] == AtLeastOne(z, cands);
      assert Holds(anchors, reasons[i]);
      var p :| p in anchors && p in cands;
    }
  }

  /** Numbered cells meeting every pair clause are pairwise farther than k. */
  lemma SatisfiedApart(ids: map<Point, int>, reasons: seq<Reason>, anchors: set<Point>, k: int)
    requires PairsCovered(reasons, ids.Keys, ids, k)
    requires anchors <= ids.Keys
    requires forall i :: 0 <= i < |reasons| ==> Holds(anchors, reasons[i])
    ensures forall p, q :: p in anchors && q in anchors && p != q ==> !IsManhattanClose(p, q, k)
  {
    forall p, q | p in anchors && q in anchors && p != q
      ensures !IsManhattanClose(p, q, k)
    {
      if IsManhattanClose(p, q, k) {
        var i := PairClauseOf(ids, reasons, k, p, q);
        assert false;
      }
    }
  }

  /** Two close numbered cells have a pair clause, in one order or the other. */
  lemma PairClauseOf(ids: map<Point, int>, reasons: seq<Reason>, k: int, p: Point, q: Point) returns (i: int)
    requires PairsCovered(reasons, ids.Keys, ids, k)
    requires p in ids && q in ids && p != q && IsManhattanClose(p, q, k)
    ensures 0 <= i < |reasons| && (reasons[i] == NotBoth(p, q) || reasons[i] == NotBoth(q, p))
  {
    if NotBoth(p, q) in reasons {
      i :| 0 <= i < |reasons| && reasons[i] == NotBoth(p, q);
    } else {
      i :| 0 <= i < |reasons| && reasons[i] == NotBoth(q, p);
    }
  }

  /** The candidate cells of a completing set of anchors meet every reason. */
  lemma CompletesMeetsReasons(ones: set<Point>, tilewidth: int, tileheight: int, k: int,
                              nbhs: seq<(Point, set<Point>)>, ids: map<Point, int>, reasons: seq<Reason>,
                              anchors: set<Point>)
    requires forall z, cands :: (z, cands) in nbhs <==>
               z in Exposed(ones, tilewidth, tileheight, k) && cands == Candidates(z, ones, tilewidth, tileheight, k)
    requires ids.Keys == Phantoms(ones, tilewidth, tileheight, k)
    requires forall z, cands :: AtLeastOne(z, cands) in reasons <==> (z, cands) in nbhs
    requires PairsSound(reasons, ids, k)
    requires Completes(anchors, ones, tilewidth, tileheight, k)
    ensures forall i :: 0 <= i < |reasons| ==> Holds(anchors * ids.Keys, reasons[i])
  {
    forall i | 0 <= i < |reasons|
      ensures Holds(anchors * ids.Keys, reasons[i])
    {
      match reasons[i]
      case AtLeastOne(z, cands) =>
        assert (z, cands) in nbhs;
        var p :| p in anchors && IsManhattanClose(p, z, k);
        assert p in cands;
        assert p in Phantoms(ones, tilewidth, tileheight, k);
      case NotBoth(a, b) =>
    }
  }

  // ---------------------------------------------------------------------
  // The check itself

  /** `cnfsat_verify(ones, tilewidth, tileheight, k)`.  The solver is asked
      only when some zero is exposed and every exposed zero has a candidate
      cell; `cnf` is the clause list it is asked about, empty otherwise. */
  method CnfsatVerify(ones: set<Point>, tilewidth: int, tileheight: int, k: int,
                      solve: seq<seq<int>> -> SatAnswer)
    returns (result: Option<set<Point>>, cnf: seq<seq<int>>)
    ensures result == None || result == Some(ones)
    ensures Exposed(ones, tilewidth, tileheight, k) == {} ==> result == Some(ones) && cnf == []
    ensures (exists z :: z in Exposed(ones, tilewidth, tileheight, k) && Candidates(z, ones, tilewidth, tileheight, k) == {})
            ==> result == None && cnf == []
    ensures Exposed(ones, tilewidth, tileheight, k) != {}
            && (forall z :: z in Exposed(ones, tilewidth, tileheight, k) ==> Candidates(z, ones, tilewidth, tileheight, k) != {})
            ==> cnf != []
    ensures cnf != [] ==> (result.Some? <==> solve(cnf) != Unsat)
    ensures cnf != [] ==> (Satisfiable(cnf) <==> Completable(ones, tilewidth, tileheight, k))
    ensures Decides(solve, cnf) ==> (result.Some? <==> Completable(ones, tilewidth, tileheight, k))
  {
    var zeroes := Exposure.GetNondominatedZeroes(ones, tilewidth, tileheight, tilewidth, k);
    if zeroes == {} {
      NothingExposed(ones, tilewidth, tileheight, k);
      return Some(ones), [];
    }
    var nbhs := CandidateCells(ones, tilewidth, tileheight, k, zeroes);
    var stranded := FirstStranded(nbhs);
    if stranded < |nbhs| {
      StrandedZero(ones, tilewidth, tileheight, k, nbhs[stranded].0);
      return None, [];
    }
    NoneStranded(ones, tilewidth, tileheight, k, nbhs);
    cnf := PhantomCnf(ones, tilewidth, tileheight, k, nbhs);
    if solve(cnf) != Unsat {
      result := Some(ones);
    } else {
      result := None;
    }
  }

  /** Lines 188-192: each exposed zero paired with its candidate cells, the
      cells outside the tile within k of it minus the excluded ones. */
  method CandidateCells(ones: set<Point>, tilewidth: int, tileheight: int, k: int, zeroes: set<Point>)
    returns (nbhs: seq<(Point, set<Point>)>)
    requires zeroes != {} && zeroes == Exposed(ones, tilewidth, tileheight, k)
    ensures nbhs != []
    ensures forall z, cands :: (z, cands) in nbhs <==>
              z in Exposed(ones, tilewidth, tileheight, k) && cands == Candidates(z, ones, tilewidth, tileheight, k)
  {
    var exclusion := Exposure.GetExclusionSet(ones, tilewidth, tileheight, k);
    var neighborhoods := Exposure.NondominatedZeroNeighborhoods(tilewidth, tileheight, zeroes, k);
    // line 191 sorts the pairs by the size of their sets; any order will do
    var order := Sets.Enumerate(zeroes);
    nbhs := seq(|order|, i requires 0 <= i < |order| => (order[i], neighborhoods[order[i]] - exclusion));
    NeighborhoodsAre(ones, tilewidth, tileheight, k, order, nbhs);
  }

  /** Lines 193-195: the position of the first zero without candidate cells,
      or the length of the list when there is none. */
  method FirstStranded(nbhs: seq<(Point, set<Point>)>) returns (i: int)
    ensures 0 <= i <= |nbhs|
    ensures i < |nbhs| ==> nbhs[i].1 == {}
    ensures forall j :: 0 <= j < i ==> nbhs[j].1 != {}
  {
    i := 0;
    while i < |nbhs| && nbhs[i].1 != {}
      invariant 0 <= i <= |nbhs|
      invariant forall j :: 0 <= j < i ==> nbhs[j].1 != {}
    {
      i := i + 1;
    }
  }

  /** Lines 197-216: number the candidate cells and write the clauses; they are
      satisfiable exactly when the tile can be completed. */
  method PhantomCnf(ones: set<Point>, tilewidth: int, tileheight: int, k: int, nbhs: seq<(Point, set<Point>)>)
    returns (cnf: seq<seq<int>>)
    requires nbhs != []
    requires forall z, cands :: (z, cands) in nbhs <==>
               z in Exposed(ones, tilewidth, tileheight, k) && cands == Candidates(z, ones, tilewidth, tileheight, k)
    ensures cnf != []
    ensures Satisfiable(cnf) <==> Completable(ones, tilewidth, tileheight, k)
  {
    var cells := Covered(nbhs);
    CoveredIsPhantoms(ones, tilewidth, tileheight, k, nbhs);
    var ids := AssignIds(cells);
    var keys := Sets.Enumerate(cells);
    ghost var reasons;
    cnf, reasons := BuildCnf(nbhs, keys, ids, k);
    CnfMeaning(ones, tilewidth, tileheight, k, nbhs, ids, cnf, reasons);
    assert AtLeastOne(nbhs[0].0, nbhs[0].1) in reasons;
  }

  /** The cells listed by the pairs are the candidate cells of the exposed zeros. */
  lemma CoveredIsPhantoms(ones: set<Point>, tilewidth: int, tileheight: int, k: int, nbhs: seq<(Point, set<Point>)>)
    requires forall z, cands :: (z, cands) in nbhs <==>
               z in Exposed(ones, tilewidth, tileheight, k) && cands == Candidates(z, ones, tilewidth, tileheight, k)
    ensures Covered(nbhs) == Phantoms(ones, tilewidth, tileheight, k)
  {
    forall p | p in Phantoms(ones, tilewidth, tileheight, k)
      ensures p in Covered(nbhs)
    {
      var z := PhantomOf(ones, tilewidth, tileheight, k, p);
      var i :| 0 <= i < |nbhs| && nbhs[i] == (z, Candidates(z, ones, tilewidth, tileheight, k));
    }
    forall p | p in Covered(nbhs)
      ensures p in Phantoms(ones, tilewidth, tileheight, k)
    {
      var i :| 0 <= i < |nbhs| && p in nbhs[i].1;
      assert nbhs[i] in nbhs;
    }
  }

  /** When every listed zero has a candidate cell, no exposed zero is stranded. */
  lemma NoneStranded(ones: set<Point>, tilewidth: int, tileheight: int, k: int, nbhs: seq<(Point, set<Point>)>)
    requires forall z, cands :: (z, cands) in nbhs <==>
               z in Exposed(ones, tilewidth, tileheight, k) && cands == Candidates(z, ones, tilewidth, tileheight, k)
    requires forall j :: 0 <= j < |nbhs| ==> nbhs[j].1 != {}
    ensures forall z :: z in Exposed(ones, tilewidth, tileheight, k) ==> Candidates(z, ones, tilewidth, tileheight, k) != {}
  {
    forall z | z in Exposed(ones, tilewidth, tileheight, k)
      ensures Candidates(z, ones, tilewidth, tileheight, k) != {}
    {
      assert (z, Candidates(z, ones, tilewidth, tileheight, k)) in nbhs;
      var i :| 0 <= i < |nbhs| && nbhs[i] == (z, Candidates(z, ones, tilewidth, tileheight, k));
    }
  }

  lemma NeighborhoodsAre(ones: set<Point>, tilewidth: int, tileheight: int, k: int, order: seq<Point>,
                         nbhs: seq<(Point, set<Point>)>)
    requires forall z :: z in order <==> z in Exposed(ones, tilewidth, tileheight, k)
    requires |nbhs| == |order|
    requires forall i :: 0 <= i < |order| ==> nbhs[i] == (order[i], Candidates(order[i], ones, tilewidth, tileheight, k))
    ensures forall z, cands :: (z, cands) in nbhs <==>
              z in Exposed(ones, tilewidth, tileheight, k) && cands == Candidates(z, ones, tilewidth, tileheight, k)
  {
    forall z | z in Exposed(ones, tilewidth, tileheight, k)
      ensures (z, Candidates(z, ones, tilewidth, tileheight, k)) in nbhs
    {
      var i :| 0 <= i < |order| && order[i] == z;
      assert nbhs[i] == (z, Candidates(z, ones, tilewidth, tileheight, k));
    }
  }

  /** Lines 43-46 of `main`: keep the finished tiles the check accepts, in
      order.  With a solver that answers correctly, these are exactly the
      completable ones. */
  method KeepCompletable(finished: seq<set<Point>>, tilewidth: int, tileheight: int, k: int,
                         solve: seq<seq<int>> -> SatAnswer)
    returns (valid: seq<set<Point>>)
    ensures forall t :: t in valid ==> t in finished
    ensures SolverCorrect(solve) ==>
              forall t :: t in valid <==> t in finished && Completable(t, tilewidth, tileheight, k)
  {
    valid := [];
    for i := 0 to |finished|
      invariant forall t :: t in valid ==> t in finished[..i]
      invariant SolverCorrect(solve) ==>
                  forall t :: t in valid <==> t in finished[..i] && Completable(t, tilewidth, tileheight, k)
    {
      var tile := finished[i];
      var result, cnf := CnfsatVerify(tile, tilewidth, tileheight, k, solve);
      assert finished[..i + 1] == finished[..i] + [tile];
      if result != None {
        valid := valid + [tile];
      }
    }
    assert finished[..|finished|] == finished;
  }
}
