/** `extend_valid`: the admissible next columns of a partial tile.  The new
    column sits at x = tilewidth - 1, where tilewidth is the width after the
    extension. */
module Extend {

  import opened Geometry
  import Sets

  /** The rows of a column placed as grid points at x. */
  function Place(col: set<int>, x: int): (placed: set<Point>)
    ensures forall p :: p in placed <==> p.x == x && p.y in col
  {
    set y | y in col :: Point(x, y)
  }

  /** Row `row` of the new column is within distance k of an anchor: an anchor
      there would break the separation ("-1" in the source). */
  ghost predicate Forbidden(oneSet: set<Point>, tilewidth: int, k: int, row: int)
  {
    exists one :: one in oneSet && IsManhattanClose(one, Point(tilewidth - 1, row), k)
  }

  /** The lookahead cell (tilewidth-1-k, row) is in the band [k, tileheight-k),
      the tile is wider than 2k, and no anchor is within distance k of the cell:
      the row must be marked now ("1" in the source). */
  ghost predicate Forced(oneSet: set<Point>, tilewidth: int, tileheight: int, k: int, row: int)
  {
    && tilewidth - 2 * k > 0
    && k <= row < tileheight - k
    && forall one :: one in oneSet ==> !IsManhattanClose(Point(tilewidth - 1 - k, row), one, k)
  }

  /** The tri-state row eligibility once both marking passes have run; the
      forced marks are written last, so they win over the forbidden ones. */
  ghost function Eligibility(oneSet: set<Point>, tilewidth: int, tileheight: int, k: int, row: int): int
  {
    if Forced(oneSet, tilewidth, tileheight, k, row) then 1
    else if Forbidden(oneSet, tilewidth, k, row) then -1
    else 0
  }

  /** The filter at lines 125-133, stated on the rows of a candidate column. */
  ghost predicate Admissible(col: set<int>, oneSet: set<Point>, tilewidth: int, tileheight: int, k: int)
  {
    forall row :: 0 <= row < tileheight ==>
      && (Eligibility(oneSet, tilewidth, tileheight, k, row) == -1 ==> row !in col)
      && (Eligibility(oneSet, tilewidth, tileheight, k, row) == 1 ==> row in col)
  }

  /** The inner while loop at lines 99-108 for one anchor: mark every row of the
      new column within distance k of `one` as -1.  The loop stops at the first
      row that is not close after a close one; nothing is lost, because the
      close rows form one contiguous run. */
  method MarkCloseRows(elig: array<int>, one: Point, tilewidth: int, k: nat)
    modifies elig
    ensures forall i :: 0 <= i < elig.Length ==>
      elig[i] == if IsManhattanClose(one, Point(tilewidth - 1, i), k) then -1 else old(elig[i])
  {
    var x := tilewidth - 1;
    var i := 0;
    var bypassed := false;
    ghost var seen := -1;
    while i < elig.Length
      invariant 0 <= i <= elig.Length
      invariant bypassed ==> 0 <= seen < i && IsManhattanClose(one, Point(x, seen), k)
      invariant !bypassed ==> forall j :: 0 <= j < i ==> !IsManhattanClose(one, Point(x, j), k)
      invariant forall j :: 0 <= j < i ==>
        elig[j] == if IsManhattanClose(one, Point(x, j), k) then -1 else old(elig[j])
      invariant forall j :: i <= j < elig.Length ==> elig[j] == old(elig[j])
    {
      if IsManhattanClose(one, Point(x, i), k) {
        bypassed := true;
        seen := i;
        elig[i] := -1;
      } else if bypassed {
        assert forall j :: i <= j < elig.Length ==> !IsManhattanClose(one, Point(x, j), k);
        break;
      }
      i := i + 1;
    }
  }

  /** Lines 97-108: after this pass a row holds -1 exactly when some anchor is
      within distance k of its cell in the new column (all rows start at 0). */
  method MarkForbiddenRows(elig: array<int>, oneSet: set<Point>, tilewidth: int, k: nat)
    requires forall i :: 0 <= i < elig.Length ==> elig[i] == 0
    modifies elig
    ensures forall i :: 0 <= i < elig.Length ==>
      elig[i] == if Forbidden(oneSet, tilewidth, k, i) then -1 else 0
  {
    var todo := oneSet;
    while todo != {}
      invariant todo <= oneSet
      invariant forall i :: 0 <= i < elig.Length ==>
        elig[i] == if Forbidden(oneSet - todo, tilewidth, k, i) then -1 else 0
      decreases |todo|
    {
      Sets.NonEmpty(todo);
      var one :| one in todo;
      ghost var done := oneSet - todo;
      if one.x >= tilewidth - 1 - k {
        MarkCloseRows(elig, one, tilewidth, k);
      }
      todo := todo - {one};
      assert oneSet - todo == done + {one};
    }
    assert oneSet - todo == oneSet;
  }

  /** The lookahead cells of column tilewidth-1-k, rows [k, tileheight-k), that
      no anchor of `done` with x >= tilewidth-2k-1 covers. */
  ghost function Uncovered(done: set<Point>, tilewidth: int, tileheight: int, k: int): set<Point>
  {
    var x := tilewidth - 1 - k;
    set y | k <= y < tileheight - k
      && (forall one :: one in done && one.x >= tilewidth - 2 * k - 1 ==>
            !IsManhattanClose(Point(x, y), one, k))
      :: Point(x, y)
  }

  /** The loop at lines 117-119: the candidates within distance k of `one`. */
  method CloseCandidates(cands: set<Point>, one: Point, k: nat) returns (deleteSet: set<Point>)
    ensures deleteSet == set p | p in cands && IsManhattanClose(p, one, k)
  {
    deleteSet := {};
    var todo := cands;
    while todo != {}
      invariant todo <= cands
      invariant deleteSet == set p | p in cands - todo && IsManhattanClose(p, one, k)
      decreases |todo|
    {
      Sets.NonEmpty(todo);
      var nondom :| nondom in todo;
      if IsManhattanClose(nondom, one, k) {
        deleteSet := deleteSet + {nondom};
      }
      todo := todo - {nondom};
    }
  }

  /** Lines 112-122: the lookahead cells left once every anchor has removed
      the cells it covers, i.e. the cells of the forced rows.  The loop leaves
      early once nothing is left. */
  method ForcedCells(oneSet: set<Point>, tilewidth: int, tileheight: int, k: nat) returns (cands: set<Point>)
    requires tilewidth - 2 * k > 0
    ensures forall p :: p in cands <==> p.x == tilewidth - 1 - k && Forced(oneSet, tilewidth, tileheight, k, p.y)
  {
    var x := tilewidth - 1 - k;
    cands := set y | k <= y < tileheight - k :: Point(x, y);
    assert cands == Uncovered({}, tilewidth, tileheight, k);
    var todo := oneSet;
    while todo != {}
      invariant todo <= oneSet
      invariant cands == Uncovered(oneSet - todo, tilewidth, tileheight, k)
      decreases |todo|
    {
      Sets.NonEmpty(todo);
      var one :| one in todo;
      ghost var done := oneSet - todo;
      var deleteSet := {};
      if one.x >= tilewidth - 2 * k - 1 {
        deleteSet := CloseCandidates(cands, one, k);
      }
      UncoveredStep(done, one, tilewidth, tileheight, k);
      cands := cands - deleteSet;
      todo := todo - {one};
      assert oneSet - todo == done + {one};
      if cands == {} {
        UncoveredShrinks(oneSet - todo, oneSet, tilewidth, tileheight, k);
        break;
      }
    }
    assert todo == {} ==> oneSet - todo == oneSet;
    UncoveredAreForced(oneSet, tilewidth, tileheight, k);
  }

  /** Lines 109-124: when tilewidth - 2k > 0, every row whose lookahead cell no
      anchor covers is set to 1, over whatever the row held; other rows keep
      their value. */
  method MarkForcedRows(elig: array<int>, oneSet: set<Point>, tilewidth: int, k: nat)
    modifies elig
    ensures forall i :: 0 <= i < elig.Length ==>
      elig[i] == if Forced(oneSet, tilewidth, elig.Length, k, i) then 1 else old(elig[i])
  {
    var tileheight := elig.Length;
    if tilewidth - 2 * k > 0 {
      var x := tilewidth - 1 - k;
      var cands := ForcedCells(oneSet, tilewidth, tileheight, k);
      var rest := cands;
      while rest != {}
        invariant rest <= cands
        invariant forall i :: 0 <= i < tileheight ==>
          elig[i] == if Point(x, i) in cands - rest then 1 else old(elig[i])
        decreases |rest|
      {
        Sets.NonEmpty(rest);
        var nondom :| nondom in rest;
        elig[nondom.y] := 1;
        rest := rest - {nondom};
      }
    }
  }

  /** One more anchor removes exactly the cells it covers (none when it lies
      left of column tilewidth-2k-1). */
  lemma UncoveredStep(done: set<Point>, one: Point, tilewidth: int, tileheight: int, k: int)
    ensures Uncovered(done + {one}, tilewidth, tileheight, k) ==
      Uncovered(done, tilewidth, tileheight, k) -
        (if one.x >= tilewidth - 2 * k - 1
         then set p | p in Uncovered(done, tilewidth, tileheight, k) && IsManhattanClose(p, one, k)
         else {})
  {
  }

  lemma UncoveredAreForced(oneSet: set<Point>, tilewidth: int, tileheight: int, k: nat)
    requires tilewidth - 2 * k > 0
    ensures forall p :: p in Uncovered(oneSet, tilewidth, tileheight, k) <==>
      p.x == tilewidth - 1 - k && Forced(oneSet, tilewidth, tileheight, k, p.y)
  {
    forall p
      ensures p in Uncovered(oneSet, tilewidth, tileheight, k) <==>
        p.x == tilewidth - 1 - k && Forced(oneSet, tilewidth, tileheight, k, p.y)
    {
      FarAnchorsCoverNothing(oneSet, tilewidth, tileheight, k, p.y);
    }
  }

  /** More anchors cover more: the uncovered set only shrinks. */
  lemma UncoveredShrinks(done: set<Point>, more: set<Point>, tilewidth: int, tileheight: int, k: int)
    requires done <= more
    ensures Uncovered(more, tilewidth, tileheight, k) <= Uncovered(done, tilewidth, tileheight, k)
  {
  }

  /** An anchor left of column tilewidth-2k-1 is farther than k from every
      lookahead cell, so the x-filter at line 116 changes nothing. */
  lemma FarAnchorsCoverNothing(oneSet: set<Point>, tilewidth: int, tileheight: int, k: nat, y: int)
    requires tilewidth - 2 * k > 0
    ensures Point(tilewidth - 1 - k, y) in Uncovered(oneSet, tilewidth, tileheight, k)
        <==> Forced(oneSet, tilewidth, tileheight, k, y)
  {
    var cell := Point(tilewidth - 1 - k, y);
    if Forced(oneSet, tilewidth, tileheight, k, y) {
      assert cell in Uncovered(oneSet, tilewidth, tileheight, k);
    }
    if cell in Uncovered(oneSet, tilewidth, tileheight, k) {
      forall one | one in oneSet
        ensures !IsManhattanClose(cell, one, k)
      {
        if one.x < tilewidth - 2 * k - 1 {
          assert Manhattan(cell, one) > k;
        }
      }
    }
  }

  /** The row test at lines 127-133 for one placed column, on the row array `e`. */
  ghost predicate FitsRows(column: set<Point>, x: int, e: seq<int>)
  {
    forall row :: 0 <= row < |e| ==>
      && (e[row] == -1 ==> Point(x, row) !in column)
      && (e[row] == 1 ==> Point(x, row) in column)
  }

  /** Lines 125-135: keep the placed candidate columns that mark no -1 row and
      mark every 1 row. */
  method FilterColumns(placed: set<set<Point>>, elig: array<int>, x: int) returns (validColumns: set<set<Point>>)
    ensures validColumns == set c | c in placed && FitsRows(c, x, elig[..])
  {
    validColumns := {};
    var todo := placed;
    while todo != {}
      invariant todo <= placed
      invariant validColumns == set c | c in placed - todo && FitsRows(c, x, elig[..])
      decreases |todo|
    {
      Sets.NonEmpty(todo);
      var column :| column in todo;
      var isValid := true;
      for row := 0 to elig.Length
        invariant forall r :: 0 <= r < row ==>
          && (elig[r] == -1 ==> Point(x, r) !in column)
          && (elig[r] == 1 ==> Point(x, r) in column)
      {
        if elig[row] == -1 && Point(x, row) in column {
          isValid := false;
          break;
        }
        if elig[row] == 1 && Point(x, row) !in column {
          isValid := false;
          break;
        }
      }
      assert isValid <==> FitsRows(column, x, elig[..]);
      if isValid {
        validColumns := validColumns + {column};
      }
      todo := todo - {column};
    }
    assert placed - todo == placed;
  }

  /** Row by row, the array after both marking passes agrees with Eligibility,
      so the row test on a placed column is the admissibility of its rows. */
  lemma FitsIffAdmissible(col: set<int>, e: seq<int>, oneSet: set<Point>, tilewidth: int, k: int)
    requires forall i :: 0 <= i < |e| ==> e[i] == Eligibility(oneSet, tilewidth, |e|, k, i)
    ensures FitsRows(Place(col, tilewidth - 1), tilewidth - 1, e) <==> Admissible(col, oneSet, tilewidth, |e|, k)
  {
  }

  /** The extensions of `oneSet`: each admissible candidate column placed at
      x = tilewidth - 1 and joined to the anchors already placed. */
  ghost function Extensions(oneSet: set<Point>, candidateColumns: set<set<int>>, tilewidth: int, tileheight: int, k: int)
    : set<set<Point>>
  {
    set c | c in candidateColumns && Admissible(c, oneSet, tilewidth, tileheight, k) :: oneSet + Place(c, tilewidth - 1)
  }

  /** Each extension is the old tile plus one admissible candidate column at
      x = tilewidth - 1. */
  lemma ExtensionColumn(oneSet: set<Point>, candidateColumns: set<set<int>>, tilewidth: int, tileheight: int, k: int,
                        t: set<Point>) returns (c: set<int>)
    requires t in Extensions(oneSet, candidateColumns, tilewidth, tileheight, k)
    ensures c in candidateColumns && Admissible(c, oneSet, tilewidth, tileheight, k)
    ensures t == oneSet + Place(c, tilewidth - 1)
  {
    c :| c in candidateColumns && Admissible(c, oneSet, tilewidth, tileheight, k) && t == oneSet + Place(c, tilewidth - 1);
  }

  /** Every extension keeps the old anchors and adds points only in column
      tilewidth - 1; there is none exactly when no candidate is admissible. */
  lemma ExtensionsShape(oneSet: set<Point>, candidateColumns: set<set<int>>, tilewidth: int, tileheight: int, k: int)
    ensures forall t :: t in Extensions(oneSet, candidateColumns, tilewidth, tileheight, k) ==>
              oneSet <= t && forall p :: p in t && p !in oneSet ==> p.x == tilewidth - 1
    ensures Extensions(oneSet, candidateColumns, tilewidth, tileheight, k) == {}
        <==> forall c :: c in candidateColumns ==> !Admissible(c, oneSet, tilewidth, tileheight, k)
  {
    forall t | t in Extensions(oneSet, candidateColumns, tilewidth, tileheight, k)
      ensures oneSet <= t && forall p :: p in t && p !in oneSet ==> p.x == tilewidth - 1
    {
      var c := ExtensionColumn(oneSet, candidateColumns, tilewidth, tileheight, k, t);
    }
    forall c | c in candidateColumns && Admissible(c, oneSet, tilewidth, tileheight, k)
      ensures oneSet + Place(c, tilewidth - 1) in Extensions(oneSet, candidateColumns, tilewidth, tileheight, k)
    {
    }
  }

  /** There are no more extensions than candidate columns. */
  lemma {:induction false} ExtensionsBound(oneSet: set<Point>, candidateColumns: set<set<int>>, tilewidth: int,
                                           tileheight: int, k: int)
    ensures |Extensions(oneSet, candidateColumns, tilewidth, tileheight, k)| <= |candidateColumns|
    decreases |candidateColumns|
  {
    if candidateColumns != {} {
      Sets.NonEmpty(candidateColumns);
      var c0 :| c0 in candidateColumns;
      var rest := candidateColumns - {c0};
      ExtensionsBound(oneSet, rest, tilewidth, tileheight, k);
      var ext := Extensions(oneSet, candidateColumns, tilewidth, tileheight, k);
      var extRest := Extensions(oneSet, rest, tilewidth, tileheight, k);
      assert ext <= extRest + {oneSet + Place(c0, tilewidth - 1)};
      Sets.SubsetCard(ext, extRest + {oneSet + Place(c0, tilewidth - 1)});
    }
  }

  /** The forced mark of line 124 overwrites the -1 of line 105.  With k = 3
      and the new column at x = 6, the anchor (5, 5) forbids row 3, but the
      lookahead cell (3, 3) is farther than 3 from it, so row 3 is forced.  The
      extension then holds two anchors only 3 apart. */
  lemma ForcedOverridesForbidden()
    ensures Forbidden({Point(5, 5)}, 7, 3, 3) && Forced({Point(5, 5)}, 7, 10, 3, 3)
    ensures {Point(5, 5), Point(6, 3)} in Extensions({Point(5, 5)}, {{3}}, 7, 10, 3)
    ensures IsManhattanClose(Point(5, 5), Point(6, 3), 3)
  {
    var ones := {Point(5, 5)};
    assert IsManhattanClose(Point(5, 5), Point(6, 3), 3);
    forall row | 0 <= row < 10
      ensures Eligibility(ones, 7, 10, 3, row) == -1 ==> row !in {3}
      ensures Eligibility(ones, 7, 10, 3, row) == 1 ==> row in {3}
    {
      if row != 3 && 3 <= row < 7 {
        assert IsManhattanClose(Point(3, row), Point(5, 5), 3);
      }
    }
    assert Admissible({3}, ones, 7, 10, 3);
    assert ones + Place({3}, 6) == {Point(5, 5), Point(6, 3)};
  }

  /** `extend_valid(oneSet, candidate_columns, tilewidth, tileheight, max_width, k)`:
      one extended tile per admissible candidate column, that column placed at
      x = tilewidth - 1 and joined to the anchors already placed. */
  method ExtendValid(oneSet: set<Point>, candidateColumns: set<set<int>>, tilewidth: int, tileheight: nat, k: nat)
    returns (tiles: set<set<Point>>)
    ensures tiles == Extensions(oneSet, candidateColumns, tilewidth, tileheight, k)
  {
    var x := tilewidth - 1;
    var placed := set c | c in candidateColumns :: Place(c, x);
    var elig := new int[tileheight](_ => 0);
    MarkForbiddenRows(elig, oneSet, tilewidth, k);
    MarkForcedRows(elig, oneSet, tilewidth, k);
    assert forall i :: 0 <= i < elig.Length ==> elig[i] == Eligibility(oneSet, tilewidth, tileheight, k, i);
    var validColumns := FilterColumns(placed, elig, x);
    ghost var spec := set c | c in candidateColumns && Admissible(c, oneSet, tilewidth, tileheight, k)
                            :: oneSet + Place(c, x);
    if validColumns == {} {
      tiles := {};
    } else {
      tiles := set c | c in validColumns :: oneSet + c;
    }
    forall t | t in tiles
      ensures t in spec
    {
      var column :| column in validColumns && t == oneSet + column;
      var c :| c in candidateColumns && column == Place(c, x);
      FitsIffAdmissible(c, elig[..], oneSet, tilewidth, k);
    }
    forall c | c in candidateColumns && Admissible(c, oneSet, tilewidth, tileheight, k)
      ensures oneSet + Place(c, x) in tiles
    {
      FitsIffAdmissible(c, elig[..], oneSet, tilewidth, k);
      assert Place(c, x) in validColumns;
    }
    assert tiles == spec;
  }
}
