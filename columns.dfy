/** The column generator: every set of rows of a column of height n whose rows
    are pairwise more than k apart, built one marked row per round. */
module Columns {

  import Sets
  import Bits

  /** A valid column: rows in [0, n), any two of them more than k apart. */
  ghost predicate ValidColumn(col: set<int>, n: int, k: int)
  {
    && (forall i :: i in col ==> 0 <= i < n)
    && (forall i, j :: i in col && j in col && i < j ==> j - i > k)
  }

  /** Highest marked row of a non-empty column. */
  ghost function Top(col: set<int>): (t: int)
    requires col != {}
    ensures t in col && forall j :: j in col ==> j <= t
    decreases |col|
  {
    assert (forall y :: y !in col) ==> col == {};
    var x :| x in col;
    var rest := col - {x};
    assert forall j :: j in col ==> j == x || j in rest;
    if rest == {} then x
    else
      var t := Top(rest);
      if x > t then x else t
  }

  /** Rows below `bound` that the forward scan (lines 67-74) accepts: unmarked,
      and more than k after every marked row before them. */
  ghost function ForwardRows(col: set<int>, bound: int, k: int): set<int>
  {
    set r | 0 <= r < bound && r !in col && forall j :: j in col && 0 <= j < r ==> r - j > k
  }

  /** Rows in [lo, n) that the backward scan (lines 75-82) accepts.  Its marked-row
      branch tests `i in col == 1`, a chained comparison that is always false, so
      the cooldown counter goes negative at the first marked row met from the top
      and stays there: only rows above every marked row are accepted. */
  ghost function BackwardRows(col: set<int>, lo: int, n: int): set<int>
  {
    set r | lo <= r < n && r !in col && forall j :: j in col && 0 <= j < n ==> j < r
  }

  /** The forward scan over rows 0 .. n-1 with the cooldown counter `l`.  As in
      the source, accepting a row adds the whole column with it. */
  method ScanForward(col: set<int>, n: nat, k: nat) returns (post: set<int>)
    ensures post == if ForwardRows(col, n, k) == {} then {} else col + ForwardRows(col, n, k)
  {
    post := {};
    var l := 0;
    for i := 0 to n
      invariant 0 <= l <= k
      invariant l == 0 ==> forall j :: j in col && 0 <= j < i ==> i - j > k
      invariant l > 0 ==> 0 <= i - 1 - k + l < i && i - 1 - k + l in col
      invariant l > 0 ==> forall j :: j in col && 0 <= j < i ==> j <= i - 1 - k + l
      invariant post == if ForwardRows(col, i, k) == {} then {} else col + ForwardRows(col, i, k)
    {
      ghost var before := ForwardRows(col, i, k);
      if i !in col && l == 0 {
        post := post + col + {i};
        assert ForwardRows(col, i + 1, k) == before + {i};
      } else if i in col {
        l := k;
        assert ForwardRows(col, i + 1, k) == before;
      } else {
        assert i - 1 - k + l in col;
        l := l - 1;
        assert ForwardRows(col, i + 1, k) == before;
      }
    }
  }

  /** The backward scan over rows n-1 down to 0, with the quirk described at
      BackwardRows. */
  method ScanBackward(col: set<int>, n: nat) returns (pre: set<int>)
    ensures pre == if BackwardRows(col, 0, n) == {} then {} else col + BackwardRows(col, 0, n)
  {
    pre := {};
    var l := 0;
    var i := n;
    while i > 0
      invariant 0 <= i <= n
      invariant l <= 0
      invariant l == 0 <==> forall j :: i <= j < n ==> j !in col
      invariant pre == if BackwardRows(col, i, n) == {} then {} else col + BackwardRows(col, i, n)
    {
      i := i - 1;
      ghost var before := BackwardRows(col, i + 1, n);
      if i !in col && l == 0 {
        pre := pre + col + {i};
        assert BackwardRows(col, i, n) == before + {i};
      } else {
        // the source's `elif i in col == 1` never holds, so a marked row lands here
        l := l - 1;
        assert BackwardRows(col, i, n) == before;
      }
    }
  }

  /** Every row the two scans both accept keeps a valid column valid. */
  lemma ChildValid(col: set<int>, n: nat, k: nat, x: int)
    requires ValidColumn(col, n, k)
    requires x in col + ForwardRows(col, n, k)
    requires x in col + BackwardRows(col, 0, n)
    ensures ValidColumn(col + {x}, n, k)
  {
    if x !in col {
      assert x in ForwardRows(col, n, k) && x in BackwardRows(col, 0, n);
    }
  }

  /** Removing the highest row of a valid column leaves a valid column from
      which the scans rebuild it. */
  lemma ParentScans(d: set<int>, n: nat, k: nat)
    requires ValidColumn(d, n, k) && d != {}
    ensures ValidColumn(d - {Top(d)}, n, k)
    ensures |d - {Top(d)}| == |d| - 1
    ensures Top(d) in ForwardRows(d - {Top(d)}, n, k)
    ensures Top(d) in BackwardRows(d - {Top(d)}, 0, n)
  {
  }

  /** x * b <= m bounds x by the floor of m / b. */
  lemma MulBoundsDiv(x: int, b: int, m: int)
    requires 0 <= x && 1 <= b && x * b <= m
    ensures x <= m / b
  {
    var q, r := m / b, m % b;
    assert m == q * b + r && 0 <= r < b;
    if x > q {
      Bits.MulMono(x, q + 1, b);
      assert false;
    }
  }

  /** No valid column has more than ceil(n / (k+1)) marked rows: a column of c
      rows spans at least (c - 1)(k + 1) + 1 rows. */
  lemma {:induction false} ColumnSizeBound(c: set<int>, n: int, k: nat)
    requires ValidColumn(c, n, k) && n + k >= 0
    ensures |c| * (k + 1) <= n + k
    decreases |c|
  {
    if c != {} {
      var t := Top(c);
      var rest := c - {t};
      RestBelowTop(c, n, k);
      ColumnSizeBound(rest, t - k, k);
      var s := |rest|;
      assert |c| == s + 1;
      Bits.MulSucc(s, k + 1);
    }
  }

  lemma RestBelowTop(c: set<int>, n: int, k: nat)
    requires ValidColumn(c, n, k) && c != {}
    ensures ValidColumn(c - {Top(c)}, Top(c) - k, k)
    ensures Top(c) < n
  {
  }

  /** One pass of the loop body at lines 63-84 for one column `col`: both scans,
      then `col + {x}` for every row x accepted by both.  What it adds is valid,
      and it adds every valid column whose highest row sits on top of `col`. */
  method GrowColumn(col: set<int>, n: nat, k: nat) returns (grown: set<set<int>>)
    requires ValidColumn(col, n, k)
    ensures forall c :: c in grown ==> ValidColumn(c, n, k)
    ensures forall d :: ValidColumn(d, n, k) && d != {} && d - {Top(d)} == col ==> d in grown
  {
    var post := ScanForward(col, n, k);
    var pre := ScanBackward(col, n);
    grown := set x | x in pre * post :: col + {x};
    forall c | c in grown
      ensures ValidColumn(c, n, k)
    {
      var x :| x in pre * post && c == col + {x};
      ChildValid(col, n, k, x);
    }
    forall d | ValidColumn(d, n, k) && d != {} && d - {Top(d)} == col
      ensures d in grown
    {
      ParentScans(d, n, k);
      assert d == col + {Top(d)};
    }
  }

  /** One round of lines 62-84: grow every column of `old` (`prev` here) by
      one row and collect the results. */
  method GrowAll(prev: set<set<int>>, n: nat, k: nat) returns (next: set<set<int>>)
    requires forall c :: c in prev ==> ValidColumn(c, n, k)
    ensures forall c :: c in next ==> ValidColumn(c, n, k)
    ensures forall d :: ValidColumn(d, n, k) && d != {} && d - {Top(d)} in prev ==> d in next
  {
    next := {};
    var todo := prev;
    while todo != {}
      invariant todo <= prev
      invariant forall c :: c in next ==> ValidColumn(c, n, k)
      invariant forall d :: ValidColumn(d, n, k) && d != {} && d - {Top(d)} in prev - todo ==> d in next
      decreases |todo|
    {
      Sets.NonEmpty(todo);
      var col :| col in todo;
      var grown := GrowColumn(col, n, k);
      next := next + grown;
      todo := todo - {col};
    }
  }

  /** `create_columns(n, k)`: exactly the valid columns, the empty one included,
      after ceil(n / (k+1)) rounds. */
  method CreateColumns(n: nat, k: nat) returns (valid: set<set<int>>)
    ensures forall c :: c in valid <==> ValidColumn(c, n, k)
  {
    valid := {{}};
    var prev: set<set<int>> := {{}};
    var rounds := (n + k) / (k + 1);
    for ones := 1 to rounds + 1
      invariant forall c :: c in valid ==> ValidColumn(c, n, k)
      invariant forall c :: c in prev ==> ValidColumn(c, n, k)
      invariant forall c :: ValidColumn(c, n, k) && |c| == ones - 1 ==> c in prev
      invariant forall c :: ValidColumn(c, n, k) && |c| < ones ==> c in valid
    {
      var next := GrowAll(prev, n, k);
      forall d | ValidColumn(d, n, k) && |d| == ones
        ensures d in next
      {
        ParentScans(d, n, k);
      }
      valid := valid + next;
      prev := next;
    }
    forall c | ValidColumn(c, n, k)
      ensures c in valid
    {
      ColumnSizeBound(c, n, k);
      MulBoundsDiv(|c|, k + 1, n + k);
    }
  }
}
