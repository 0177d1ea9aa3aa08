/** The worklist search in `main` (generate_tiles.py:27-41): start from every
    valid 1 x h tile, extend tiles column by column with `extend_valid`, and
    collect the tiles that reach width w. */
module Search {

  import opened Geometry
  import Sets
  import Columns
  import Bits
  import Extend

  /** A stack entry: the anchors placed so far and the current width. */
  datatype PartialTile = PartialTile(ones: set<Point>, width: int)

  /** The valid columns of height h, the pool `create_columns(h, k)` returns. */
  ghost function ColumnSet(h: nat, k: nat): set<set<int>>
  {
    set c | c <= Bits.Below(h) && Columns.ValidColumn(c, h, k)
  }

  /** The anchors of column x of a tile, as a set of rows. */
  function ColumnOf(t: set<Point>, x: int): (col: set<int>)
    ensures forall y :: y in col <==> Point(x, y) in t
  {
    set p | p in t && p.x == x :: p.y
  }

  /** Every tile of width w that the search reaches from `ones`, a tile of the
      given width: at each step one admissible column is added at x = width. */
  ghost function Completions(ones: set<Point>, width: int, columns: set<set<int>>, w: int, h: nat, k: nat)
    : set<set<Point>>
    decreases w - width
  {
    if width >= w then {ones}
    else
      var next := width + 1;
      set t, f | t in Extend.Extensions(ones, columns, next, h, k) && f in Completions(t, next, columns, w, h, k) :: f
  }

  /** The finished tiles of the search: the completions of every 1 x h tile. */
  ghost function Candidates(columns: set<set<int>>, w: int, h: nat, k: nat): set<set<Point>>
  {
    set c, f | c in columns && f in Completions(Extend.Place(c, 0), 1, columns, w, h, k) :: f
  }

  /** What the stack still has to deliver. */
  ghost function Pending(stack: seq<PartialTile>, columns: set<set<int>>, w: int, h: nat, k: nat): set<set<Point>>
  {
    if stack == [] then {}
    else
      var last := stack[|stack| - 1];
      Pending(stack[..|stack| - 1], columns, w, h, k) + Completions(last.ones, last.width, columns, w, h, k)
  }

  /** The stack entries `(ones, width) for ones in ts`. */
  function Lift(ts: seq<set<Point>>, width: int): (stack: seq<PartialTile>)
    ensures |stack| == |ts|
    ensures forall i :: 0 <= i < |ts| ==> stack[i] == PartialTile(ts[i], width)
  {
    seq(|ts|, i requires 0 <= i < |ts| => PartialTile(ts[i], width))
  }

  function Pow(b: nat, e: int): (p: nat)
    ensures b >= 1 ==> p >= 1
    decreases e
  {
    if e <= 0 then 1 else b * Pow(b, e - 1)
  }

  /** Termination measure of the worklist: an entry of width u weighs b^(w-u).
      Popping one and pushing at most b - 1 entries one column wider lowers it. */
  ghost function Weight(stack: seq<PartialTile>, b: nat, w: int): nat
  {
    if stack == [] then 0
    else Weight(stack[..|stack| - 1], b, w) + Pow(b, w - stack[|stack| - 1].width)
  }

  /** The completions of the tiles of `ts`, all of the given width, gathered. */
  ghost function CompletionsOf(ts: seq<set<Point>>, width: int, columns: set<set<int>>, w: int, h: nat, k: nat)
    : set<set<Point>>
  {
    if ts == [] then {}
    else CompletionsOf(ts[..|ts| - 1], width, columns, w, h, k) + Completions(ts[|ts| - 1], width, columns, w, h, k)
  }

  lemma {:induction false} CompletionsOfMembers(ts: seq<set<Point>>, width: int, columns: set<set<int>>,
                                                w: int, h: nat, k: nat)
    ensures forall f :: f in CompletionsOf(ts, width, columns, w, h, k)
                    <==> exists t :: t in ts && f in Completions(t, width, columns, w, h, k)
    decreases |ts|
  {
    if ts != [] {
      var front := ts[..|ts| - 1];
      var last := ts[|ts| - 1];
      CompletionsOfMembers(front, width, columns, w, h, k);
      forall f | f in CompletionsOf(ts, width, columns, w, h, k)
        ensures exists t :: t in ts && f in Completions(t, width, columns, w, h, k)
      {
        if f !in Completions(last, width, columns, w, h, k) {
          assert f in CompletionsOf(front, width, columns, w, h, k);
          var t :| t in front && f in Completions(t, width, columns, w, h, k);
          assert t in ts;
        }
      }
      forall f, t | t in ts && f in Completions(t, width, columns, w, h, k)
        ensures f in CompletionsOf(ts, width, columns, w, h, k)
      {
        if t != last {
          assert t in front;
        }
      }
    }
  }

  /** Pushing `(t, width) for t in ts` adds the completions of `ts` to what the
      stack still has to deliver. */
  lemma {:induction false} PendingLift(init: seq<PartialTile>, ts: seq<set<Point>>, width: int,
                                       columns: set<set<int>>, w: int, h: nat, k: nat)
    ensures Pending(init + Lift(ts, width), columns, w, h, k)
         == Pending(init, columns, w, h, k) + CompletionsOf(ts, width, columns, w, h, k)
    decreases |ts|
  {
    if ts == [] {
      assert init + Lift(ts, width) == init;
    } else {
      var front := ts[..|ts| - 1];
      PendingLift(init, front, width, columns, w, h, k);
      var s := init + Lift(ts, width);
      assert s[..|s| - 1] == init + Lift(front, width);
    }
  }

  /** The initial stack, one entry per valid column placed at x = 0, still has
      to deliver every candidate. */
  lemma StartsPending(columns: set<set<int>>, startList: seq<set<Point>>, w: int, h: nat, k: nat)
    requires forall t :: t in startList <==> t in (set c | c in columns :: Extend.Place(c, 0))
    ensures Pending(Lift(startList, 1), columns, w, h, k) == Candidates(columns, w, h, k)
  {
    PendingLift([], startList, 1, columns, w, h, k);
    assert [] + Lift(startList, 1) == Lift(startList, 1);
    CompletionsOfMembers(startList, 1, columns, w, h, k);
  }

  /** Popping an entry of width < w and taking its extensions one column wider
      loses no completion and adds none. */
  lemma PopStep(cur: PartialTile, next: int, ts: seq<set<Point>>, columns: set<set<int>>, w: int, h: nat, k: nat)
    requires cur.width < w && next == cur.width + 1
    requires forall t :: t in ts <==> t in Extend.Extensions(cur.ones, columns, next, h, k)
    ensures Completions(cur.ones, cur.width, columns, w, h, k) == CompletionsOf(ts, next, columns, w, h, k)
    ensures next == w ==> CompletionsOf(ts, next, columns, w, h, k) == set t | t in ts
  {
    CompletionsOfMembers(ts, next, columns, w, h, k);
  }

  /** `create_columns(h, k)` returns the candidate pool. */
  lemma ColumnSetIs(columnset: set<set<int>>, h: nat, k: nat)
    requires forall c :: c in columnset <==> Columns.ValidColumn(c, h, k)
    ensures columnset == ColumnSet(h, k)
  {
  }

  lemma {:induction false} WeightLift(init: seq<PartialTile>, ts: seq<set<Point>>, width: int, b: nat, w: int)
    ensures Weight(init + Lift(ts, width), b, w) == Weight(init, b, w) + |ts| * Pow(b, w - width)
    decreases |ts|
  {
    if ts == [] {
      assert init + Lift(ts, width) == init;
    } else {
      var n := |ts|;
      var front := ts[..n - 1];
      WeightLift(init, front, width, b, w);
      var s := init + Lift(ts, width);
      assert s[..|s| - 1] == init + Lift(front, width);
      Bits.MulSucc(n - 1, Pow(b, w - width));
    }
  }

  /** Replacing the top entry (width u < w) by at most b - 1 entries of width
      u + 1 makes the stack lighter. */
  lemma PushLighter(init: seq<PartialTile>, ts: seq<set<Point>>, u: int, b: nat, w: int)
    requires u < w && b >= 1 && |ts| <= b - 1
    ensures Weight(init + Lift(ts, u + 1), b, w) < Weight(init, b, w) + Pow(b, w - u)
  {
    WeightLift(init, ts, u + 1, b, w);
    var p := Pow(b, w - (u + 1));
    var pushed := |ts| * p;
    Bits.MulMono(b - 1, |ts|, p);
    assert pushed <= (b - 1) * p;
    Bits.MulSucc(b - 1, p);
    assert Pow(b, w - u) == b * p;
  }

  /** Every completion of an in-bounds tile lies in [0, w) x [0, h). */
  lemma {:induction false} CompletionsInBounds(ones: set<Point>, width: int, columns: set<set<int>>,
                                               w: int, h: nat, k: nat)
    requires 0 <= width <= w
    requires forall p :: p in ones ==> InsideArea(p, 0, 0, width, h)
    requires forall c, r :: c in columns && r in c ==> 0 <= r < h
    ensures forall f, p :: f in Completions(ones, width, columns, w, h, k) && p in f ==> InsideArea(p, 0, 0, w, h)
    decreases w - width
  {
    if width < w {
      var next := width + 1;
      forall t | t in Extend.Extensions(ones, columns, next, h, k)
        ensures forall f, p :: f in Completions(t, next, columns, w, h, k) && p in f ==> InsideArea(p, 0, 0, w, h)
      {
        var c := Extend.ExtensionColumn(ones, columns, next, h, k, t);
        forall p | p in t
          ensures InsideArea(p, 0, 0, next, h)
        {
          if p !in ones {
            assert p.x == width && p.y in c;
          }
        }
        CompletionsInBounds(t, next, columns, w, h, k);
      }
    }
  }

  /** Each completion keeps the columns already placed and fills every column up
      to w with a candidate column. */
  lemma {:induction false} CompletionsColumns(ones: set<Point>, width: int, columns: set<set<int>>,
                                              w: int, h: nat, k: nat)
    requires 0 <= width <= w
    requires forall p :: p in ones ==> 0 <= p.x < width
    requires forall x :: 0 <= x < width ==> ColumnOf(ones, x) in columns
    ensures forall f, x :: f in Completions(ones, width, columns, w, h, k) && 0 <= x < w ==> ColumnOf(f, x) in columns
    ensures forall f, p :: f in Completions(ones, width, columns, w, h, k) && p in f ==> 0 <= p.x < w
    decreases w - width
  {
    if width < w {
      var next := width + 1;
      forall t | t in Extend.Extensions(ones, columns, next, h, k)
        ensures forall f, x :: f in Completions(t, next, columns, w, h, k) && 0 <= x < w ==> ColumnOf(f, x) in columns
        ensures forall f, p :: f in Completions(t, next, columns, w, h, k) && p in f ==> 0 <= p.x < w
      {
        var c := Extend.ExtensionColumn(ones, columns, next, h, k, t);
        forall y
          ensures y in ColumnOf(t, width) <==> y in c
        {
          assert Point(width, y) !in ones;
        }
        assert ColumnOf(t, width) == c;
        forall x | 0 <= x < width
          ensures ColumnOf(t, x) in columns
        {
          assert ColumnOf(t, x) == ColumnOf(ones, x);
        }
        CompletionsColumns(t, next, columns, w, h, k);
      }
    }
  }

  /** Collecting the extensions of the popped entry, which have reached width
      w, keeps every tile accounted for and lightens the stack. */
  lemma FinishKeeps(finished: seq<set<Point>>, popped: seq<PartialTile>, ts: seq<set<Point>>,
                    columns: set<set<int>>, w: int, h: nat, k: nat, b: nat)
    requires popped != [] && b >= 1
    requires (set t | t in ts) == Completions(popped[|popped| - 1].ones, popped[|popped| - 1].width, columns, w, h, k)
    ensures (set t | t in finished + ts) + Pending(popped[..|popped| - 1], columns, w, h, k)
         == (set t | t in finished) + Pending(popped, columns, w, h, k)
    ensures Weight(popped[..|popped| - 1], b, w) < Weight(popped, b, w)
  {
    Sets.ElemsAppend(finished, ts);
    Sets.UnionShift((set t | t in finished), (set t | t in ts), Pending(popped[..|popped| - 1], columns, w, h, k));
  }

  /** Pushing the extensions of the popped entry one column wider keeps every
      tile accounted for and lightens the stack. */
  lemma PushKeeps(finished: seq<set<Point>>, popped: seq<PartialTile>, ts: seq<set<Point>>, next: int,
                  columns: set<set<int>>, w: int, h: nat, k: nat, b: nat)
    requires popped != [] && next == popped[|popped| - 1].width + 1 && next <= w
    requires b >= 1 && |ts| <= b - 1
    requires CompletionsOf(ts, next, columns, w, h, k)
          == Completions(popped[|popped| - 1].ones, popped[|popped| - 1].width, columns, w, h, k)
    ensures (set t | t in finished) + Pending(popped[..|popped| - 1] + Lift(ts, next), columns, w, h, k)
         == (set t | t in finished) + Pending(popped, columns, w, h, k)
    ensures Weight(popped[..|popped| - 1] + Lift(ts, next), b, w) < Weight(popped, b, w)
  {
    var rest := popped[..|popped| - 1];
    PendingLift(rest, ts, next, columns, w, h, k);
    PushLighter(rest, ts, next - 1, b, w);
  }

  /** Every candidate lies in [0, w) x [0, h) and each of its w columns is one
      of the candidate columns. */
  lemma CandidatesShape(columns: set<set<int>>, w: int, h: nat, k: nat)
    requires w >= 1
    requires forall c, r :: c in columns && r in c ==> 0 <= r < h
    ensures forall f, p :: f in Candidates(columns, w, h, k) && p in f ==> InsideArea(p, 0, 0, w, h)
    ensures forall f, x :: f in Candidates(columns, w, h, k) && 0 <= x < w ==> ColumnOf(f, x) in columns
  {
    forall c | c in columns
      ensures forall f, p :: f in Completions(Extend.Place(c, 0), 1, columns, w, h, k) && p in f
                ==> InsideArea(p, 0, 0, w, h)
      ensures forall f, x :: f in Completions(Extend.Place(c, 0), 1, columns, w, h, k) && 0 <= x < w
                ==> ColumnOf(f, x) in columns
    {
      forall y
        ensures y in ColumnOf(Extend.Place(c, 0), 0) <==> y in c
      {
      }
      assert ColumnOf(Extend.Place(c, 0), 0) == c;
      CompletionsInBounds(Extend.Place(c, 0), 1, columns, w, h, k);
      CompletionsColumns(Extend.Place(c, 0), 1, columns, w, h, k);
    }
  }

  /** Line 36 for one popped entry: its extensions one column wider, listed.
      They carry on exactly the completions the entry stood for. */
  method ExtendEntry(cur: PartialTile, next: int, columnset: set<set<int>>, w: int, h: nat, k: nat)
    returns (ts: seq<set<Point>>)
    requires cur.width < w && next == cur.width + 1
    ensures |ts| <= |columnset|
    ensures CompletionsOf(ts, next, columnset, w, h, k) == Completions(cur.ones, cur.width, columnset, w, h, k)
    ensures next == w ==> (set t | t in ts) == Completions(cur.ones, cur.width, columnset, w, h, k)
  {
    var newTiles := Extend.ExtendValid(cur.ones, columnset, next, h, k);
    Extend.ExtensionsBound(cur.ones, columnset, next, h, k);
    ts := Sets.Enumerate(newTiles);
    PopStep(cur, next, ts, columnset, w, h, k);
  }

  /** The loop of lines 34-41: pop the last entry, extend it by one column, and
      either collect the extensions (they have reached width w) or push them. */
  method RunWorklist(columnset: set<set<int>>, start: seq<PartialTile>, w: int, h: nat, k: nat)
    returns (finished: seq<set<Point>>)
    requires forall i :: 0 <= i < |start| ==> 1 <= start[i].width < w
    ensures (set t | t in finished) == Pending(start, columnset, w, h, k)
  {
    var tiles := start;
    finished := [];
    ghost var b := |columnset| + 1;
    while tiles != []
      invariant forall i :: 0 <= i < |tiles| ==> 1 <= tiles[i].width < w
      invariant (set t | t in finished) + Pending(tiles, columnset, w, h, k) == Pending(start, columnset, w, h, k)
      decreases Weight(tiles, b, w)
    {
      ghost var popped := tiles;
      var cur := tiles[|tiles| - 1];
      tiles := tiles[..|tiles| - 1];
      var next := cur.width + 1;
      var ts := ExtendEntry(cur, next, columnset, w, h, k);
      if next == w {
        FinishKeeps(finished, popped, ts, columnset, w, h, k, b);
        finished := finished + ts;
      } else {
        PushKeeps(finished, popped, ts, next, columnset, w, h, k, b);
        tiles := tiles + Lift(ts, next);
      }
    }
  }

  /** Lines 27-41 of `main`: the column pool, the stack of 1 x h tiles, and the
      worklist loop.  Yields exactly the candidates, each inside the w x h box and
      made of w valid columns. */
  method GenerateCandidates(k: nat, w: int, h: nat) returns (finished: seq<set<Point>>)
    requires w >= 2
    ensures forall t :: t in finished <==> t in Candidates(ColumnSet(h, k), w, h, k)
    ensures forall t, p :: t in finished && p in t ==> InsideArea(p, 0, 0, w, h)
    ensures forall t, x :: t in finished && 0 <= x < w ==> Columns.ValidColumn(ColumnOf(t, x), h, k)
  {
    var columnset := Columns.CreateColumns(h, k);
    ColumnSetIs(columnset, h, k);
    var starts := set c | c in columnset :: Extend.Place(c, 0);
    var startList := Sets.Enumerate(starts);
    StartsPending(columnset, startList, w, h, k);
    finished := RunWorklist(columnset, Lift(startList, 1), w, h, k);
    CandidatesShape(columnset, w, h, k);
  }

  /** For w <= 1 the finish test of line 37 never holds: every stack entry has
      width at least 1, so its extensions are wider than w. */
  lemma NeverFinishes(cur: PartialTile, w: int)
    requires cur.width >= 1 && w <= 1
    ensures cur.width + 1 != w && cur.width + 1 > w
  {
  }

  /** When h <= 2k no row is ever forced, so the empty column is admissible
      for every tile: each popped entry pushes at least itself again, one
      column wider.  With w <= 1 the loop of lines 34-41 then never ends. */
  lemma AlwaysExtends(ones: set<Point>, width: int, h: nat, k: nat)
    requires h <= 2 * k
    ensures {} in ColumnSet(h, k)
    ensures ones in Extend.Extensions(ones, ColumnSet(h, k), width + 1, h, k)
  {
    assert Columns.ValidColumn({}, h, k);
    assert Extend.Admissible({}, ones, width + 1, h, k);
    assert ones + Extend.Place({}, width) == ones;
  }
}
