/** The zeros a tile leaves exposed at its border, the cells outside the tile
    that its own anchors already dominate, and the outside cells that could
    dominate each exposed zero (generate_tiles.py:142-180). */
module Exposure {

  import opened Geometry
  import Sets

  /** The cells of [0, width) x [0, height). */
  function Box(width: int, height: int): (cells: set<Point>)
    ensures forall c :: c in cells <==> InsideArea(c, 0, 0, width, height)
  {
    var cells := set x, y | 0 <= x < width && 0 <= y < height :: Point(x, y);
    assert forall c :: InsideArea(c, 0, 0, width, height) ==> c == Point(c.x, c.y) && c in cells;
    cells
  }

  /** Not in the interior [k, maxWidth - k) x [k, height - k): within k of the
      top, the bottom, the left edge or the edge at maxWidth. */
  predicate NearBorder(c: Point, height: int, maxWidth: int, k: int)
  {
    !InsideArea(c, k, k, maxWidth - k, height - k)
  }

  /** Lines 145-146: the cells of the tile near its border. */
  function Border(tilewidth: int, tileheight: int, maxWidth: int, k: int): (cells: set<Point>)
    ensures forall c :: c in cells <==> InsideArea(c, 0, 0, tilewidth, tileheight) && NearBorder(c, tileheight, maxWidth, k)
  {
    set c | c in Box(tilewidth, tileheight) && NearBorder(c, tileheight, maxWidth, k)
  }

  /** The cells of `cells` farther than k from every anchor of `ones`. */
  ghost function Undominated(cells: set<Point>, ones: set<Point>, k: int): set<Point>
  {
    set c | c in cells && forall one :: one in ones ==> !IsManhattanClose(c, one, k)
  }

  /** The exposed zeros: border cells of the tile that no anchor dominates. */
  ghost function ExposedZeroes(tile: set<Point>, tilewidth: int, tileheight: int, maxWidth: int, k: int): set<Point>
  {
    Undominated(Border(tilewidth, tileheight, maxWidth, k), tile, k)
  }

  /** `get_nondominated_zeroes`: start from the border cells and drop, anchor by
      anchor, the cells within k of it; stop early once nothing is left. */
  method GetNondominatedZeroes(tile: set<Point>, tilewidth: int, tileheight: int, maxWidth: int, k: int)
    returns (zeroes: set<Point>)
    ensures zeroes == ExposedZeroes(tile, tilewidth, tileheight, maxWidth, k)
  {
    var border := Border(tilewidth, tileheight, maxWidth, k);
    zeroes := border;
    var todo := tile;
    while todo != {}
      invariant todo <= tile
      invariant zeroes == Undominated(border, tile - todo, k)
      decreases |todo|
    {
      Sets.NonEmpty(todo);
      var one :| one in todo;
      zeroes := set c | c in zeroes && !IsManhattanClose(c, one, k);
      todo := todo - {one};
      if zeroes == {} {
        // every later anchor can only remove more cells
        assert Undominated(border, tile, k) <= zeroes;
        break;
      }
    }
    assert tile - todo == tile || zeroes == {};
  }

  /** An exposed zero is never an anchor of the tile. */
  lemma NoAnchorExposed(tile: set<Point>, tilewidth: int, tileheight: int, maxWidth: int, k: nat)
    ensures forall one :: one in tile ==> one !in ExposedZeroes(tile, tilewidth, tileheight, maxWidth, k)
  {
    forall one | one in tile
      ensures one !in ExposedZeroes(tile, tilewidth, tileheight, maxWidth, k)
    {
      assert IsManhattanClose(one, one, k);
    }
  }

  /** More anchors leave fewer zeros exposed. */
  lemma ExposedAntitone(tile: set<Point>, more: set<Point>, tilewidth: int, tileheight: int, maxWidth: int, k: int)
    requires tile <= more
    ensures ExposedZeroes(more, tilewidth, tileheight, maxWidth, k) <= ExposedZeroes(tile, tilewidth, tileheight, maxWidth, k)
  {
  }

  /** The cells outside [0, width) x [0, height) within k of `point`. */
  function OuterBall(point: Point, width: int, height: int, k: int): (cells: set<Point>)
    ensures forall c :: c in cells <==> IsManhattanClose(c, point, k) && !InsideArea(c, 0, 0, width, height)
  {
    set c | c in GetManhattan(point, k) && !InsideArea(c, 0, 0, width, height)
  }

  /** The outside cells within k of some anchor: a phantom anchor there would be
      too close to the tile's own anchors. */
  ghost function ExclusionSet(ones: set<Point>, tilewidth: int, tileheight: int, k: int): set<Point>
  {
    set one, c | one in ones && c in OuterBall(one, tilewidth, tileheight, k) :: c
  }

  lemma ExclusionAdd(done: set<Point>, one: Point, tilewidth: int, tileheight: int, k: int)
    ensures ExclusionSet(done + {one}, tilewidth, tileheight, k)
         == ExclusionSet(done, tilewidth, tileheight, k) + OuterBall(one, tilewidth, tileheight, k)
  {
  }

  /** `get_exclusionset`: the union, anchor by anchor, of the outside cells
      within k of it. */
  method GetExclusionSet(ones: set<Point>, tilewidth: int, tileheight: int, k: int) returns (exclusion: set<Point>)
    ensures exclusion == ExclusionSet(ones, tilewidth, tileheight, k)
  {
    exclusion := {};
    var todo := ones;
    while todo != {}
      invariant todo <= ones
      invariant exclusion == ExclusionSet(ones - todo, tilewidth, tileheight, k)
      decreases |todo|
    {
      Sets.NonEmpty(todo);
      var one :| one in todo;
      ExclusionAdd(ones - todo, one, tilewidth, tileheight, k);
      exclusion := exclusion + OuterBall(one, tilewidth, tileheight, k);
      assert ones - (todo - {one}) == (ones - todo) + {one};
      todo := todo - {one};
    }
    assert ones - todo == ones;
  }

  /** A cell is excluded exactly when it is outside the tile and within k of
      one of its anchors. */
  lemma ExclusionMembers(ones: set<Point>, tilewidth: int, tileheight: int, k: int)
    ensures forall c :: c in ExclusionSet(ones, tilewidth, tileheight, k) <==>
              !InsideArea(c, 0, 0, tilewidth, tileheight) && exists one :: one in ones && IsManhattanClose(c, one, k)
  {
    forall c | !InsideArea(c, 0, 0, tilewidth, tileheight) && exists one :: one in ones && IsManhattanClose(c, one, k)
      ensures c in ExclusionSet(ones, tilewidth, tileheight, k)
    {
      var one :| one in ones && IsManhattanClose(c, one, k);
      assert c in OuterBall(one, tilewidth, tileheight, k);
    }
  }

  /** `nondominated_zero_neighborhoods`: for each exposed zero, the outside
      cells within k of it.  Its `exclusionset` parameter is unused. */
  method NondominatedZeroNeighborhoods(tilewidth: int, tileheight: int, zeroes: set<Point>, k: int)
    returns (neighborhoods: map<Point, set<Point>>)
    ensures neighborhoods.Keys == zeroes
    ensures forall z :: z in zeroes ==> neighborhoods[z] == OuterBall(z, tilewidth, tileheight, k)
  {
    neighborhoods := map[];
    var todo := zeroes;
    while todo != {}
      invariant todo <= zeroes
      invariant neighborhoods.Keys == zeroes - todo
      invariant forall z :: z in neighborhoods ==> neighborhoods[z] == OuterBall(z, tilewidth, tileheight, k)
      decreases |todo|
    {
      Sets.NonEmpty(todo);
      var zero :| zero in todo;
      neighborhoods := neighborhoods[zero := OuterBall(zero, tilewidth, tileheight, k)];
      todo := todo - {zero};
    }
  }
}
