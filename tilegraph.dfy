/** tile2graph.py, lines 44-57: each vertical tile (height h + 1) is cut into
    its top and bottom h rows, each horizontal tile (width w + 1) into its west
    and east w columns; the two halves, as tile codes, are joined by a pair of
    opposite edges. */
module TileGraph {

  import opened Geometry
  import Codec

  datatype Dir = N | E | S | W

  function Opposite(d: Dir): (o: Dir)
    ensures o != d
  {
    match d
    case N => S
    case S => N
    case E => W
    case W => E
  }

  /** An output line `(from, (dir, to))`: the tile with code `to` can sit in
      direction `dir` of the tile with code `from`. */
  datatype Edge = Edge(from: int, dir: Dir, to: int)

  /** Line 47: the points of rows 0 .. height-1, in place. */
  function TopHalf(tile: set<Point>, height: int): (half: set<Point>)
    ensures forall p :: p in half <==> p in tile && p.y < height
  {
    set p | p in tile && p.y < height
  }

  /** Line 48: the points of rows 1 and below, moved up one row. */
  function BottomHalf(tile: set<Point>): (half: set<Point>)
    ensures forall p :: p in half <==> p.y >= 0 && Point(p.x, p.y + 1) in tile
  {
    var half := set p | p in tile && p.y > 0 :: Point(p.x, p.y - 1);
    forall p: Point | p.y >= 0 && Point(p.x, p.y + 1) in tile
      ensures p in half
    {
      var q := Point(p.x, p.y + 1);
      assert p == Point(q.x, q.y - 1);
    }
    half
  }

  /** Line 54: the points of columns 0 .. width-1, in place. */
  function WestHalf(tile: set<Point>, width: int): (half: set<Point>)
    ensures forall p :: p in half <==> p in tile && p.x < width
  {
    set p | p in tile && p.x < width
  }

  /** Line 55: the points of columns 1 and beyond, moved left one column. */
  function EastHalf(tile: set<Point>): (half: set<Point>)
    ensures forall p :: p in half <==> p.x >= 0 && Point(p.x + 1, p.y) in tile
  {
    var half := set p | p in tile && p.x > 0 :: Point(p.x - 1, p.y);
    forall p: Point | p.x >= 0 && Point(p.x + 1, p.y) in tile
      ensures p in half
    {
      var q := Point(p.x + 1, p.y);
      assert p == Point(q.x - 1, q.y);
    }
    half
  }

  /** On the rows they share the two halves of a vertical tile agree: row y of
      the top half is row y - 1 of the bottom half. */
  lemma VerticalOverlap(tile: set<Point>, height: int, x: int, y: int)
    requires 1 <= y < height
    ensures Point(x, y) in TopHalf(tile, height) <==> Point(x, y - 1) in BottomHalf(tile)
  {
    assert Point(x, y - 1 + 1) == Point(x, y);
  }

  /** The same for the columns of a horizontal tile. */
  lemma HorizontalOverlap(tile: set<Point>, width: int, x: int, y: int)
    requires 1 <= x < width
    ensures Point(x, y) in WestHalf(tile, width) <==> Point(x - 1, y) in EastHalf(tile)
  {
    assert Point(x - 1 + 1, y) == Point(x, y);
  }

  /** Halves of a tile with non-negative coordinates keep them. */
  lemma HalvesNatural(tile: set<Point>, width: int, height: int)
    requires Codec.Natural(tile)
    ensures Codec.Natural(TopHalf(tile, height)) && Codec.Natural(BottomHalf(tile))
    ensures Codec.Natural(WestHalf(tile, width)) && Codec.Natural(EastHalf(tile))
  {
  }

  predicate AllNatural(tiles: seq<set<Point>>)
  {
    forall i :: 0 <= i < |tiles| ==> Codec.Natural(tiles[i])
  }

  /** Lines 49-50 for one vertical tile. */
  ghost function VerticalPair(tile: set<Point>, width: nat, height: int): seq<Edge>
    requires Codec.Natural(tile)
  {
    HalvesNatural(tile, width, height);
    var top := Codec.Code(TopHalf(tile, height), width);
    var bot := Codec.Code(BottomHalf(tile), width);
    [Edge(top, S, bot), Edge(bot, N, top)]
  }

  /** Lines 56-57 for one horizontal tile. */
  ghost function HorizontalPair(tile: set<Point>, width: nat): seq<Edge>
    requires Codec.Natural(tile)
  {
    HalvesNatural(tile, width, 0);
    var west := Codec.Code(WestHalf(tile, width), width);
    var east := Codec.Code(EastHalf(tile), width);
    [Edge(west, E, east), Edge(east, W, west)]
  }

  /** The edges of the vertical tiles, in the order they are visited. */
  ghost function VerticalEdges(tiles: seq<set<Point>>, width: nat, height: int): seq<Edge>
    requires AllNatural(tiles)
  {
    if tiles == [] then []
    else VerticalEdges(tiles[..|tiles| - 1], width, height) + VerticalPair(tiles[|tiles| - 1], width, height)
  }

  ghost function HorizontalEdges(tiles: seq<set<Point>>, width: nat): seq<Edge>
    requires AllNatural(tiles)
  {
    if tiles == [] then []
    else HorizontalEdges(tiles[..|tiles| - 1], width) + HorizontalPair(tiles[|tiles| - 1], width)
  }

  /** Lines 44-57: the edge list, vertical tiles first.  The two sets of tiles
      are given in the order Python happens to visit them. */
  method EmitEdges(vtiles: seq<set<Point>>, htiles: seq<set<Point>>, width: nat, height: int)
    returns (edges: seq<Edge>)
    requires AllNatural(vtiles) && AllNatural(htiles)
    ensures edges == VerticalEdges(vtiles, width, height) + HorizontalEdges(htiles, width)
  {
    edges := [];
    edges := EmitVertical(edges, vtiles, width, height);
    edges := EmitHorizontal(edges, htiles, width);
  }

  /** Lines 46-50: append the edge pair of each vertical tile. */
  method EmitVertical(init: seq<Edge>, tiles: seq<set<Point>>, width: nat, height: int)
    returns (edges: seq<Edge>)
    requires AllNatural(tiles)
    ensures edges == init + VerticalEdges(tiles, width, height)
  {
    edges := init;
    for i := 0 to |tiles|
      invariant edges == init + VerticalEdges(tiles[..i], width, height)
    {
      var tile := tiles[i];
      HalvesNatural(tile, width, height);
      var top := Codec.TileToInt(TopHalf(tile, height), width);
      var bot := Codec.TileToInt(BottomHalf(tile), width);
      edges := edges + [Edge(top, S, bot)];
      edges := edges + [Edge(bot, N, top)];
      VerticalStep(tiles, i, width, height);
    }
    assert tiles[..|tiles|] == tiles;
  }

  /** Lines 53-57: append the edge pair of each horizontal tile. */
  method EmitHorizontal(init: seq<Edge>, tiles: seq<set<Point>>, width: nat)
    returns (edges: seq<Edge>)
    requires AllNatural(tiles)
    ensures edges == init + HorizontalEdges(tiles, width)
  {
    edges := init;
    for i := 0 to |tiles|
      invariant edges == init + HorizontalEdges(tiles[..i], width)
    {
      var tile := tiles[i];
      HalvesNatural(tile, width, 0);
      var west := Codec.TileToInt(WestHalf(tile, width), width);
      var east := Codec.TileToInt(EastHalf(tile), width);
      edges := edges + [Edge(west, E, east)];
      edges := edges + [Edge(east, W, west)];
      HorizontalStep(tiles, i, width);
    }
    assert tiles[..|tiles|] == tiles;
  }

  lemma VerticalStep(tiles: seq<set<Point>>, i: int, width: nat, height: int)
    requires AllNatural(tiles) && 0 <= i < |tiles|
    ensures VerticalEdges(tiles[..i + 1], width, height) == VerticalEdges(tiles[..i], width, height) + VerticalPair(tiles[i], width, height)
  {
    assert tiles[..i + 1][..i] == tiles[..i];
  }

  lemma HorizontalStep(tiles: seq<set<Point>>, i: int, width: nat)
    requires AllNatural(tiles) && 0 <= i < |tiles|
    ensures HorizontalEdges(tiles[..i + 1], width) == HorizontalEdges(tiles[..i], width) + HorizontalPair(tiles[i], width)
  {
    assert tiles[..i + 1][..i] == tiles[..i];
  }

  /** Two edges per tile. */
  lemma {:induction false} EdgeCount(vtiles: seq<set<Point>>, htiles: seq<set<Point>>, width: nat, height: int)
    requires AllNatural(vtiles) && AllNatural(htiles)
    ensures |VerticalEdges(vtiles, width, height) + HorizontalEdges(htiles, width)| == 2 * |vtiles| + 2 * |htiles|
    decreases |vtiles| + |htiles|
  {
    if vtiles != [] {
      EdgeCount(vtiles[..|vtiles| - 1], htiles, width, height);
    } else if htiles != [] {
      EdgeCount(vtiles, htiles[..|htiles| - 1], width, height);
    }
  }

  /** The edge list is closed under reversal: with every edge comes the edge
      back in the opposite direction. */
  predicate ReverseClosed(edges: seq<Edge>)
  {
    forall e :: e in edges ==> Edge(e.to, Opposite(e.dir), e.from) in edges
  }

  lemma {:induction false} VerticalReverseClosed(tiles: seq<set<Point>>, width: nat, height: int)
    requires AllNatural(tiles)
    ensures ReverseClosed(VerticalEdges(tiles, width, height))
    decreases |tiles|
  {
    if tiles != [] {
      var init := tiles[..|tiles| - 1];
      VerticalReverseClosed(init, width, height);
      var last := VerticalPair(tiles[|tiles| - 1], width, height);
      assert forall e :: e in last ==> Edge(e.to, Opposite(e.dir), e.from) in last;
    }
  }

  lemma {:induction false} HorizontalReverseClosed(tiles: seq<set<Point>>, width: nat)
    requires AllNatural(tiles)
    ensures ReverseClosed(HorizontalEdges(tiles, width))
    decreases |tiles|
  {
    if tiles != [] {
      var init := tiles[..|tiles| - 1];
      HorizontalReverseClosed(init, width);
      var last := HorizontalPair(tiles[|tiles| - 1], width);
      assert forall e :: e in last ==> Edge(e.to, Opposite(e.dir), e.from) in last;
    }
  }

  /** Every edge of the output comes with its reverse, so every target code
      is also the source of some edge. */
  lemma EdgesReverseClosed(vtiles: seq<set<Point>>, htiles: seq<set<Point>>, width: nat, height: int)
    requires AllNatural(vtiles) && AllNatural(htiles)
    ensures ReverseClosed(VerticalEdges(vtiles, width, height) + HorizontalEdges(htiles, width))
    ensures forall e :: e in VerticalEdges(vtiles, width, height) + HorizontalEdges(htiles, width) ==>
              exists f :: f in VerticalEdges(vtiles, width, height) + HorizontalEdges(htiles, width) && f.from == e.to
  {
    VerticalReverseClosed(vtiles, width, height);
    HorizontalReverseClosed(htiles, width);
    var all := VerticalEdges(vtiles, width, height) + HorizontalEdges(htiles, width);
    forall e | e in all
      ensures exists f :: f in all && f.from == e.to
    {
      assert Edge(e.to, Opposite(e.dir), e.from) in all;
    }
  }

  /** The codes of a vertical pair decode to the two halves, when the tile's
      points have 0 <= x < width. */
  lemma VerticalPairDecodes(tile: set<Point>, width: nat, height: int)
    requires width >= 1 && Codec.InBounds(tile, width)
    ensures var pair := VerticalPair(tile, width, height);
      && Codec.TileOf(pair[0].from, width) == TopHalf(tile, height)
      && Codec.TileOf(pair[0].to, width) == BottomHalf(tile)
      && pair[1] == Edge(pair[0].to, N, pair[0].from)
  {
    Codec.DecodeEncode(TopHalf(tile, height), width);
    Codec.DecodeEncode(BottomHalf(tile), width);
  }

  /** The codes of a horizontal pair decode to the two halves, when the tile's
      points have 0 <= x <= width. */
  lemma HorizontalPairDecodes(tile: set<Point>, width: nat)
    requires width >= 1 && Codec.InBounds(tile, width + 1)
    ensures var pair := HorizontalPair(tile, width);
      && Codec.TileOf(pair[0].from, width) == WestHalf(tile, width)
      && Codec.TileOf(pair[0].to, width) == EastHalf(tile)
      && pair[1] == Edge(pair[0].to, W, pair[0].from)
  {
    Codec.DecodeEncode(WestHalf(tile, width), width);
    Codec.DecodeEncode(EastHalf(tile), width);
  }
}
