/** lcl_utils.py: tiles as integers.  Point (x, y) of a tile of width `width`
    is bit x + y * width of its code; `transpose_tile` swaps coordinates. */
module Codec {

  import opened Geometry
  import Sets
  import opened Bits

  /** Every point has non-negative coordinates, so every exponent in
      `tile_to_int` is a natural number and its sum an integer. */
  predicate Natural(tile: set<Point>)
  {
    forall p :: p in tile ==> p.x >= 0 && p.y >= 0
  }

  /** A tile of the given width: 0 <= x < width and y >= 0. */
  predicate InBounds(tile: set<Point>, width: nat)
  {
    forall p :: p in tile ==> 0 <= p.x < width && 0 <= p.y
  }

  /** The bit of a point, x + y * width.  Points with a negative coordinate
      have none (Python would raise 2 to a negative power and leave the
      integers); they go to 0 here and every contract excludes them. */
  function Slot(p: Point, width: nat): nat
  {
    if p.x >= 0 && p.y >= 0 then p.x + p.y * width else 0
  }

  function Slots(width: nat): Point -> nat
  {
    p => Slot(p, width)
  }

  function Weights(width: nat): Point -> nat
  {
    p => Pow2(Slot(p, width))
  }

  /** `tile_to_int(tile, width)`: the sum of 2**(x + y * width) over the
      points of the tile. */
  ghost function Code(tile: set<Point>, width: nat): nat
    requires Natural(tile)
  {
    Sets.SumOf(tile, Weights(width))
  }

  /** Line 5: the reduction adding up 2**(x + y * width), one point at a time
      (the slot of a point with non-negative coordinates is x + y * width). */
  method TileToInt(tile: set<Point>, width: nat) returns (code: nat)
    requires Natural(tile)
    ensures code == Code(tile, width)
  {
    code := 0;
    var todo := tile;
    while todo != {}
      invariant todo <= tile
      invariant code == Code(tile - todo, width)
      decreases |todo|
    {
      Sets.NonEmpty(todo);
      var p :| p in todo;
      CodeStep(tile, todo, p, width);
      code := code + Pow2(Slot(p, width));
      todo := todo - {p};
    }
    assert tile - todo == tile;
  }

  /** Moving one point from `todo` to the points already added adds its power
      of two. */
  lemma CodeStep(tile: set<Point>, todo: set<Point>, p: Point, width: nat)
    requires Natural(tile) && todo <= tile && p in todo
    ensures Code(tile - (todo - {p}), width) == Code(tile - todo, width) + Pow2(Slot(p, width))
  {
    var done := tile - todo;
    assert tile - (todo - {p}) == done + {p};
    Sets.SumOfRemove(done + {p}, Weights(width), p);
    assert done + {p} - {p} == done;
  }

  /** What `int_to_tile(code, width)` returns: the point (i % width, i / width)
      for every set bit i of the code. */
  function TileOf(code: int, width: nat): set<Point>
    requires width >= 1
  {
    set i: nat | i < code && Bit(code, i) :: Point(i % width, i / width)
  }

  /** The points of the set bits below `index`. */
  function TileBelow(code: int, width: nat, index: nat): set<Point>
    requires width >= 1
  {
    set i: nat | i < index && Bit(code, i) :: Point(i % width, i / width)
  }

  lemma TileBelowStep(code: int, width: nat, index: nat)
    requires width >= 1
    ensures TileBelow(code, width, index + 1) ==
              TileBelow(code, width, index) + (if Bit(code, index) then {Point(index % width, index / width)} else {})
  {
  }

  /** Once 2**index exceeds the code, every set bit is below `index`. */
  lemma TileBelowDone(code: int, width: nat, index: nat)
    requires width >= 1 && code < Pow2(index) && (index == 0 || index <= code)
    ensures TileBelow(code, width, index) == TileOf(code, width)
  {
    if code > 0 {
      forall i: nat | Bit(code, i)
        ensures i < index && i < code
      {
        BitBelow(code, i);
        if index <= i {
          Pow2Mono(index, i);
        }
      }
    }
  }

  /** `int_to_tile`: walk the bits while 2**index does not exceed the code. */
  method IntToTile(code: int, width: nat) returns (tile: set<Point>)
    requires width >= 1
    ensures tile == TileOf(code, width)
  {
    tile := {};
    var index: nat := 0;
    while Pow2(index) <= code
      invariant index == 0 || index <= code
      invariant tile == TileBelow(code, width, index)
      decreases code - index
    {
      TileBelowStep(code, width, index);
      if Bit(code, index) {
        tile := tile + {Point(index % width, index / width)};
      }
      index := index + 1;
    }
    TileBelowDone(code, width, index);
  }

  /** Division by the width recovers the two coordinates of a slot. */
  lemma DivMod(x: int, y: int, width: nat)
    requires 0 <= x < width && 0 <= y
    ensures (x + y * width) % width == x && (x + y * width) / width == y
  {
    var i := x + y * width;
    var q, r := i / width, i % width;
    assert i == q * width + r && 0 <= r < width;
    assert (y + 1) * width == y * width + width;
    assert (q + 1) * width == q * width + width;
    if q > y {
      MulMono(q, y + 1, width);
      assert false;
    } else if q < y {
      MulMono(y, q + 1, width);
      assert false;
    }
  }

  /** The slot of the point a bit is decoded to is that bit. */
  lemma SlotOfDecoded(i: nat, width: nat)
    requires width >= 1
    ensures Slot(Point(i % width, i / width), width) == i
  {
  }

  /** Every decoded point lies in the tile's width, and it is there exactly
      when the bit of its slot is set. */
  lemma TileOfMembers(code: nat, width: nat)
    requires width >= 1
    ensures InBounds(TileOf(code, width), width)
    ensures forall p :: p in TileOf(code, width) <==>
              0 <= p.x < width && 0 <= p.y && Bit(code, p.x + p.y * width)
  {
    forall p | p in TileOf(code, width)
      ensures 0 <= p.x < width && 0 <= p.y && Bit(code, p.x + p.y * width)
    {
      var i: nat :| i < code && Bit(code, i) && p == Point(i % width, i / width);
      SlotOfDecoded(i, width);
    }
    forall p: Point | 0 <= p.x < width && 0 <= p.y && Bit(code, p.x + p.y * width)
      ensures p in TileOf(code, width)
    {
      var i: nat := p.x + p.y * width;
      DivMod(p.x, p.y, width);
      BitBelow(code, i);
      assert p == Point(i % width, i / width);
    }
  }

  /** In a tile of the given width no two points share a slot. */
  lemma SlotsDistinct(tile: set<Point>, width: nat)
    requires InBounds(tile, width)
    ensures forall p, q :: p in tile && q in tile && Slot(p, width) == Slot(q, width) ==> p == q
  {
    forall p, q | p in tile && q in tile && Slot(p, width) == Slot(q, width)
      ensures p == q
    {
      DivMod(p.x, p.y, width);
      DivMod(q.x, q.y, width);
    }
  }

  /** The code of a tile of the given width is the sum of the distinct powers
      of two at its slots. */
  lemma CodeIsSumPow(tile: set<Point>, width: nat)
    requires InBounds(tile, width)
    ensures Code(tile, width) == SumPow(Sets.Image(tile, Slots(width)))
  {
    SlotsDistinct(tile, width);
    Sets.SumOfImage(tile, Slots(width), Weights(width), Pow2);
  }

  /** For a tile of the given width, bit x + y * width of its code is set
      exactly when (x, y) is a point of the tile. */
  lemma CodeBits(tile: set<Point>, width: nat, x: int, y: int)
    requires InBounds(tile, width)
    requires 0 <= x < width && 0 <= y
    ensures Bit(Code(tile, width), x + y * width) <==> Point(x, y) in tile
  {
    CodeIsSumPow(tile, width);
    var slots := Sets.Image(tile, Slots(width));
    var i: nat := x + y * width;
    BitOfSum(slots, i);
    if i in slots {
      var p :| p in tile && Slot(p, width) == i;
      SlotsDistinct(tile + {Point(x, y)}, width);
    }
  }

  /** Decoding the code of a tile of the given width gives the tile back. */
  lemma DecodeEncode(tile: set<Point>, width: nat)
    requires width >= 1 && InBounds(tile, width)
    ensures TileOf(Code(tile, width), width) == tile
  {
    var code := Code(tile, width);
    TileOfMembers(code, width);
    forall p | p in tile
      ensures p in TileOf(code, width)
    {
      CodeBits(tile, width, p.x, p.y);
    }
    forall p | p in TileOf(code, width)
      ensures p in tile
    {
      CodeBits(tile, width, p.x, p.y);
    }
  }

  /** Encoding the tile decoded from a natural gives the natural back. */
  lemma EncodeDecode(code: nat, width: nat)
    requires width >= 1
    ensures Natural(TileOf(code, width))
    ensures Code(TileOf(code, width), width) == code
  {
    var tile := TileOf(code, width);
    TileOfMembers(code, width);
    CodeIsSumPow(tile, width);
    var slots := Sets.Image(tile, Slots(width));
    forall i: nat
      ensures i in slots <==> Bit(code, i)
    {
      if Bit(code, i) {
        BitBelow(code, i);
        SlotOfDecoded(i, width);
        assert Point(i % width, i / width) in tile;
      }
      if i in slots {
        var p :| p in tile && Slot(p, width) == i;
      }
    }
    SumOfBits(code, slots);
  }

  /** Tiles of the given width with equal codes are equal. */
  lemma CodeInjective(a: set<Point>, b: set<Point>, width: nat)
    requires width >= 1 && InBounds(a, width) && InBounds(b, width)
    requires Code(a, width) == Code(b, width)
    ensures a == b
  {
    DecodeEncode(a, width);
    DecodeEncode(b, width);
  }

  /** The empty tile is code 0, and code 0 is the empty tile. */
  lemma EmptyCodes(width: nat)
    requires width >= 1
    ensures Code({}, width) == 0
    ensures TileOf(0, width) == {}
  {
  }

  /** `transpose_tile`: (x, y) becomes (y, x). */
  function Transpose(tile: set<Point>): (r: set<Point>)
    ensures forall p :: p in r <==> Point(p.y, p.x) in tile
  {
    var r := set p | p in tile :: Point(p.y, p.x);
    assert forall p: Point :: Point(p.y, p.x) in tile ==> p == Point(Point(p.y, p.x).y, Point(p.y, p.x).x);
    r
  }

  /** Transposing twice gives the tile back. */
  lemma TransposeInvolution(tile: set<Point>)
    ensures Transpose(Transpose(tile)) == tile
  {
  }

  /** Transposing keeps the number of points. */
  lemma {:induction false} TransposeCard(tile: set<Point>)
    ensures |Transpose(tile)| == |tile|
    decreases |tile|
  {
    if tile != {} {
      var p := Sets.Pick(tile);
      TransposeCard(tile - {p});
      assert Transpose(tile) == Transpose(tile - {p}) + {Point(p.y, p.x)};
    } else {
      assert Transpose(tile) == {};
    }
  }
}
