/** The free items of `src/map.rs`: screen size, tile kinds and the
    row-major coordinate arithmetic. */
module Layout {
  import opened Geometry

  /** Screen dimensions are defined in the game's `globalimports` module; the
      builder's draw ranges need each of them to exceed 11. */
  type Dim = n: int | n > 11 witness 12

  const SCREEN_WIDTH: Dim
  const SCREEN_HEIGHT: Dim
  const NUM_TILES: nat := SCREEN_WIDTH * SCREEN_HEIGHT

  datatype TileType = Wall | Floor

  /** Row-major index of (x, y); a plain arithmetic mapping that does not check bounds. */
  function MapIdx(x: int, y: int): int {
    y * SCREEN_WIDTH + x
  }

  predicate IsInBounds(p: Point) {
    0 <= p.x < SCREEN_WIDTH && 0 <= p.y < SCREEN_HEIGHT
  }

  /** The inverse of `MapIdx`: the coordinate that owns buffer slot i. */
  function PointAt(i: int): (p: Point)
    requires 0 <= i < NUM_TILES
    ensures IsInBounds(p) && MapIdx(p.x, p.y) == i
  {
    SlotDecomposes(i);
    Point(i % SCREEN_WIDTH, i / SCREEN_WIDTH)
  }

  lemma SlotDecomposes(i: int)
    requires 0 <= i < NUM_TILES
    ensures 0 <= i % SCREEN_WIDTH < SCREEN_WIDTH
    ensures 0 <= i / SCREEN_WIDTH < SCREEN_HEIGHT
    ensures (i / SCREEN_WIDTH) * SCREEN_WIDTH + i % SCREEN_WIDTH == i
  {
    var q, r := i / SCREEN_WIDTH, i % SCREEN_WIDTH;
    assert q * SCREEN_WIDTH + r == i;
    assert q * SCREEN_WIDTH <= i;
    MulCancel(q, SCREEN_HEIGHT, SCREEN_WIDTH);
  }

  lemma MulCancel(a: int, b: int, c: int)
    requires c > 0 && a * c < b * c
    ensures a < b
  {
    assert (b - a) * c > 0;
  }

  lemma MulMonotone(a: int, b: int, c: nat)
    requires a <= b
    ensures a * c <= b * c
  {
    assert (b - a) * c >= 0;
  }

  /** Every in-bounds point has an index inside the buffer. */
  lemma MapIdxInRange(p: Point)
    requires IsInBounds(p)
    ensures 0 <= MapIdx(p.x, p.y) < NUM_TILES
  {
    MulMonotone(p.y, SCREEN_HEIGHT - 1, SCREEN_WIDTH);
  }

  /** Integer division and remainder by SCREEN_WIDTH recover the coordinate. */
  lemma MapIdxRoundTrip(p: Point)
    requires IsInBounds(p)
    ensures 0 <= MapIdx(p.x, p.y) < NUM_TILES
    ensures MapIdx(p.x, p.y) % SCREEN_WIDTH == p.x
    ensures MapIdx(p.x, p.y) / SCREEN_WIDTH == p.y
    ensures PointAt(MapIdx(p.x, p.y)) == p
  {
    MapIdxInRange(p);
    var i := MapIdx(p.x, p.y);
    DivModUnique(i, p.y, p.x);
  }

  lemma DivModUnique(i: int, q: int, r: int)
    requires 0 <= r < SCREEN_WIDTH && i == q * SCREEN_WIDTH + r
    ensures i / SCREEN_WIDTH == q && i % SCREEN_WIDTH == r
  {
    var q', r' := i / SCREEN_WIDTH, i % SCREEN_WIDTH;
    assert i == q' * SCREEN_WIDTH + r';
    if q' < q {
      MulMonotone(q' + 1, q, SCREEN_WIDTH);
    } else if q < q' {
      MulMonotone(q + 1, q', SCREEN_WIDTH);
    }
  }

  /** Distinct in-bounds points occupy distinct slots. */
  lemma MapIdxInjective(p: Point, q: Point)
    requires IsInBounds(p) && IsInBounds(q)
    requires MapIdx(p.x, p.y) == MapIdx(q.x, q.y)
    ensures p == q
  {
    MapIdxRoundTrip(p);
    MapIdxRoundTrip(q);
  }

  /** Being in bounds is the same as having an index that lies in the buffer
      and decodes back to the point: an out-of-bounds point may still land
      inside the buffer (x = -1 aliases the previous row), but never on its own slot. */
  lemma InBoundsIffIndexDecodes(p: Point)
    ensures IsInBounds(p) <==> (0 <= MapIdx(p.x, p.y) < NUM_TILES && PointAt(MapIdx(p.x, p.y)) == p)
  {
    if IsInBounds(p) {
      MapIdxRoundTrip(p);
    }
  }

}

/** The tile grid of `src/map.rs`: a row-major buffer of SCREEN_WIDTH x
    SCREEN_HEIGHT tiles with pure coordinate queries. */
module Grid {
  import opened Geometry
  import opened Wrappers
  import opened Layout

  datatype Map = Map(tiles: seq<TileType>) {

    /** The buffer holds exactly one tile per coordinate. */
    predicate Valid() { |tiles| == NUM_TILES }

    /** `Map::new`: a full-size grid in which every cell is floor. */
    static function New(): (m: Map)
      ensures m.Valid()
      ensures forall i | 0 <= i < |m.tiles| :: m.tiles[i] == Floor
      ensures forall p: Point :: m.CanEnterTile(p) <==> IsInBounds(p)
    {
      var m := Map(seq(NUM_TILES, _ => Floor));
      assert forall p: Point | IsInBounds(p) :: m.CanEnterTile(p) by {
        forall p: Point | IsInBounds(p) ensures m.CanEnterTile(p) {
          MapIdxInRange(p);
        }
      }
      m
    }

    /** `Map::map_idx`, the associated copy of the free index function. */
    static function MapIdx(x: int, y: int): (r: int)
      ensures r == Layout.MapIdx(x, y)
    {
      (y * SCREEN_WIDTH) + x
    }

    /** `in_bounds` ignores the tiles and defers to the free bounds test. */
    function InBounds(p: Point): (r: bool)
      ensures r == IsInBounds(p)
      ensures r <==> 0 <= p.x < SCREEN_WIDTH && 0 <= p.y < SCREEN_HEIGHT
    {
      IsInBounds(p)
    }

    /** `can_enter_tile` fails closed outside the grid and otherwise reports
        whether the tile owning p is floor. */
    function CanEnterTile(p: Point): (r: bool)
      requires Valid()
      ensures !IsInBounds(p) ==> !r
      ensures r <==> exists i | 0 <= i < |tiles| :: PointAt(i) == p && tiles[i] == Floor
    {
      if InBounds(p) then
        MapIdxRoundTrip(p);
        tiles[Layout.MapIdx(p.x, p.y)] == Floor
      else
        false
    }

    /** `try_idx`: the only index lookup that is safe for arbitrary points. */
    function TryIdx(p: Point): (r: Option<int>)
      ensures r.None? <==> !IsInBounds(p)
      ensures r.Some? ==> r.value == Layout.MapIdx(p.x, p.y) && 0 <= r.value < NUM_TILES && PointAt(r.value) == p
      ensures r.Some? && Valid() ==> r.value < |tiles|
    {
      if !InBounds(p) then
        None
      else
        MapIdxRoundTrip(p);
        Some(Layout.MapIdx(p.x, p.y))
    }
  }

  /** Every slot of a full-size buffer is reached by exactly the in-bounds
      point that owns it, so `try_idx` covers the whole grid. */
  lemma TryIdxCoversGrid(m: Map, i: int)
    requires m.Valid() && 0 <= i < |m.tiles|
    ensures m.TryIdx(PointAt(i)) == Some(i)
  {
  }
}
