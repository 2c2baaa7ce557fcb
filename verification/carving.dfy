/** What a builder phase does to the grid: it turns the in-bounds cells of some
    rectangles into floor and leaves every other tile alone. Room carving,
    both tunnel kinds and whole phases are all stated this way. */
module Carving {
  import opened Geometry
  import opened Layout
  import opened Grid

  /** Some rectangle of rs has p among its `for_each` cells. */
  predicate CoveredBy(rs: seq<Rect>, p: Point) {
    exists k | 0 <= k < |rs| :: rs[k].Contains(p)
  }

  /** `after` is `before` with exactly the in-bounds cells covered by rs set
      to floor. Out-of-bounds cells of rs have no slot and are ignored. */
  predicate CarvedExactly(before: Map, after: Map, rs: seq<Rect>) {
    && before.Valid()
    && after.Valid()
    && forall i | 0 <= i < NUM_TILES ::
         after.tiles[i] == (if CoveredBy(rs, PointAt(i)) then Floor else before.tiles[i])
  }

  /** The cells `apply_horizontal_tunnel(x1, x2, y)` visits: row y over the
      half-open range from the smaller to the larger of x1 and x2. */
  function HorizontalSpan(x1: int, x2: int, y: int): (r: Rect)
    ensures forall p: Point :: r.Contains(p) <==> p.y == y && Min(x1, x2) <= p.x < Max(x1, x2)
  {
    Rect(Min(x1, x2), y, Max(x1, x2), y + 1)
  }

  /** The cells `apply_vertical_tunnel(y1, y2, x)` visits: column x over the
      half-open range from the smaller to the larger of y1 and y2. */
  function VerticalSpan(y1: int, y2: int, x: int): (r: Rect)
    ensures forall p: Point :: r.Contains(p) <==> p.x == x && Min(y1, y2) <= p.y < Max(y1, y2)
  {
    Rect(x, Min(y1, y2), x + 1, Max(y1, y2))
  }

  lemma CoveredByAppend(a: seq<Rect>, b: seq<Rect>, p: Point)
    ensures CoveredBy(a + b, p) <==> CoveredBy(a, p) || CoveredBy(b, p)
  {
    if CoveredBy(a + b, p) {
      var k :| 0 <= k < |a + b| && (a + b)[k].Contains(p);
      if k >= |a| {
        assert b[k - |a|].Contains(p);
      }
    }
    if CoveredBy(a, p) {
      var k :| 0 <= k < |a| && a[k].Contains(p);
      assert (a + b)[k] == a[k];
    }
    if CoveredBy(b, p) {
      var k :| 0 <= k < |b| && b[k].Contains(p);
      assert (a + b)[|a| + k] == b[k];
    }
  }

  lemma CoveredBySingle(r: Rect, p: Point)
    ensures CoveredBy([r], p) <==> r.Contains(p)
  {
    if r.Contains(p) {
      assert [r][0] == r;
    }
  }

  /** A carve is determined by its input and its rectangles. */
  lemma CarvedExactlyUnique(before: Map, a1: Map, a2: Map, rs: seq<Rect>)
    requires CarvedExactly(before, a1, rs) && CarvedExactly(before, a2, rs)
    ensures a1 == a2
  {
    assert a1.tiles == a2.tiles;
  }

  /** Two carves in a row are one carve of both rectangle lists. */
  lemma CarvedCompose(a: Map, b: Map, c: Map, rs1: seq<Rect>, rs2: seq<Rect>)
    requires CarvedExactly(a, b, rs1) && CarvedExactly(b, c, rs2)
    ensures CarvedExactly(a, c, rs1 + rs2)
  {
    forall i | 0 <= i < NUM_TILES
      ensures c.tiles[i] == (if CoveredBy(rs1 + rs2, PointAt(i)) then Floor else a.tiles[i])
    {
      CoveredByAppend(rs1, rs2, PointAt(i));
    }
  }

  /** Carving only ever turns walls into floor, and keeps the grid's size. */
  lemma CarvedOnlyAddsFloor(before: Map, after: Map, rs: seq<Rect>, i: int)
    requires CarvedExactly(before, after, rs) && 0 <= i < NUM_TILES
    ensures |after.tiles| == |before.tiles|
    ensures before.tiles[i] == Floor ==> after.tiles[i] == Floor
    ensures after.tiles[i] != before.tiles[i] ==> before.tiles[i] == Wall && after.tiles[i] == Floor
  {
  }

  /** Every in-bounds cell of a carved rectangle can be entered afterwards. */
  lemma CarvedCellEnterable(before: Map, after: Map, rs: seq<Rect>, p: Point)
    requires CarvedExactly(before, after, rs)
    requires CoveredBy(rs, p) && IsInBounds(p)
    ensures after.CanEnterTile(p)
  {
    MapIdxRoundTrip(p);
  }

  /** Replacing the rectangle list by one that covers the same cells keeps the carve. */
  lemma CarvedSameCover(before: Map, after: Map, rs: seq<Rect>, rs': seq<Rect>)
    requires CarvedExactly(before, after, rs)
    requires forall q: Point :: CoveredBy(rs, q) <==> CoveredBy(rs', q)
    ensures CarvedExactly(before, after, rs')
  {
  }

  /** One step of a carving loop: the last rectangle r grows into r' by the
      single cell p, which is set to floor if and only if it is in bounds. */
  lemma CarveStep(m0: Map, m: Map, done: seq<Rect>, r: Rect, r': Rect, p: Point, m': Map)
    requires CarvedExactly(m0, m, done + [r])
    requires forall q: Point :: r'.Contains(q) <==> r.Contains(q) || q == p
    requires m'.Valid()
    requires IsInBounds(p) ==> 0 <= MapIdx(p.x, p.y) < NUM_TILES && m'.tiles == m.tiles[MapIdx(p.x, p.y) := Floor]
    requires !IsInBounds(p) ==> m' == m
    ensures CarvedExactly(m0, m', done + [r'])
  {
    forall i | 0 <= i < NUM_TILES
      ensures m'.tiles[i] == (if CoveredBy(done + [r'], PointAt(i)) then Floor else m0.tiles[i])
    {
      var q := PointAt(i);
      CoveredByAppend(done, [r], q);
      CoveredByAppend(done, [r'], q);
      CoveredBySingle(r, q);
      CoveredBySingle(r', q);
      if q == p {
        assert i == MapIdx(p.x, p.y);
      } else if IsInBounds(p) {
        MapIdxRoundTrip(p);
        assert i != MapIdx(p.x, p.y);
      }
    }
  }
}
