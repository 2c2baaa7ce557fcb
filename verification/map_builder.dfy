/** The three-phase dungeon builder of `src/map_builder.rs`: fill the grid with
    walls, place non-overlapping random rooms, then join the rooms, taken in
    order of their centres' x coordinate, by L-shaped tunnels.

    The random number generator is an explicit stream of raw draws. A stream
    that runs out before the builder is done yields `None`;
    `build_random_rooms` loops on an endless generator instead. */
module Builder {
  import opened Geometry
  import opened Wrappers
  import opened Layout
  import opened Grid
  import opened RoomSort
  import opened Carving

  const NUM_ROOMS: nat := 25

  datatype MapBuilder = MapBuilder(grid: Map, rooms: seq<Rect>, playerStart: Point)

  /** A room list with the number of draws spent to reach it. */
  datatype Sampled = Sampled(rooms: seq<Rect>, used: nat)

  /** The grid and room list after room placement, with the number of draws consumed. */
  datatype Placement = Placement(grid: Map, rooms: seq<Rect>, used: nat)

  // ---------------------------------------------------------------- draws

  /** `rng.range(lo, hi)` turning the raw draw d into a value of [lo, hi). */
  function Range(d: nat, lo: int, hi: int): (r: int)
    requires lo < hi
    ensures lo <= r < hi
    ensures lo <= d + lo < hi ==> r == d + lo
  {
    lo + d % (hi - lo)
  }

  /** The rectangles the placement loop can draw: origin in
      [1, SCREEN_WIDTH - 10) x [1, SCREEN_HEIGHT - 10), sides in [2, 10). */
  predicate WellDrawn(r: Rect) {
    && 1 <= r.x1 < SCREEN_WIDTH - 10
    && 1 <= r.y1 < SCREEN_HEIGHT - 10
    && 2 <= r.x2 - r.x1 < 10
    && 2 <= r.y2 - r.y1 < 10
  }

  /** The candidate room built from four consecutive draws, taken in the
      order origin x, origin y, width, height. */
  function Candidate(d: seq<nat>): (r: Rect)
    requires |d| >= 4
    ensures WellDrawn(r)
  {
    WithSize(Range(d[0], 1, SCREEN_WIDTH - 10), Range(d[1], 1, SCREEN_HEIGHT - 10),
             Range(d[2], 2, 10), Range(d[3], 2, 10))
  }

  /** Every rectangle of the allowed shape is the candidate of some draws. */
  lemma EveryWellDrawnIsACandidate(r: Rect)
    requires WellDrawn(r)
    ensures Candidate([r.x1 - 1, r.y1 - 1, r.x2 - r.x1 - 2, r.y2 - r.y1 - 2]) == r
  {
  }

  /** A drawn room lies inside the grid, and so does its centre, which is one
      of its own cells. */
  lemma WellDrawnInside(r: Rect)
    requires WellDrawn(r)
    ensures forall p: Point :: r.Contains(p) ==> IsInBounds(p)
    ensures r.Contains(r.Center()) && IsInBounds(r.Center())
  {
    CenterInside(r);
  }

  // ----------------------------------------------------------------- fill

  /** `fill`: every tile becomes `tile`; the buffer keeps its length. */
  method Fill(m: Map, tile: TileType) returns (m': Map)
    ensures |m'.tiles| == |m.tiles|
    ensures forall i | 0 <= i < |m'.tiles| :: m'.tiles[i] == tile
    ensures m.Valid() && tile == Wall ==> m'.Valid() && forall p: Point :: !m'.CanEnterTile(p)
  {
    var t := m.tiles;
    var i := 0;
    while i < |t|
      invariant 0 <= i <= |t| == |m.tiles|
      invariant forall j | 0 <= j < i :: t[j] == tile
    {
      t := t[i := tile];
      i := i + 1;
    }
    m' := Map(t);
  }

  // ---------------------------------------------------------------- rooms

  /** Some room already placed intersects the candidate. */
  predicate Overlaps(rooms: seq<Rect>, room: Rect) {
    exists k | 0 <= k < |rooms| :: rooms[k].Intersect(room)
  }

  /** No room from index `from` on intersects any room placed before it. */
  predicate NoOverlapFrom(rooms: seq<Rect>, from: nat) {
    forall i, j | 0 <= i < j < |rooms| && from <= j :: !rooms[i].Intersect(rooms[j])
  }

  /** `room.for_each` with the bounds guard: each in-bounds cell becomes floor. */
  method CarveRoom(m: Map, room: Rect) returns (m': Map)
    requires m.Valid()
    ensures CarvedExactly(m, m', [room])
  {
    m' := m;
    assert forall q: Point :: CoveredBy([], q) <==> CoveredBy([Rect(room.x1, room.y1, room.x2, room.y1)], q) by {
      forall q: Point ensures CoveredBy([], q) <==> CoveredBy([Rect(room.x1, room.y1, room.x2, room.y1)], q) {
        CoveredBySingle(Rect(room.x1, room.y1, room.x2, room.y1), q);
      }
    }
    CarvedSameCover(m, m', [], [Rect(room.x1, room.y1, room.x2, room.y1)]);
    var y := room.y1;
    while y < room.y2
      invariant room.y1 <= y && (y == room.y1 || y <= room.y2)
      invariant CarvedExactly(m, m', [Rect(room.x1, room.y1, room.x2, y)])
    {
      var done := [Rect(room.x1, room.y1, room.x2, y)];
      GrowByEmpty(m, m', done, Rect(room.x1, y, room.x1, y + 1));
      m' := CarveRow(m, m', done, room.x1, room.x2, y);
      RowsMerge(m, m', room.x1, room.y1, room.x2, y, Max(room.x1, room.x2));
      y := y + 1;
    }
    assert forall q: Point :: room.Contains(q) <==> Rect(room.x1, room.y1, room.x2, y).Contains(q);
    RectsSameCells(m, m', Rect(room.x1, room.y1, room.x2, y), room);
  }

  /** One row of a room's `for_each`: cells (x1, y) .. (x2 - 1, y) left to right. */
  method CarveRow(m0: Map, m: Map, done: seq<Rect>, x1: int, x2: int, y: int) returns (m': Map)
    requires CarvedExactly(m0, m, done + [Rect(x1, y, x1, y + 1)])
    ensures CarvedExactly(m0, m', done + [Rect(x1, y, Max(x1, x2), y + 1)])
  {
    m' := m;
    var x := x1;
    while x < x2
      invariant x1 <= x && (x == x1 || x <= x2)
      invariant CarvedExactly(m0, m', done + [Rect(x1, y, x, y + 1)])
    {
      var p := Point(x, y);
      var next := m';
      if IsInBounds(p) {
        MapIdxInRange(p);
        next := Map(m'.tiles[MapIdx(p.x, p.y) := Floor]);
      }
      CarveStep(m0, m', done, Rect(x1, y, x, y + 1), Rect(x1, y, x + 1, y + 1), p, next);
      m' := next;
      x := x + 1;
    }
  }

  /** Starting a new row or column: adding an empty rectangle covers the same cells. */
  lemma GrowByEmpty(m0: Map, m: Map, done: seq<Rect>, empty: Rect)
    requires CarvedExactly(m0, m, done)
    requires empty.x1 == empty.x2 || empty.y1 == empty.y2
    ensures CarvedExactly(m0, m, done + [empty])
  {
    forall q: Point ensures CoveredBy(done, q) <==> CoveredBy(done + [empty], q) {
      CoveredByAppend(done, [empty], q);
      CoveredBySingle(empty, q);
    }
    CarvedSameCover(m0, m, done, done + [empty]);
  }

  /** A tunnel starts from an empty span: nothing is carved yet. */
  lemma StartEmpty(m: Map, empty: Rect)
    requires m.Valid()
    requires empty.x1 == empty.x2 || empty.y1 == empty.y2
    ensures CarvedExactly(m, m, [empty])
  {
    GrowByEmpty(m, m, [], empty);
    assert [] + [empty] == [empty];
  }

  /** One tunnel cell: the span r grows into r' by the cell p. */
  lemma CarveCellStep(m0: Map, m: Map, r: Rect, r': Rect, p: Point, m': Map)
    requires CarvedExactly(m0, m, [r])
    requires forall q: Point :: r'.Contains(q) <==> r.Contains(q) || q == p
    requires m'.Valid()
    requires IsInBounds(p) ==> 0 <= MapIdx(p.x, p.y) < NUM_TILES && m'.tiles == m.tiles[MapIdx(p.x, p.y) := Floor]
    requires !IsInBounds(p) ==> m' == m
    ensures CarvedExactly(m0, m', [r'])
  {
    assert [] + [r] == [r] && [] + [r'] == [r'];
    CarveStep(m0, m, [], r, r', p, m');
  }

  /** Finishing row y: the rows above it plus row y form one taller rectangle. */
  lemma RowsMerge(m0: Map, m: Map, x1: int, y1: int, x2: int, y: int, x: int)
    requires y1 <= y && (x == x1 || x == x2) && (x1 < x2 ==> x == x2)
    requires CarvedExactly(m0, m, [Rect(x1, y1, x2, y)] + [Rect(x1, y, x, y + 1)])
    ensures CarvedExactly(m0, m, [Rect(x1, y1, x2, y + 1)])
  {
    var rs := [Rect(x1, y1, x2, y)] + [Rect(x1, y, x, y + 1)];
    forall q: Point ensures CoveredBy(rs, q) <==> CoveredBy([Rect(x1, y1, x2, y + 1)], q) {
      CoveredByAppend([Rect(x1, y1, x2, y)], [Rect(x1, y, x, y + 1)], q);
      CoveredBySingle(Rect(x1, y1, x2, y), q);
      CoveredBySingle(Rect(x1, y, x, y + 1), q);
      CoveredBySingle(Rect(x1, y1, x2, y + 1), q);
    }
    CarvedSameCover(m0, m, rs, [Rect(x1, y1, x2, y + 1)]);
  }

  lemma RectsSameCells(m0: Map, m: Map, a: Rect, b: Rect)
    requires CarvedExactly(m0, m, [a])
    requires forall q: Point :: b.Contains(q) <==> a.Contains(q)
    ensures CarvedExactly(m0, m, [b])
  {
    forall q: Point ensures CoveredBy([a], q) <==> CoveredBy([b], q) {
      CoveredBySingle(a, q);
      CoveredBySingle(b, q);
    }
    CarvedSameCover(m0, m, [a], [b]);
  }

  /** One iteration of the placement loop for an already drawn candidate: a
      candidate that intersects a placed room changes nothing; any other is
      appended and carved. */
  method TryPlace(m: Map, rooms: seq<Rect>, room: Rect) returns (m': Map, rooms': seq<Rect>)
    requires m.Valid()
    ensures Overlaps(rooms, room) ==> m' == m && rooms' == rooms
    ensures !Overlaps(rooms, room) ==> rooms' == rooms + [room] && CarvedExactly(m, m', [room])
  {
    var overlap := false;
    var i := 0;
    while i < |rooms|
      invariant 0 <= i <= |rooms|
      invariant overlap <==> exists k | 0 <= k < i :: rooms[k].Intersect(room)
    {
      if rooms[i].Intersect(room) {
        overlap := true;
      }
      i := i + 1;
    }
    if !overlap {
      rooms' := rooms + [room];
      m' := CarveRoom(m, room);
    } else {
      m', rooms' := m, rooms;
    }
  }

  /** The room list a run of rejection sampling ends with, and the number of
      draws it consumes: a reference definition of the placement loop, one
      candidate per step. `None` when the draws run out first. */
  function Sample(rooms: seq<Rect>, draws: seq<nat>): (r: Option<Sampled>)
    ensures r.Some? ==> r.value.used <= |draws|
    ensures r.Some? ==> |r.value.rooms| == Max(|rooms|, NUM_ROOMS)
    decreases |draws|
  {
    if |rooms| >= NUM_ROOMS then
      Some(Sampled(rooms, 0))
    else if |draws| < 4 then
      None
    else
      var room := Candidate(draws[..4]);
      var rooms' := if Overlaps(rooms, room) then rooms else rooms + [room];
      Shift(Sample(rooms', draws[4..]), 4)
  }

  /** The reference run only ever appends: the rooms it starts from stay in front. */
  lemma {:induction false} SampleKeepsPrefix(rooms: seq<Rect>, draws: seq<nat>)
    ensures Sample(rooms, draws).Some? ==> rooms <= Sample(rooms, draws).value.rooms
    decreases |draws|
  {
    if |rooms| < NUM_ROOMS && |draws| >= 4 {
      var room := Candidate(draws[..4]);
      var rooms' := if Overlaps(rooms, room) then rooms else rooms + [room];
      SampleKeepsPrefix(rooms', draws[4..]);
    }
  }

  /** The same outcome, counting k more draws as consumed. */
  function Shift(o: Option<Sampled>, k: nat): Option<Sampled> {
    match o
    case None => None
    case Some(s) => Some(Sampled(s.rooms, s.used + k))
  }

  /** One candidate of the placement loop keeps the loop's invariants. */
  lemma PlacementStep(m: Map, rooms: seq<Rect>, cur: Map, rs: seq<Rect>, room: Rect, next: Map, rs': seq<Rect>)
    requires rooms <= rs && NoOverlapFrom(rs, |rooms|)
    requires forall j | |rooms| <= j < |rs| :: WellDrawn(rs[j])
    requires CarvedExactly(m, cur, rs[|rooms|..])
    requires WellDrawn(room)
    requires Overlaps(rs, room) ==> next == cur && rs' == rs
    requires !Overlaps(rs, room) ==> rs' == rs + [room] && CarvedExactly(cur, next, [room])
    ensures rooms <= rs' && NoOverlapFrom(rs', |rooms|)
    ensures forall j | |rooms| <= j < |rs'| :: WellDrawn(rs'[j])
    ensures CarvedExactly(m, next, rs'[|rooms|..])
  {
    if !Overlaps(rs, room) {
      CarvedCompose(m, cur, next, rs[|rooms|..], [room]);
      assert rs'[|rooms|..] == rs[|rooms|..] + [room];
    }
  }

  /** One candidate of the placement loop moves the reference run four draws on. */
  lemma SampleStep(rooms: seq<Rect>, rs: seq<Rect>, rs': seq<Rect>, draws: seq<nat>, pos: nat)
    requires |rs| < NUM_ROOMS && pos + 4 <= |draws|
    requires Sample(rooms, draws) == Shift(Sample(rs, draws[pos..]), pos)
    requires var room := Candidate(draws[pos..pos + 4]);
             rs' == if Overlaps(rs, room) then rs else rs + [room]
    ensures Sample(rooms, draws) == Shift(Sample(rs', draws[pos + 4..]), pos + 4)
  {
    SampleAdvance(rs, draws, pos);
    ShiftTwice(Sample(rs', draws[pos + 4..]), 4, pos);
  }

  /** Where the reference run stops: a full list, or too few draws for a candidate. */
  lemma SampleEnds(rs: seq<Rect>, d: seq<nat>)
    ensures |rs| >= NUM_ROOMS ==> Sample(rs, d) == Some(Sampled(rs, 0))
    ensures |rs| < NUM_ROOMS && |d| < 4 ==> Sample(rs, d) == None
  {
  }

  /** One unfolding of the reference run, from draw pos of the stream. */
  lemma SampleAdvance(rs: seq<Rect>, draws: seq<nat>, pos: nat)
    requires |rs| < NUM_ROOMS && pos + 4 <= |draws|
    ensures var room := Candidate(draws[pos..pos + 4]);
            Sample(rs, draws[pos..]) ==
              Shift(Sample(if Overlaps(rs, room) then rs else rs + [room], draws[pos + 4..]), 4)
  {
    var d := draws[pos..];
    assert d[..4] == draws[pos..pos + 4];
    assert d[4..] == draws[pos + 4..];
  }

  lemma ShiftTwice(o: Option<Sampled>, a: nat, b: nat)
    ensures Shift(Shift(o, a), b) == Shift(o, a + b)
  {
    match o
    case None =>
    case Some(t) =>
  }

  /** `build_random_rooms`: draw candidates, four draws each, until the room
      list holds NUM_ROOMS rooms. The outcome is the reference `Sample`. The
      rooms given on entry stay in front; each new room intersects no earlier
      one and has the drawn shape; the grid changes exactly by carving the
      new rooms. */
  method BuildRandomRooms(m: Map, rooms: seq<Rect>, draws: seq<nat>) returns (r: Option<Placement>)
    requires m.Valid()
    ensures r.None? <==> Sample(rooms, draws).None?
    ensures r.Some? ==> Sampled(r.value.rooms, r.value.used) == Sample(rooms, draws).value
    ensures r.None? ==> |rooms| < NUM_ROOMS
    ensures r.Some? ==>
      && |r.value.rooms| == Max(|rooms|, NUM_ROOMS)
      && rooms <= r.value.rooms
      && NoOverlapFrom(r.value.rooms, |rooms|)
      && (forall j | |rooms| <= j < |r.value.rooms| :: WellDrawn(r.value.rooms[j]))
      && CarvedExactly(m, r.value.grid, r.value.rooms[|rooms|..])
      && r.value.used <= |draws|
      && 4 * (|r.value.rooms| - |rooms|) <= r.value.used
  {
    var cur := m;
    var rs := rooms;
    var pos := 0;
    assert rs[|rooms|..] == [];
    while |rs| < NUM_ROOMS
      invariant 0 <= pos <= |draws|
      invariant rooms <= rs && |rs| <= Max(|rooms|, NUM_ROOMS)
      invariant 4 * (|rs| - |rooms|) <= pos
      invariant NoOverlapFrom(rs, |rooms|)
      invariant forall j | |rooms| <= j < |rs| :: WellDrawn(rs[j])
      invariant CarvedExactly(m, cur, rs[|rooms|..])
      invariant Sample(rooms, draws) == Shift(Sample(rs, draws[pos..]), pos)
      decreases |draws| - pos
    {
      if |draws| - pos < 4 {
        SampleEnds(rs, draws[pos..]);
        return None;
      }
      var room := Candidate(draws[pos..pos + 4]);
      var next, rs' := TryPlace(cur, rs, room);
      SampleStep(rooms, rs, rs', draws, pos);
      PlacementStep(m, rooms, cur, rs, room, next, rs');
      pos := pos + 4;
      cur, rs := next, rs';
    }
    SampleEnds(rs, draws[pos..]);
    return Some(Placement(cur, rs, pos));
  }

  // -------------------------------------------------------------- tunnels

  /** `apply_horizontal_tunnel`: floor along row y between x1 and x2, the
      larger end excluded, out-of-bounds cells skipped. */
  method ApplyHorizontalTunnel(m: Map, x1: int, x2: int, y: int) returns (m': Map)
    requires m.Valid()
    ensures CarvedExactly(m, m', [HorizontalSpan(x1, x2, y)])
  {
    m' := m;
    var lo := Min(x1, x2);
    StartEmpty(m, Rect(lo, y, lo, y + 1));
    var x := lo;
    while x < Max(x1, x2)
      invariant lo <= x <= Max(x1, x2)
      invariant CarvedExactly(m, m', [Rect(lo, y, x, y + 1)])
    {
      var next := m';
      match m'.TryIdx(Point(x, y)) {
        case Some(idx) => next := Map(m'.tiles[idx := Floor]);
        case None =>
      }
      CarveCellStep(m, m', Rect(lo, y, x, y + 1), Rect(lo, y, x + 1, y + 1), Point(x, y), next);
      m' := next;
      x := x + 1;
    }
    assert [Rect(lo, y, x, y + 1)] == [HorizontalSpan(x1, x2, y)];
  }

  /** `apply_vertical_tunnel`: floor along column x between y1 and y2, the
      larger end excluded, out-of-bounds cells skipped. */
  method ApplyVerticalTunnel(m: Map, y1: int, y2: int, x: int) returns (m': Map)
    requires m.Valid()
    ensures CarvedExactly(m, m', [VerticalSpan(y1, y2, x)])
  {
    m' := m;
    var lo := Min(y1, y2);
    StartEmpty(m, Rect(x, lo, x + 1, lo));
    var y := lo;
    while y < Max(y1, y2)
      invariant lo <= y <= Max(y1, y2)
      invariant CarvedExactly(m, m', [Rect(x, lo, x + 1, y)])
    {
      var next := m';
      match m'.TryIdx(Point(x, y)) {
        case Some(idx) => next := Map(m'.tiles[idx := Floor]);
        case None =>
      }
      CarveCellStep(m, m', Rect(x, lo, x + 1, y), Rect(x, lo, x + 1, y + 1), Point(x, y), next);
      m' := next;
      y := y + 1;
    }
    assert [Rect(x, lo, x + 1, y)] == [VerticalSpan(y1, y2, x)];
  }

  /** The order of the two end points does not matter to either tunnel. */
  lemma TunnelsSymmetric(m: Map, a: Map, b: Map, c1: int, c2: int, k: int, horizontal: bool)
    requires horizontal ==> CarvedExactly(m, a, [HorizontalSpan(c1, c2, k)]) && CarvedExactly(m, b, [HorizontalSpan(c2, c1, k)])
    requires !horizontal ==> CarvedExactly(m, a, [VerticalSpan(c1, c2, k)]) && CarvedExactly(m, b, [VerticalSpan(c2, c1, k)])
    ensures a == b
  {
    if horizontal {
      assert HorizontalSpan(c1, c2, k) == HorizontalSpan(c2, c1, k);
      CarvedExactlyUnique(m, a, b, [HorizontalSpan(c1, c2, k)]);
    } else {
      assert VerticalSpan(c1, c2, k) == VerticalSpan(c2, c1, k);
      CarvedExactlyUnique(m, a, b, [VerticalSpan(c1, c2, k)]);
    }
  }

  // ------------------------------------------------------------ corridors

  /** The two tunnels joining prev to curr, in the order they are dug. A draw
      of 1 digs horizontally along prev's row and then vertically along curr's
      column; otherwise vertically along prev's column and then horizontally
      along curr's row. */
  function PairSegments(prev: Rect, curr: Rect, d: nat): (r: seq<Rect>)
    ensures |r| == 2
    ensures forall p: Point | r[0].Contains(p) || r[1].Contains(p) ::
              InBox(prev.Center(), curr.Center(), p)
  {
    var a := prev.Center();
    var b := curr.Center();
    if Range(d, 0, 2) == 1 then
      [HorizontalSpan(a.x, b.x, a.y), VerticalSpan(a.y, b.y, b.x)]
    else
      [VerticalSpan(a.y, b.y, a.x), HorizontalSpan(a.x, b.x, b.y)]
  }

  /** p lies in the closed bounding box of the two centres a and b. */
  predicate InBox(a: Point, b: Point, p: Point) {
    Min(a.x, b.x) <= p.x <= Max(a.x, b.x) && Min(a.y, b.y) <= p.y <= Max(a.y, b.y)
  }

  /** 4-neighbours: the moves a walker on the grid can make. */
  predicate Adjacent(p: Point, q: Point) {
    (p.x == q.x && (p.y - q.y == 1 || q.y - p.y == 1)) ||
    (p.y == q.y && (p.x - q.x == 1 || q.x - p.x == 1))
  }

  /** p is a corridor cell of the pair or one of the two centres (which are
      room cells, so floor once the rooms are carved). */
  predicate OnPair(segs: seq<Rect>, a: Point, b: Point, p: Point)
    requires |segs| == 2
  {
    segs[0].Contains(p) || segs[1].Contains(p) || p == a || p == b
  }

  /** Consecutive points of w are 4-neighbours. */
  predicate IsWalk(w: seq<Point>) {
    forall i | 0 <= i < |w| - 1 :: Adjacent(w[i], w[i + 1])
  }

  /** The straight walk along column x from (x, y0) to (x, y1), both ends included. */
  function VLeg(x: int, y0: int, y1: int): (w: seq<Point>)
    ensures |w| >= 1 && w[0] == Point(x, y0) && w[|w| - 1] == Point(x, y1)
    ensures IsWalk(w)
    ensures forall i | 0 <= i < |w| :: w[i].x == x && Min(y0, y1) <= w[i].y <= Max(y0, y1)
  {
    if y0 <= y1 then seq(y1 - y0 + 1, i => Point(x, y0 + i))
    else seq(y0 - y1 + 1, i => Point(x, y0 - i))
  }

  /** The straight walk along row y from (x0, y) to (x1, y), x0 <= x1, both ends included. */
  function HLeg(y: int, x0: int, x1: int): (w: seq<Point>)
    requires x0 <= x1
    ensures |w| >= 1 && w[0] == Point(x0, y) && w[|w| - 1] == Point(x1, y)
    ensures IsWalk(w)
    ensures forall i | 0 <= i < |w| :: w[i].y == y && x0 <= w[i].x <= x1
  {
    seq(x1 - x0 + 1, i => Point(x0 + i, y))
  }

  lemma WalkConcat(v: seq<Point>, h: seq<Point>)
    requires IsWalk(v) && IsWalk(h) && |v| >= 1 && |h| >= 1 && v[|v| - 1] == h[0]
    ensures IsWalk(v + h[1..])
  {
    var w := v + h[1..];
    forall i | 0 <= i < |w| - 1 ensures Adjacent(w[i], w[i + 1]) {
      if i + 1 < |v| {
        assert w[i] == v[i] && w[i + 1] == v[i + 1];
      } else if i == |v| - 1 {
        assert w[i] == h[0] && w[i + 1] == h[1];
      } else {
        assert w[i] == h[i - |v| + 1] && w[i + 1] == h[i - |v| + 2];
      }
    }
  }

  /** The centres of consecutive sorted rooms are joined by a 4-connected walk
      over the pair's corridor cells, except in the case of
      `HorizontalFirstCornerGap`: a vertical-first corridor always joins, and
      so does a horizontal-first one whose left centre is not below the right
      or lies in the same column. */
  lemma CorridorJoins(prev: Rect, curr: Rect, d: nat) returns (w: seq<Point>)
    requires prev.Center().x <= curr.Center().x
    requires Range(d, 0, 2) == 0 || prev.Center().y <= curr.Center().y || prev.Center().x == curr.Center().x
    ensures |w| >= 1 && w[0] == prev.Center() && w[|w| - 1] == curr.Center()
    ensures IsWalk(w)
    ensures forall i | 0 <= i < |w| :: OnPair(PairSegments(prev, curr, d), prev.Center(), curr.Center(), w[i])
  {
    if Range(d, 0, 2) == 1 && prev.Center().y > curr.Center().y {
      w := SameColumnJoins(prev, curr, d);
    } else if Range(d, 0, 2) == 1 {
      w := HorizontalFirstJoins(prev, curr, d);
    } else {
      w := VerticalFirstJoins(prev, curr, d);
    }
  }

  /** Horizontal first with both centres in one column: the horizontal tunnel
      is empty and the vertical one alone leads up from a to b. */
  lemma SameColumnJoins(prev: Rect, curr: Rect, d: nat) returns (w: seq<Point>)
    requires prev.Center().x == curr.Center().x
    requires Range(d, 0, 2) == 1
    ensures |w| >= 1 && w[0] == prev.Center() && w[|w| - 1] == curr.Center()
    ensures IsWalk(w)
    ensures forall i | 0 <= i < |w| :: OnPair(PairSegments(prev, curr, d), prev.Center(), curr.Center(), w[i])
  {
    var a, b := prev.Center(), curr.Center();
    var segs := PairSegments(prev, curr, d);
    w := VLeg(a.x, a.y, b.y);
    forall i | 0 <= i < |w| ensures OnPair(segs, a, b, w[i]) {
      if w[i] != a && w[i] != b {
        assert segs[1].Contains(w[i]);
      }
    }
  }

  /** Horizontal first, left centre not below the right: along row a.y, then up column b.x. */
  lemma HorizontalFirstJoins(prev: Rect, curr: Rect, d: nat) returns (w: seq<Point>)
    requires prev.Center().x <= curr.Center().x && prev.Center().y <= curr.Center().y
    requires Range(d, 0, 2) == 1
    ensures |w| >= 1 && w[0] == prev.Center() && w[|w| - 1] == curr.Center()
    ensures IsWalk(w)
    ensures forall i | 0 <= i < |w| :: OnPair(PairSegments(prev, curr, d), prev.Center(), curr.Center(), w[i])
  {
    var a, b := prev.Center(), curr.Center();
    var segs := PairSegments(prev, curr, d);
    var h, v := HLeg(a.y, a.x, b.x), VLeg(b.x, a.y, b.y);
    WalkConcat(h, v);
    w := h + v[1..];
    forall i | 0 <= i < |w| ensures OnPair(segs, a, b, w[i]) {
      if i < |h| {
        assert w[i] == h[i];
        if h[i].x == b.x && a.y < b.y {
          assert segs[1].Contains(w[i]);
        }
      } else {
        assert w[i] == v[i - |h| + 1];
      }
    }
  }

  /** Vertical first: along column a.x to row b.y, then across to b. */
  lemma VerticalFirstJoins(prev: Rect, curr: Rect, d: nat) returns (w: seq<Point>)
    requires prev.Center().x <= curr.Center().x
    requires Range(d, 0, 2) == 0
    ensures |w| >= 1 && w[0] == prev.Center() && w[|w| - 1] == curr.Center()
    ensures IsWalk(w)
    ensures forall i | 0 <= i < |w| :: OnPair(PairSegments(prev, curr, d), prev.Center(), curr.Center(), w[i])
  {
    var a, b := prev.Center(), curr.Center();
    var segs := PairSegments(prev, curr, d);
    var v, h := VLeg(a.x, a.y, b.y), HLeg(b.y, a.x, b.x);
    WalkConcat(v, h);
    w := v + h[1..];
    forall i | 0 <= i < |w| ensures OnPair(segs, a, b, w[i]) {
      if i < |v| {
        assert w[i] == v[i];
        if v[i].y == b.y && a.y < b.y && a.x < b.x {
          assert segs[1].Contains(w[i]);
        }
      } else {
        assert w[i] == h[i - |v| + 1];
      }
    }
  }

  /** The remaining case: the horizontal tunnel is dug first and the left
      centre a lies below the right centre b (a.x < b.x, a.y > b.y). The corner
      (b.x, a.y) is dug by neither tunnel, the horizontal piece ends at
      (b.x - 1, a.y) and the vertical piece at (b.x, a.y - 1), and no walk over
      the pair's corridor cells leads from a to b. */
  lemma {:induction false} HorizontalFirstCornerGap(prev: Rect, curr: Rect, d: nat, w: seq<Point>)
    requires Range(d, 0, 2) == 1
    requires prev.Center().x < curr.Center().x && prev.Center().y > curr.Center().y
    requires |w| >= 1 && w[0] == prev.Center() && IsWalk(w)
    requires forall i | 0 <= i < |w| :: OnPair(PairSegments(prev, curr, d), prev.Center(), curr.Center(), w[i])
    ensures w[|w| - 1] != curr.Center()
    ensures var corner := Point(curr.Center().x, prev.Center().y);
            !OnPair(PairSegments(prev, curr, d), prev.Center(), curr.Center(), corner)
  {
    var a, b := prev.Center(), curr.Center();
    var k := 0;
    while k < |w| - 1
      invariant 0 <= k <= |w| - 1
      invariant w[k].y == a.y && a.x <= w[k].x < b.x
    {
      assert Adjacent(w[k], w[k + 1]);
      k := k + 1;
    }
  }

  /** Number of consecutive pairs among n rooms. */
  function PairCount(n: nat): nat { if n == 0 then 0 else n - 1 }

  /** All tunnels of the first n pairs of the sorted rooms, draw i choosing the
      shape of pair i + 1. */
  function Corridors(sorted: seq<Rect>, draws: seq<nat>, n: nat): (r: seq<Rect>)
    requires n == 0 || n < |sorted|
    requires n <= |draws|
    ensures |r| == 2 * n
  {
    if n == 0 then []
    else Corridors(sorted, draws, n - 1) + PairSegments(sorted[n - 1], sorted[n], draws[n - 1])
  }

  /** Corridors between drawn rooms never leave the grid: each tunnel stays in
      the bounding box of two room centres, so the bounds guard in the tunnel
      loops never skips a cell. */
  lemma {:induction false} CorridorsInBounds(sorted: seq<Rect>, draws: seq<nat>, n: nat, q: Point)
    requires n == 0 || n < |sorted|
    requires n <= |draws|
    requires forall k | 0 <= k < |sorted| :: WellDrawn(sorted[k])
    requires CoveredBy(Corridors(sorted, draws, n), q)
    ensures IsInBounds(q)
  {
    if n > 0 {
      var prefix := Corridors(sorted, draws, n - 1);
      var segs := PairSegments(sorted[n - 1], sorted[n], draws[n - 1]);
      CoveredByAppend(prefix, segs, q);
      if CoveredBy(prefix, q) {
        CorridorsInBounds(sorted, draws, n - 1, q);
      } else {
        PairInBounds(sorted[n - 1], sorted[n], draws[n - 1], q);
      }
    }
  }

  /** The tunnels between two drawn rooms stay inside the grid. */
  lemma PairInBounds(prev: Rect, curr: Rect, d: nat, q: Point)
    requires WellDrawn(prev) && WellDrawn(curr)
    requires CoveredBy(PairSegments(prev, curr, d), q)
    ensures IsInBounds(q)
  {
    var segs := PairSegments(prev, curr, d);
    var k :| 0 <= k < 2 && segs[k].Contains(q);
    assert InBox(prev.Center(), curr.Center(), q);
    WellDrawnInside(prev);
    WellDrawnInside(curr);
  }

  /** The body of the corridor loop for one pair: one draw picks which tunnel
      is dug first, from the previous room's centre to the current one's. */
  method DigPair(m: Map, prevRoom: Rect, currRoom: Rect, d: nat) returns (first: Map, second: Map)
    requires m.Valid()
    ensures CarvedExactly(m, first, [PairSegments(prevRoom, currRoom, d)[0]])
    ensures CarvedExactly(first, second, [PairSegments(prevRoom, currRoom, d)[1]])
  {
    var prev := prevRoom.Center();
    var curr := currRoom.Center();
    if Range(d, 0, 2) == 1 {
      first := ApplyHorizontalTunnel(m, prev.x, curr.x, prev.y);
      second := ApplyVerticalTunnel(first, prev.y, curr.y, curr.x);
    } else {
      first := ApplyVerticalTunnel(m, prev.y, curr.y, prev.x);
      second := ApplyHorizontalTunnel(first, prev.x, curr.x, curr.y);
    }
  }

  /** Digging the two tunnels of pair i extends the corridors dug so far by that pair's. */
  lemma CorridorStep(m: Map, cur: Map, first: Map, second: Map, sorted: seq<Rect>, draws: seq<nat>, i: nat)
    requires 1 <= i < |sorted| && i <= |draws|
    requires CarvedExactly(m, cur, Corridors(sorted, draws, i - 1))
    requires var segs := PairSegments(sorted[i - 1], sorted[i], draws[i - 1]);
             CarvedExactly(cur, first, [segs[0]]) && CarvedExactly(first, second, [segs[1]])
    ensures CarvedExactly(m, second, Corridors(sorted, draws, i))
  {
    var segs := PairSegments(sorted[i - 1], sorted[i], draws[i - 1]);
    assert [segs[0]] + [segs[1]] == segs;
    CarvedCompose(cur, first, second, [segs[0]], [segs[1]]);
    CarvedCompose(m, cur, second, Corridors(sorted, draws, i - 1), segs);
  }

  /** `build_corridors`: joins consecutive rooms of a sorted copy of the room
      list, one draw per pair. The grid changes exactly by the corridors'
      cells; the room list is only read. */
  method BuildCorridors(m: Map, rooms: seq<Rect>, draws: seq<nat>) returns (r: Option<Map>)
    requires m.Valid()
    ensures r.None? <==> |draws| < PairCount(|rooms|)
    ensures r.Some? ==> CarvedExactly(m, r.value, Corridors(SortByCenterX(rooms), draws, PairCount(|rooms|)))
  {
    var sorted := SortByCenterX(rooms);
    var cur := m;
    var i := 1;
    assert CarvedExactly(m, cur, []);
    while i < |sorted|
      invariant 1 <= i <= Max(1, |sorted|)
      invariant i - 1 <= |draws|
      invariant CarvedExactly(m, cur, Corridors(sorted, draws, i - 1))
    {
      if |draws| <= i - 1 {
        return None;
      }
      var first, second := DigPair(cur, sorted[i - 1], sorted[i], draws[i - 1]);
      CorridorStep(m, cur, first, second, sorted, draws, i);
      cur := second;
      i := i + 1;
    }
    return Some(cur);
  }

  // ------------------------------------------------------------ the whole

  /** The finished level: its floor is exactly the rooms and the corridors dug
      with the given corridor draws, clipped to the grid. */
  ghost predicate FloorIsRoomsAndCorridors(b: MapBuilder, corridorDraws: seq<nat>) {
    && b.grid.Valid()
    && |b.rooms| >= 1
    && |corridorDraws| >= |b.rooms| - 1
    && (forall q: Point ::
          b.grid.CanEnterTile(q) <==>
            IsInBounds(q) && CoveredBy(b.rooms + Corridors(SortByCenterX(b.rooms), corridorDraws, |b.rooms| - 1), q))
    && (forall q: Point | CoveredBy(Corridors(SortByCenterX(b.rooms), corridorDraws, |b.rooms| - 1), q) ::
          b.grid.CanEnterTile(q))
  }

  /** The draw stream is long enough for a whole level: placement finishes
      and one draw is left for every pair of rooms. */
  predicate Completes(draws: seq<nat>) {
    var s := Sample([], draws);
    s.Some? && |draws| - s.value.used >= NUM_ROOMS - 1
  }

  /** b is the level the draws describe: the reference run's rooms, the spawn
      point at the centre of the first of them, and floor exactly on the
      rooms and on the corridors dug with the draws that follow placement. */
  ghost predicate Generated(draws: seq<nat>, b: MapBuilder) {
    var s := Sample([], draws);
    && s.Some?
    && b.rooms == s.value.rooms
    && b.playerStart == b.rooms[0].Center()
    && FloorIsRoomsAndCorridors(b, draws[s.value.used..])
  }

  /** Generation is deterministic: the draws fix the grid, the room list and
      the spawn point. */
  lemma GeneratedIsUnique(draws: seq<nat>, b1: MapBuilder, b2: MapBuilder)
    requires Generated(draws, b1) && Generated(draws, b2)
    ensures b1 == b2
  {
    forall i | 0 <= i < NUM_TILES ensures b1.grid.tiles[i] == b2.grid.tiles[i] {
      var p := PointAt(i);
      MapIdxRoundTrip(p);
      assert b1.grid.CanEnterTile(p) == b2.grid.CanEnterTile(p);
    }
    assert b1.grid.tiles == b2.grid.tiles;
  }

  /** The floor of a grid that started as all wall and was carved by the rooms
      and then by the corridors. */
  lemma FloorIff(m: Map, grid: Map, rs: seq<Rect>)
    requires CarvedExactly(m, grid, rs)
    requires forall i | 0 <= i < |m.tiles| :: m.tiles[i] == Wall
    ensures forall q: Point :: grid.CanEnterTile(q) <==> IsInBounds(q) && CoveredBy(rs, q)
  {
    forall q: Point
      ensures grid.CanEnterTile(q) <==> IsInBounds(q) && CoveredBy(rs, q)
    {
      if IsInBounds(q) {
        MapIdxRoundTrip(q);
      }
    }
  }

  /** Sorting keeps every room drawn. */
  lemma SortedWellDrawn(rooms: seq<Rect>)
    requires forall k | 0 <= k < |rooms| :: WellDrawn(rooms[k])
    ensures forall k | 0 <= k < |SortByCenterX(rooms)| :: WellDrawn(SortByCenterX(rooms)[k])
  {
    var sorted := SortByCenterX(rooms);
    forall k | 0 <= k < |sorted| ensures WellDrawn(sorted[k]) {
      assert sorted[k] in multiset(rooms);
    }
  }

  /** The facts `new` promises about a level whose rooms and corridors were
      carved into an all-wall grid. */
  lemma LevelFloor(m: Map, roomsGrid: Map, grid: Map, rooms: seq<Rect>, rest: seq<nat>)
    requires forall i | 0 <= i < |m.tiles| :: m.tiles[i] == Wall
    requires |rooms| == NUM_ROOMS && |rest| >= NUM_ROOMS - 1
    requires forall k | 0 <= k < |rooms| :: WellDrawn(rooms[k])
    requires CarvedExactly(m, roomsGrid, rooms)
    requires CarvedExactly(roomsGrid, grid, Corridors(SortByCenterX(rooms), rest, NUM_ROOMS - 1))
    ensures FloorIsRoomsAndCorridors(MapBuilder(grid, rooms, rooms[0].Center()), rest)
    ensures grid.CanEnterTile(rooms[0].Center())
    ensures forall k, p: Point | 0 <= k < |rooms| && rooms[k].Contains(p) :: grid.CanEnterTile(p)
  {
    var corridors := Corridors(SortByCenterX(rooms), rest, NUM_ROOMS - 1);
    CarvedCompose(m, roomsGrid, grid, rooms, corridors);
    FloorIff(m, grid, rooms + corridors);
    forall k, q: Point | 0 <= k < |rooms| && rooms[k].Contains(q)
      ensures grid.CanEnterTile(q)
    {
      WellDrawnInside(rooms[k]);
      CoveredByAppend(rooms, corridors, q);
    }
    SortedWellDrawn(rooms);
    forall q: Point | CoveredBy(corridors, q) ensures grid.CanEnterTile(q) {
      CorridorsInBounds(SortByCenterX(rooms), rest, NUM_ROOMS - 1, q);
      CoveredByAppend(rooms, corridors, q);
    }
    WellDrawnInside(rooms[0]);
    var b := MapBuilder(grid, rooms, rooms[0].Center());
    assert b.rooms == rooms && b.grid == grid;
    assert Corridors(SortByCenterX(b.rooms), rest, |b.rooms| - 1) == corridors;
  }

  /** `MapBuilder::new`: walls everywhere, NUM_ROOMS rooms, corridors, and the
      spawn point at the centre of the first room placed (not of the first
      room of the sorted copy). */
  method New(draws: seq<nat>) returns (r: Option<MapBuilder>)
    ensures r.None? <==> !Completes(draws)
    ensures r.Some? ==> Generated(draws, r.value)
    ensures r.Some? ==>
      && r.value.grid.Valid()
      && |r.value.rooms| == NUM_ROOMS
      && NoOverlapFrom(r.value.rooms, 0)
      && (forall k | 0 <= k < |r.value.rooms| :: WellDrawn(r.value.rooms[k]))
      && r.value.playerStart == r.value.rooms[0].Center()
      && r.value.grid.CanEnterTile(r.value.playerStart)
      && (forall k, p: Point | 0 <= k < |r.value.rooms| && r.value.rooms[k].Contains(p) :: r.value.grid.CanEnterTile(p))
  {
    var m := Map.New();
    m := Fill(m, Wall);
    var placed := BuildRandomRooms(m, [], draws);
    if placed.None? {
      return None;
    }
    var p := placed.value;
    var rest := draws[p.used..];
    var dug := BuildCorridors(p.grid, p.rooms, rest);
    if dug.None? {
      return None;
    }
    assert p.rooms[0..] == p.rooms;
    LevelFloor(m, p.grid, dug.value, p.rooms, rest);
    var b := MapBuilder(dug.value, p.rooms, p.rooms[0].Center());
    return Some(b);
  }
}
