# Dungeon map generator, modelled in Dafny

The game's level generator builds a `SCREEN_WIDTH` x `SCREEN_HEIGHT` grid of
wall and floor tiles in three phases. First it fills the grid with walls.
Then it places 25 random, mutually non-intersecting rectangular rooms and
carves them to floor. Finally it joins the rooms, taken in order of their
centres' x coordinate, with L-shaped tunnels. The player spawns at the centre
of the first room placed. The grid (`src/map.rs`) answers bounds, index and
walkability queries over a flat row-major tile buffer.

Files:

- `wrappers.dfy`: `Option`, the result of `try_idx` and of phases that can run
  out of random draws.
- `geometry.dfy`: `Point` and `Rect`. Both come from the bracket-lib crate, whose
  source is not part of this model. The definitions are assumptions:
  - `with_size(x, y, w, h)` spans the corners (x, y) and (x + w, y + h).
  - `for_each` visits the half-open interior, row by row.
  - `intersect` is bracket-lib's closed-box test, so rectangles that only touch also intersect.
  - `center` is the corner midpoint, halved with `i32` truncating division.
- `map.dfy`: module `Layout` holds the free items of `src/map.rs` (constants,
  `TileType`, `map_idx`, `is_in_bounds`). Module `Grid` holds `Map` and its
  methods.
- `room_sort.dfy`: the sorted copy of the room list. It is a stable insertion sort,
  because Rust's `sort_by` is stable.
- `carving.dfy`: `CarvedExactly(before, after, rects)`. It states that `after` is
  `before` with exactly the in-bounds cells of `rects` set to floor. Room
  carving, both tunnels, the room phase and the corridor phase are specified
  this way. `fill` is specified directly: every tile becomes the given one.
- `map_builder.dfy`: the builder phases and `MapBuilder::new`.

Modelling choices:

- The screen size is abstract. `SCREEN_WIDTH` and `SCREEN_HEIGHT` are
  constants known only to exceed 11. The draw ranges `1 .. SCREEN_WIDTH - 10`
  and `1 .. SCREEN_HEIGHT - 10` need that.
- The random number generator is an explicit `seq<nat>` of raw draws.
  `rng.range(lo, hi)` maps a draw d to `lo + d % (hi - lo)`, so every value
  of the range is reachable. A room candidate takes four draws, in the order
  origin x, origin y, width, height. Each corridor pair takes one more.
- The room-placement loop has no retry cap. In the model, a finite stream that
  runs out makes the phase, and `New`, return `None`. For any run of
  `build_random_rooms` that finishes, a long enough stream gives the same result.
- Phases are methods on immutable values, so "the room list is unchanged by
  the corridor phase" holds by construction: `BuildCorridors` receives the
  rooms and returns only a grid.
- `Map.Valid` says the tile buffer has exactly `NUM_TILES` entries. `can_enter_tile`
  requires it, because on a shorter buffer its indexing would panic. Every map
  that `new`, `fill` and the carving steps produce has exactly `NUM_TILES` tiles.

Corridor joints: the tunnels cover half-open ranges, so the larger end point is
excluded. `Builder.CorridorJoins` gives a 4-connected walk from centre to centre
over a pair's corridor cells in every shape but one. A vertical-first pair
always joins. A horizontal-first pair joins when the left centre is not below
the right one, or when both centres share a column. The one exception is a
horizontal-first pair whose left centre lies strictly left of and below the right one.
There, `Builder.HorizontalFirstCornerGap` shows that the corner cell is dug by
neither tunnel and that no walk over the pair's cells reaches the other
centre. The two pieces meet only diagonally, unless some room covers the
corner.

## Model

| member | source | states |
|---|---|---|
| Layout.PointAt | src/map.rs:16-18 | every buffer slot belongs to exactly one in-bounds point, and `map_idx` of that point gives the slot back |
| Layout.MapIdxInRange | src/map.rs:4-18 | an in-bounds point's index lies in [0, NUM_TILES) with NUM_TILES = width * height |
| Layout.MapIdxRoundTrip | src/map.rs:16-18 | for an in-bounds point, index % width is x, index / width is y, and the index decodes back to the point |
| Layout.MapIdxInjective | src/map.rs:16-18 | distinct in-bounds points have distinct indices |
| Layout.InBoundsIffIndexDecodes | src/map.rs:20-22 | a point is in bounds exactly when its index lies in the buffer and decodes back to it; out-of-bounds points can alias other slots |
| Grid.Map.New | src/map.rs:25-29 | the new map has exactly NUM_TILES tiles, all floor, and every in-bounds point, and no other, can be entered |
| Grid.Map.MapIdx | src/map.rs:31-33 | the associated `map_idx` computes the free `map_idx` for all inputs |
| Grid.Map.InBounds | src/map.rs:67-69 | `in_bounds` is `is_in_bounds`, 0 <= x < width and 0 <= y < height, whatever the tiles |
| Grid.Map.CanEnterTile | src/map.rs:71-73 | false out of bounds; otherwise true iff the slot owned by the point holds floor |
| Grid.Map.TryIdx | src/map.rs:75-81 | `None` iff out of bounds; otherwise `Some(map_idx)`, a valid buffer index that decodes to the point |
| Grid.TryIdxCoversGrid | src/map.rs:75-81 | every slot of a full-size buffer is returned by `try_idx` for the point that owns it |
| Geometry.WithSize | src/map_builder.rs:32-37 | the rectangle's cells are x <= px < x + w, y <= py < y + h |
| Geometry.IntersectSymmetric | src/map_builder.rs:38-43 | the overlap test does not depend on argument order |
| Geometry.IntersectIsClosedOverlap | src/map_builder.rs:38-43 | two well-formed rectangles intersect iff their closed boxes share a point |
| Geometry.NoIntersectDisjointCells | src/map_builder.rs:44-50 | rooms that do not intersect have no cell in common |
| Geometry.CenterInside | src/map_builder.rs:22 | the centre of a non-empty rectangle at non-negative coordinates is one of its cells |
| RoomSort.SortByCenterX | src/map_builder.rs:72-73 | the sorted copy is a permutation of the rooms with non-decreasing centre x |
| RoomSort.SortIsStable | src/map_builder.rs:72-73 | rooms with equal centre x keep their original relative order |
| RoomSort.SortedFrontCanDiffer | src/map_builder.rs:72-73 | the first room of the sorted copy can differ from the first room placed |
| Carving.HorizontalSpan | src/map_builder.rs:55-61 | a horizontal tunnel's cells are row y, min(x1, x2) <= x < max(x1, x2) |
| Carving.VerticalSpan | src/map_builder.rs:63-69 | a vertical tunnel's cells are column x, min(y1, y2) <= y < max(y1, y2) |
| Carving.CarvedCompose | src/map_builder.rs:75-101 | digging two rectangle lists in turn equals digging their concatenation |
| Carving.CarvedExactlyUnique | src/map_builder.rs:46-69 | a carve's result is determined by the grid and the rectangles |
| Carving.CarvedOnlyAddsFloor | src/map_builder.rs:46-69 | carving keeps the buffer length and changes tiles only from wall to floor |
| Carving.CarvedCellEnterable | src/map_builder.rs:46-50 | every in-bounds carved cell can be entered afterwards |
| Builder.Range | src/map_builder.rs:33-36 | a draw lands in [lo, hi), and a draw already in range is taken as is |
| Builder.Candidate | src/map_builder.rs:32-37 | four draws give a candidate with origin in [1, W-10) x [1, H-10) and sides in [2, 10) |
| Builder.EveryWellDrawnIsACandidate | src/map_builder.rs:32-37 | every rectangle of that shape is the candidate of some draws |
| Builder.WellDrawnInside | src/map_builder.rs:32-37 | a drawn room and its centre lie inside the grid, so the bounds guard never skips a room cell |
| Builder.Fill | src/map_builder.rs:26-28 | the buffer keeps its length, every tile becomes the given one, and after filling with walls no point can be entered |
| Builder.CarveRoom | src/map_builder.rs:46-50 | the room's in-bounds cells become floor and no other tile changes |
| Builder.CarveRow | src/map_builder.rs:46-50 | one row of a room, left to right: its in-bounds cells become floor on top of the rows already carved, and no other tile changes |
| Builder.TryPlace | src/map_builder.rs:38-51 | a candidate intersecting an earlier room changes neither rooms nor tiles; otherwise it is appended and exactly its cells are carved |
| Builder.Sample | src/map_builder.rs:30-53 | reference definition of rejection sampling: it ends with max(initial, 25) rooms, within the draws it was given |
| Builder.SampleKeepsPrefix | src/map_builder.rs:30-53 | the reference run only appends: the rooms it starts from stay in front |
| Builder.SampleAdvance | src/map_builder.rs:31-51 | from a list that is not full, one candidate of four draws is kept or rejected and the run continues four draws later |
| Builder.BuildRandomRooms | src/map_builder.rs:30-53 | the loop's outcome is the reference `Sample`; there are max(initial, 25) rooms, the initial ones first; no new room intersects an earlier one; each has the drawn shape; the tiles change exactly by the new rooms' cells |
| Builder.ApplyHorizontalTunnel | src/map_builder.rs:55-61 | exactly the in-bounds cells of row y between x1 and x2, the larger end excluded, become floor |
| Builder.ApplyVerticalTunnel | src/map_builder.rs:63-69 | exactly the in-bounds cells of column x between y1 and y2, the larger end excluded, become floor |
| Builder.TunnelsSymmetric | src/map_builder.rs:55-69 | swapping a tunnel's two end points gives the same grid |
| Builder.PairSegments | src/map_builder.rs:76-101 | both tunnels of a pair stay in the bounding box of the two centres |
| Builder.DigPair | src/map_builder.rs:76-101 | for one pair the draw picks the tunnel order; each tunnel changes the grid by exactly the span of `PairSegments`, in that order |
| Builder.CorridorStep | src/map_builder.rs:75-101 | digging pair i after pairs 1 .. i - 1 is one carve of the corridors of the first i pairs |
| Builder.CorridorsInBounds | src/map_builder.rs:75-101 | every corridor cell between drawn rooms is in bounds |
| Builder.BuildCorridors | src/map_builder.rs:71-103 | the tiles change exactly by the tunnels of consecutive pairs of the sorted copy; `None` iff fewer draws than pairs |
| Builder.CorridorJoins | src/map_builder.rs:79-101 | vertical-first, or horizontal-first with the left centre not below the right or in the same column: a 4-connected walk over the pair's corridor cells joins the centres |
| Builder.SameColumnJoins | src/map_builder.rs:79-89 | horizontal-first with both centres in one column: the horizontal tunnel is empty and the vertical tunnel alone gives a walk between the centres |
| Builder.HorizontalFirstJoins | src/map_builder.rs:79-89 | horizontal-first with the left centre not below the right: along row a.y, then along column b.x, every step stays on the pair's cells or the centres |
| Builder.VerticalFirstJoins | src/map_builder.rs:90-100 | vertical-first: along column a.x, then along row b.y, every step stays on the pair's cells or the centres |
| Builder.HorizontalFirstCornerGap | src/map_builder.rs:79-89 | horizontal-first with the left centre below the right: the corner is not dug, and no walk over the pair's corridor cells joins the centres |
| Builder.New | src/map_builder.rs:13-24 | fails only when the draws run out; otherwise 25 pairwise non-intersecting drawn rooms as `Sample` places them; spawn = centre of the first room placed, which can be entered; every room cell and corridor cell is floor; floor is exactly the rooms plus the corridors dug with the draws after placement |
| Builder.LevelFloor | src/map_builder.rs:13-24 | after an all-wall grid is carved by 25 drawn rooms and then their corridors, floor is exactly those cells in bounds; every room and corridor cell, and the first room's centre, can be entered |
| Builder.GeneratedIsUnique | src/map_builder.rs:13-24 | the draws fix the grid, the room list and the spawn point: two levels built from the same draws are equal |

## Left out

- `Map::render` (`src/map.rs:35-65`) draws to the console through bracket-lib and a camera. It is presentation code and foreign I/O.
- The internals of bracket-lib's `RandomNumberGenerator`. Its draws are an input sequence, as described above.
- The internals of `Rect` and `Point`. Their assumed definitions are in `geometry.dfy`.
- Termination of the unbounded placement loop (`src/map_builder.rs:31`). The finite draw stream bounds it, and running out yields `None`.
- `i32` overflow and the `as usize` casts. Coordinates and indices are mathematical integers. With the draw ranges, all room and corridor coordinates lie inside the grid, so nothing wraps.
- Purity of the queries: `InBounds`, `CanEnterTile` and `TryIdx` are functions of the map value, so repeated calls agree by construction. No lemma states it.
- The screen-size definitions and the camera module are not part of this model.
