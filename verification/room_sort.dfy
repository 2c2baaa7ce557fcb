/** The sorted copy of the room list that `build_corridors` routes through:
    `sort_by` on the x coordinate of each room's centre. Rust's `sort_by` is
    stable, so this model is a stable insertion sort. */
module RoomSort {
  import opened Geometry

  function Key(r: Rect): int { r.Center().x }

  predicate SortedByKey(s: seq<Rect>) {
    forall i, j | 0 <= i < j < |s| :: Key(s[i]) <= Key(s[j])
  }

  /** The rooms of s whose centre has x coordinate k, in their order in s. */
  function WithKey(s: seq<Rect>, k: int): (r: seq<Rect>)
    ensures |r| <= |s|
  {
    if |s| == 0 then []
    else (if Key(s[0]) == k then [s[0]] else []) + WithKey(s[1..], k)
  }

  predicate AllAtLeast(s: seq<Rect>, b: int) {
    forall i | 0 <= i < |s| :: b <= Key(s[i])
  }

  /** Places a in front of the first room whose key is not smaller. */
  function Insert(a: Rect, s: seq<Rect>): (r: seq<Rect>)
    ensures multiset(r) == multiset(s) + multiset{a}
    ensures AllAtLeast(s, Key(a)) ==> r == [a] + s
  {
    if |s| == 0 || Key(a) <= Key(s[0]) then
      [a] + s
    else
      assert s == [s[0]] + s[1..];
      [s[0]] + Insert(a, s[1..])
  }

  lemma {:induction false} InsertKeepsBound(a: Rect, s: seq<Rect>, b: int)
    requires AllAtLeast(s, b) && b <= Key(a)
    ensures AllAtLeast(Insert(a, s), b)
  {
    if |s| == 0 || Key(a) <= Key(s[0]) {
    } else {
      InsertKeepsBound(a, s[1..], b);
    }
  }

  lemma {:induction false} InsertSorted(a: Rect, s: seq<Rect>)
    requires SortedByKey(s)
    ensures SortedByKey(Insert(a, s))
  {
    if |s| == 0 || Key(a) <= Key(s[0]) {
    } else {
      InsertSorted(a, s[1..]);
      InsertKeepsBound(a, s[1..], Key(s[0]));
    }
  }

  /** The sorted copy; the input list itself is left as it is. */
  function SortByCenterX(s: seq<Rect>): (r: seq<Rect>)
    ensures multiset(r) == multiset(s)
    ensures |r| == |s|
    ensures SortedByKey(r)
  {
    if |s| == 0 then []
    else
      assert s == [s[0]] + s[1..];
      InsertSorted(s[0], SortByCenterX(s[1..]));
      Insert(s[0], SortByCenterX(s[1..]))
  }

  lemma WithKeyCons(x: Rect, t: seq<Rect>, k: int)
    ensures WithKey([x] + t, k) == (if Key(x) == k then [x] else []) + WithKey(t, k)
  {
    assert ([x] + t)[1..] == t;
  }

  lemma {:induction false} WithKeyInsert(a: Rect, s: seq<Rect>, k: int)
    ensures WithKey(Insert(a, s), k) == WithKey([a] + s, k)
  {
    if |s| > 0 && Key(s[0]) < Key(a) {
      var r := Insert(a, s[1..]);
      var ka := if Key(a) == k then [a] else [];
      var k0 := if Key(s[0]) == k then [s[0]] else [];
      calc {
        WithKey(Insert(a, s), k);
        WithKey([s[0]] + r, k);
        { WithKeyCons(s[0], r, k); }
        k0 + WithKey(r, k);
        { WithKeyInsert(a, s[1..], k); }
        k0 + WithKey([a] + s[1..], k);
        { WithKeyCons(a, s[1..], k); }
        k0 + (ka + WithKey(s[1..], k));
        { assert ka == [] || k0 == []; }
        ka + (k0 + WithKey(s[1..], k));
        { WithKeyCons(s[0], s[1..], k); assert [s[0]] + s[1..] == s; }
        ka + WithKey(s, k);
        { WithKeyCons(a, s, k); }
        WithKey([a] + s, k);
      }
    }
  }

  /** Stability: among rooms with equal centre x the sorted copy keeps the
      original relative order. Together with sortedness this pins the copy
      down completely. */
  lemma {:induction false} SortIsStable(s: seq<Rect>, k: int)
    ensures WithKey(SortByCenterX(s), k) == WithKey(s, k)
  {
    if |s| > 0 {
      SortIsStable(s[1..], k);
      WithKeyInsert(s[0], SortByCenterX(s[1..]), k);
      assert ([s[0]] + SortByCenterX(s[1..]))[1..] == SortByCenterX(s[1..]);
    }
  }

  /** Sorting a copy can move a room other than the first-placed one to the
      front, which is why the spawn point is taken from the unsorted list. */
  lemma SortedFrontCanDiffer()
    ensures var rooms := [Rect(10, 1, 14, 5), Rect(1, 1, 5, 5)];
            SortByCenterX(rooms)[0] != rooms[0]
  {
    var rooms := [Rect(10, 1, 14, 5), Rect(1, 1, 5, 5)];
    assert Key(rooms[0]) == 12 && Key(rooms[1]) == 3;
    assert rooms[1..] == [Rect(1, 1, 5, 5)];
    assert SortByCenterX(rooms[1..][1..]) == [];
  }
}
