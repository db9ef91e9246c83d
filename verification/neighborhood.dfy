/** The neighbourhood of a cell: the up-to-eight in-bounds cells around it,
    listed in the order `getNeighbors` pushes them (N, NE, E, SE, S, SW, W, NW). */
module Neighborhood {
  import opened Board

  /** `q` is a cell of the `w x h` board, other than (x, y), at most one step
      away from it in each axis. */
  predicate IsNeighbor(w: nat, h: nat, x: nat, y: nat, q: Pos) {
    && q.x < w && q.y < h
    && q != Pos(x, y)
    && x <= q.x + 1 && q.x <= x + 1
    && y <= q.y + 1 && q.y <= y + 1
  }

  /** How many columns (or rows) the 3-wide window around `x` keeps on a board
      `w` wide: the cell itself plus each side that exists. */
  function Span(x: nat, w: nat): nat {
    1 + (if x > 0 then 1 else 0) + (if x < w - 1 then 1 else 0)
  }

  predicate Distinct(ns: seq<Pos>) {
    forall i, j :: 0 <= i < j < |ns| ==> ns[i] != ns[j]
  }

  /** `getNeighbors(grid, x, y)`, with the board's width and height given
      explicitly, as positions rather than cell references. */
  function Neighbors(w: nat, h: nat, x: nat, y: nat): seq<Pos>
    requires x < w && y < h
  {
    (if y > 0 then [Pos(x, y - 1)] else [])
    + (if y > 0 && x < w - 1 then [Pos(x + 1, y - 1)] else [])
    + (if x < w - 1 then [Pos(x + 1, y)] else [])
    + (if y < h - 1 && x < w - 1 then [Pos(x + 1, y + 1)] else [])
    + (if y < h - 1 then [Pos(x, y + 1)] else [])
    + (if y < h - 1 && x > 0 then [Pos(x - 1, y + 1)] else [])
    + (if x > 0 then [Pos(x - 1, y)] else [])
    + (if y > 0 && x > 0 then [Pos(x - 1, y - 1)] else [])
  }

  /** The neighbour list holds exactly the board's cells around (x, y). */
  lemma NeighborsMembers(w: nat, h: nat, x: nat, y: nat)
    requires x < w && y < h
    ensures forall q :: q in Neighbors(w, h, x, y) <==> IsNeighbor(w, h, x, y, q)
  {
  }

  /** No position repeats, stated by peeling off the last element. */
  predicate NoRepeats(ns: seq<Pos>) {
    ns == [] || (ns[|ns| - 1] !in ns[..|ns| - 1] && NoRepeats(ns[..|ns| - 1]))
  }

  lemma {:induction false} NoRepeatsDistinct(ns: seq<Pos>)
    requires NoRepeats(ns)
    ensures Distinct(ns)
  {
    if ns != [] {
      var init := ns[..|ns| - 1];
      NoRepeatsDistinct(init);
      forall i, j | 0 <= i < j < |ns|
        ensures ns[i] != ns[j]
      {
        assert ns[i] == init[i];
        if j < |ns| - 1 {
          assert ns[j] == init[j];
        } else {
          assert ns[i] in init;
        }
      }
    }
  }

  /** Appending at most one new position keeps a list free of repeats. */
  lemma AppendNew(a: seq<Pos>, b: seq<Pos>)
    requires NoRepeats(a) && |b| <= 1
    requires forall q :: q in b ==> q !in a
    ensures NoRepeats(a + b)
  {
    if |b| == 1 {
      assert (a + b)[..|a + b| - 1] == a;
      assert b[0] in b;
    } else {
      assert a + b == a;
    }
  }

  /** Eight pieces of at most one position each, one per compass direction
      around (x, y) in `getNeighbors`' order, never repeat a position. */
  lemma CompassPiecesDistinct(ns: seq<Pos>, x: nat, y: nat, n: seq<Pos>, ne: seq<Pos>, e: seq<Pos>, se: seq<Pos>,
                               s: seq<Pos>, sw: seq<Pos>, west: seq<Pos>, nw: seq<Pos>)
    requires |n| <= 1 && |ne| <= 1 && |e| <= 1 && |se| <= 1
    requires |s| <= 1 && |sw| <= 1 && |west| <= 1 && |nw| <= 1
    requires forall q :: q in n ==> q.x == x && q.y + 1 == y
    requires forall q :: q in ne ==> q.x == x + 1 && q.y + 1 == y
    requires forall q :: q in e ==> q.x == x + 1 && q.y == y
    requires forall q :: q in se ==> q.x == x + 1 && q.y == y + 1
    requires forall q :: q in s ==> q.x == x && q.y == y + 1
    requires forall q :: q in sw ==> q.x + 1 == x && q.y == y + 1
    requires forall q :: q in west ==> q.x + 1 == x && q.y == y
    requires forall q :: q in nw ==> q.x + 1 == x && q.y + 1 == y
    requires ns == n + ne + e + se + s + sw + west + nw
    ensures Distinct(ns)
  {
    assert [] + n == n;
    AppendNew([], n);
    AppendNew(n, ne);
    AppendNew(n + ne, e);
    AppendNew(n + ne + e, se);
    AppendNew(n + ne + e + se, s);
    AppendNew(n + ne + e + se + s, sw);
    AppendNew(n + ne + e + se + s + sw, west);
    AppendNew(n + ne + e + se + s + sw + west, nw);
    NoRepeatsDistinct(ns);
  }

  /** No cell appears twice in a neighbour list. */
  lemma NeighborsDistinct(w: nat, h: nat, x: nat, y: nat)
    requires x < w && y < h
    ensures Distinct(Neighbors(w, h, x, y))
  {
    CompassPiecesDistinct(Neighbors(w, h, x, y), x, y,
      if y > 0 then [Pos(x, y - 1)] else [],
      if y > 0 && x < w - 1 then [Pos(x + 1, y - 1)] else [],
      if x < w - 1 then [Pos(x + 1, y)] else [],
      if y < h - 1 && x < w - 1 then [Pos(x + 1, y + 1)] else [],
      if y < h - 1 then [Pos(x, y + 1)] else [],
      if y < h - 1 && x > 0 then [Pos(x - 1, y + 1)] else [],
      if x > 0 then [Pos(x - 1, y)] else [],
      if y > 0 && x > 0 then [Pos(x - 1, y - 1)] else []);
  }

  /** The neighbour list is as long as the product of the two spans, less the cell itself. */
  lemma NeighborsLength(w: nat, h: nat, x: nat, y: nat)
    requires x < w && y < h
    ensures |Neighbors(w, h, x, y)| == Span(x, w) * Span(y, h) - 1
  {
  }

  predicate OnBorder(x: nat, w: nat) { x == 0 || x == w - 1 }

  /** On a board at least two cells wide and high, a corner cell has 3
      neighbours, a cell on an edge but not a corner has 5, and an interior
      cell has 8. */
  lemma NeighborCounts(w: nat, h: nat, x: nat, y: nat)
    requires 2 <= w && 2 <= h && x < w && y < h
    ensures OnBorder(x, w) && OnBorder(y, h) ==> |Neighbors(w, h, x, y)| == 3
    ensures OnBorder(x, w) != OnBorder(y, h) ==> |Neighbors(w, h, x, y)| == 5
    ensures !OnBorder(x, w) && !OnBorder(y, h) ==> |Neighbors(w, h, x, y)| == 8
  {
    NeighborsLength(w, h, x, y);
  }

  /** No cell has more than eight neighbours, whatever the board's size. */
  lemma AtMostEight(w: nat, h: nat, x: nat, y: nat)
    requires x < w && y < h
    ensures |Neighbors(w, h, x, y)| <= 8
  {
    NeighborsLength(w, h, x, y);
  }
}
