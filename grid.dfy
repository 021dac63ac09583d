/**
  The superposition grid as a value: the candidate list of every cell, indexed
  by column x and row y, and what the solver and the compositor compute from it.
*/
module Grid {
  import opened Wrappers
  import opened Tiles
  import opened Catalog
  import opened Superpositions

  /** `gridDimensions`: the inclusive loops 0..width and 0..height give (width + 1) x (height + 1) cells. */
  datatype Dimension = Dimension(width: nat, height: nat)

  type Coord = (int, int)

  /** Candidate lists, column by column: `b[x][y]` is the list of cell (x, y). */
  type Board = seq<seq<seq<Tile>>>

  /** The bounds test of getSuperposition. */
  predicate InGrid(dims: Dimension, x: int, y: int) {
    0 <= x <= dims.width && 0 <= y <= dims.height
  }

  predicate Shaped(b: Board, dims: Dimension) {
    |b| == dims.width + 1 && forall x :: 0 <= x < |b| ==> |b[x]| == dims.height + 1
  }

  /** getSuperposition on the value grid: the cell's candidates, or None off the grid. */
  function Lookup(b: Board, dims: Dimension, x: int, y: int): Option<seq<Tile>>
    requires Shaped(b, dims)
  {
    if InGrid(dims, x, y) then Some(b[x][y]) else None
  }

  /** The getNeighbours lambda: north, east, south, west, in that order. */
  function Neighbours(p: Coord): seq<Coord> {
    [(p.0, p.1 - 1), (p.0 + 1, p.1), (p.0, p.1 + 1), (p.0 - 1, p.1)]
  }

  /** Two coordinates one step apart along a row or a column. */
  predicate Adjacent(p: Coord, q: Coord) {
    (p.0 == q.0 && (q.1 == p.1 - 1 || q.1 == p.1 + 1)) || (p.1 == q.1 && (q.0 == p.0 - 1 || q.0 == p.0 + 1))
  }

  lemma NeighboursAdjacent(p: Coord, q: Coord)
    ensures q in Neighbours(p) <==> Adjacent(p, q)
    ensures |Neighbours(p)| == 4
  {
  }

  /** Neighbour k of p is the one the direction Dirs[k] points to. */
  lemma NeighboursDirs(p: Coord, k: int)
    requires 0 <= k < 4
    ensures Neighbours(p)[k] == (p.0 + DX(Dirs[k]), p.1 + DY(Dirs[k]))
  {
  }

  /** What makeUncollapsedNeighboursDirty adds to the dirty set for p. */
  function Uncollapsed(b: Board, dims: Dimension, p: Coord): (r: set<Coord>)
    requires Shaped(b, dims)
    ensures forall q :: q in r <==> Adjacent(p, q) && InGrid(dims, q.0, q.1) && |b[q.0][q.1]| > 1
  {
    forall q ensures q in Neighbours(p) <==> Adjacent(p, q) {
      NeighboursAdjacent(p, q);
    }
    set q | q in Neighbours(p) && Lookup(b, dims, q.0, q.1).Some? && |Lookup(b, dims, q.0, q.1).value| > 1
  }

  /** The check `pattern.side.any { neighbour.positions.contains(it) }`, passed when there is no neighbour. */
  predicate DirectionOk(side: set<Tile>, neighbour: Option<seq<Tile>>) {
    neighbour.None? || exists t :: t in side && t in neighbour.value
  }

  /** A candidate prunePositions removes: it has a pattern and one of its four checks fails. */
  predicate Fails(m: map<Tile, BlobPattern>, t: Tile,
                  north: Option<seq<Tile>>, east: Option<seq<Tile>>,
                  south: Option<seq<Tile>>, west: Option<seq<Tile>>) {
    t in m &&
    !(DirectionOk(m[t].north, north) && DirectionOk(m[t].east, east) &&
      DirectionOk(m[t].south, south) && DirectionOk(m[t].west, west))
  }

  /** The candidates of `ps` that fail against the four neighbouring lists. */
  function Failing(ps: seq<Tile>, m: map<Tile, BlobPattern>,
                   north: Option<seq<Tile>>, east: Option<seq<Tile>>,
                   south: Option<seq<Tile>>, west: Option<seq<Tile>>): set<Tile> {
    set t | t in ps && Fails(m, t, north, east, south, west)
  }

  /** The neighbouring list in direction d of cell (x, y), or None off the grid. */
  function Beside(b: Board, dims: Dimension, x: int, y: int, d: Dir): Option<seq<Tile>>
    requires Shaped(b, dims)
  {
    Lookup(b, dims, x + DX(d), y + DY(d))
  }

  /** The `toRemove` set of prunePositions at cell (x, y). */
  function FailingAt(b: Board, dims: Dimension, m: map<Tile, BlobPattern>, x: int, y: int): set<Tile>
    requires Shaped(b, dims) && InGrid(dims, x, y)
  {
    Failing(b[x][y], m, Beside(b, dims, x, y, North), Beside(b, dims, x, y, East),
            Beside(b, dims, x, y, South), Beside(b, dims, x, y, West))
  }

  /**
    A candidate survives a prune exactly when it has no pattern or passes all
    four checks against the neighbours that exist.
  */
  lemma PruneKeeps(b: Board, dims: Dimension, m: map<Tile, BlobPattern>, x: int, y: int, t: Tile)
    requires Shaped(b, dims) && InGrid(dims, x, y)
    ensures t in Without(b[x][y], FailingAt(b, dims, m, x, y)) <==>
      t in b[x][y] &&
      (t !in m ||
       (DirectionOk(m[t].north, Beside(b, dims, x, y, North)) && DirectionOk(m[t].east, Beside(b, dims, x, y, East)) &&
        DirectionOk(m[t].south, Beside(b, dims, x, y, South)) && DirectionOk(m[t].west, Beside(b, dims, x, y, West))))
  {
    WithoutMember(b[x][y], FailingAt(b, dims, m, x, y), t);
  }

  /**
    The list a prune leaves when it removes `rm` from `before`: what is left, or,
    when nothing is left, one tile of the catalog (none if the catalog is empty).
  */
  ghost predicate PruneOutcome(before: seq<Tile>, rm: set<Tile>, catalog: seq<Tile>, after: seq<Tile>) {
    var kept := Without(before, rm);
    if kept != [] then after == kept
    else if catalog == [] then after == []
    else |after| == 1 && after[0] in catalog
  }

  /**
    Removing rm and, when that leaves nothing, falling back to one catalog
    tile (nothing when the catalog is empty) is an outcome of a prune.
  */
  lemma RecoverOutcome(before: seq<Tile>, rm: set<Tile>, catalog: seq<Tile>, fallback: seq<Tile>)
    requires catalog == [] ==> fallback == []
    requires catalog != [] ==> |fallback| == 1 && fallback[0] in catalog
    ensures PruneOutcome(before, rm, catalog,
                         if Without(before, rm) == [] then fallback else Without(before, rm))
  {
  }

  /** Updating cell (x, y) leaves every other cell as it was. */
  lemma UpdateElsewhere(b: Board, x: int, y: int, v: seq<Tile>, x': int, y': int)
    requires 0 <= x < |b| && 0 <= y < |b[x]| && 0 <= x' < |b| && 0 <= y' < |b[x']| && (x' != x || y' != y)
    ensures b[x := b[x][y := v]][x'][y'] == b[x'][y']
  {
  }

  /**
    From board b to board b', no list outside cell (x, y) grows, and every one
    of them that held at most one tile is kept as it was.
  */
  ghost predicate KeepsSettled(b: Board, b': Board, x: int, y: int) {
    |b'| == |b| && (forall i :: 0 <= i < |b| ==> |b'[i]| == |b[i]|) &&
    forall i, j :: 0 <= i < |b| && 0 <= j < |b[i]| && (i != x || j != y) ==>
      |b'[i][j]| <= |b[i][j]| && (|b[i][j]| <= 1 ==> b'[i][j] == b[i][j])
  }

  /** Changing cell (x, y) alone keeps every other cell. */
  lemma KeepsSettledAt(b: Board, x: int, y: int, v: seq<Tile>)
    requires 0 <= x < |b| && 0 <= y < |b[x]|
    ensures KeepsSettled(b, b[x := b[x][y := v]], x, y)
  {
    var b' := b[x := b[x][y := v]];
    forall i, j | 0 <= i < |b| && 0 <= j < |b[i]| && (i != x || j != y) ensures b'[i][j] == b[i][j] {
      UpdateElsewhere(b, x, y, v, i, j);
    }
  }

  /** The property composes along a run of boards. */
  lemma KeepsSettledTrans(b: Board, b': Board, b'': Board, x: int, y: int)
    requires KeepsSettled(b, b', x, y) && KeepsSettled(b', b'', x, y)
    ensures KeepsSettled(b, b'', x, y)
  {
  }

  /** Shortening one more list of two or more tiles keeps the property. */
  lemma KeepsSettledStep(b: Board, b': Board, x: int, y: int, px: int, py: int, v: seq<Tile>)
    requires KeepsSettled(b, b', x, y)
    requires 0 <= px < |b'| && 0 <= py < |b'[px]| && 1 < |b'[px][py]| && |v| < |b'[px][py]|
    ensures KeepsSettled(b, b'[px := b'[px][py := v]], x, y)
  {
    var b'' := b'[px := b'[px][py := v]];
    forall i, j | 0 <= i < |b| && 0 <= j < |b[i]| && (i != x || j != y)
      ensures |b''[i][j]| <= |b[i][j]| && (|b[i][j]| <= 1 ==> b''[i][j] == b[i][j])
    {
      if i != px || j != py {
        UpdateElsewhere(b', px, py, v, i, j);
      }
    }
  }

  /**
    A prune that removes something strictly shortens a list of two or more
    candidates, recovery included, and keeps it inside the catalog; with a
    non-empty catalog it never leaves the list empty.
  */
  lemma PruneShrinks(before: seq<Tile>, rm: set<Tile>, catalog: seq<Tile>, after: seq<Tile>)
    requires PruneOutcome(before, rm, catalog, after) && |before| > 1
    requires (forall t :: t in before ==> t in catalog)
    ensures (exists t :: t in before && t in rm) ==> |after| < |before|
    ensures (forall t :: t in before ==> t !in rm) ==> after == before
    ensures forall t :: t in after ==> t in catalog
    ensures catalog != [] ==> after != []
  {
    WithoutShrinks(before, rm);
    forall t | t in Without(before, rm) ensures t in before {
      WithoutMember(before, rm, t);
    }
  }

  /** Every cell holds at most one candidate: findLowestEntropyCoordinate finds nothing. */
  ghost predicate Settled(b: Board) {
    forall x, y :: 0 <= x < |b| && 0 <= y < |b[x]| ==> |b[x][y]| <= 1
  }

  ghost predicate NonEmpty(b: Board) {
    forall x, y :: 0 <= x < |b| && 0 <= y < |b[x]| ==> |b[x][y]| >= 1
  }

  /** Every cell holds exactly one candidate. */
  ghost predicate Single(b: Board) {
    forall x, y :: 0 <= x < |b| && 0 <= y < |b[x]| ==> |b[x][y]| == 1
  }

  /** Every candidate of every cell comes from the catalog. */
  ghost predicate Within(b: Board, catalog: seq<Tile>) {
    forall x, y, t :: 0 <= x < |b| && 0 <= y < |b[x]| && t in b[x][y] ==> t in catalog
  }

  lemma SettledSingle(b: Board)
    requires Settled(b) && NonEmpty(b)
    ensures Single(b)
  {
  }

  /** The board initialiseGrid builds: every cell holds the whole catalog. */
  function Full(dims: Dimension, catalog: seq<Tile>): (b: Board)
    ensures Shaped(b, dims)
    ensures forall x, y :: 0 <= x < |b| && 0 <= y < |b[x]| ==> b[x][y] == catalog
  {
    seq(dims.width + 1, _ => seq(dims.height + 1, _ => catalog))
  }

  /** No cell holds more candidates than the catalog has tiles. */
  ghost predicate Bounded(b: Board, n: nat) {
    forall x, y :: 0 <= x < |b| && 0 <= y < |b[x]| ==> |b[x][y]| <= n
  }

  /** The full board lies within its catalog, is bounded by it, and has no empty cell when the catalog has a tile. */
  lemma FullValid(dims: Dimension, catalog: seq<Tile>)
    ensures Within(Full(dims, catalog), catalog) && Bounded(Full(dims, catalog), |catalog|)
    ensures catalog != [] ==> NonEmpty(Full(dims, catalog))
  {
  }

  /** `Int.MAX_VALUE`, the starting minimum of findLowestEntropyCoordinate. */
  const MaxInt: nat := 0x7fff_ffff

  /**
    A cell size findLowestEntropyCoordinate can pick: more than one candidate
    and not above the sentinel (`size < minEntropy` or `size == minEntropy`).
  */
  predicate Open(n: nat) {
    1 < n <= MaxInt
  }

  ghost predicate NoneOpen(b: Board) {
    forall x, y :: 0 <= x < |b| && 0 <= y < |b[x]| ==> !Open(|b[x][y]|)
  }

  /** With fewer tiles than the sentinel, a board without open cells is settled. */
  lemma NoneOpenSettled(b: Board, n: nat)
    requires NoneOpen(b) && Bounded(b, n) && n <= MaxInt
    ensures Settled(b)
  {
  }

  /** The failing candidates of a longer prefix: those of the shorter one, plus the new element if it fails. */
  lemma FailingSnoc(ps: seq<Tile>, i: int, m: map<Tile, BlobPattern>,
                    north: Option<seq<Tile>>, east: Option<seq<Tile>>,
                    south: Option<seq<Tile>>, west: Option<seq<Tile>>)
    requires 0 <= i < |ps|
    ensures Failing(ps[..i + 1], m, north, east, south, west) ==
      Failing(ps[..i], m, north, east, south, west) + (if Fails(m, ps[i], north, east, south, west) then {ps[i]} else {})
  {
    assert ps[..i + 1] == ps[..i] + [ps[i]];
  }

  /**
    A prune that removes something from a cell of two or more candidates keeps
    the board shaped, inside and bounded by its catalog, lowers the total, and
    with a non-empty catalog leaves no cell empty.
  */
  lemma PruneStep(b: Board, dims: Dimension, catalog: seq<Tile>, x: int, y: int, rm: set<Tile>, after: seq<Tile>)
    requires Shaped(b, dims) && InGrid(dims, x, y) && Within(b, catalog) && Bounded(b, |catalog|)
    requires |b[x][y]| > 1 && PruneOutcome(b[x][y], rm, catalog, after)
    requires rm != {} && forall t :: t in rm ==> t in b[x][y]
    ensures var b' := b[x := b[x][y := after]];
      Shaped(b', dims) && Within(b', catalog) && Bounded(b', |catalog|) && Total(b') < Total(b) &&
      (catalog != [] && NonEmpty(b) ==> NonEmpty(b'))
  {
    var t :| t in rm;
    assert t in b[x][y];
    PruneShrinks(b[x][y], rm, catalog, after);
    TotalUpdate(b, x, y, after);
  }

  /**
    Collapsing a cell to one of its own candidates keeps the board shaped,
    inside and bounded by its catalog and free of empty cells, and does not
    raise the total; it lowers it when the cell had two or more candidates.
  */
  lemma CollapseStep(b: Board, dims: Dimension, catalog: seq<Tile>, x: int, y: int, t: Tile)
    requires Shaped(b, dims) && InGrid(dims, x, y) && Within(b, catalog) && Bounded(b, |catalog|)
    requires t in b[x][y]
    ensures var b' := b[x := b[x][y := [t]]];
      Shaped(b', dims) && Within(b', catalog) && Bounded(b', |catalog|) &&
      Total(b') <= Total(b) && (|b[x][y]| > 1 ==> Total(b') < Total(b)) &&
      (NonEmpty(b) ==> NonEmpty(b'))
  {
    assert t in catalog;
    TotalUpdate(b, x, y, [t]);
  }

  function ColumnTotal(col: seq<seq<Tile>>): nat {
    if col == [] then 0 else |col[0]| + ColumnTotal(col[1..])
  }

  /** The number of candidates over the whole grid: the solver's termination measure. */
  function Total(b: Board): nat {
    if b == [] then 0 else ColumnTotal(b[0]) + Total(b[1..])
  }

  lemma {:induction false} ColumnTotalUpdate(col: seq<seq<Tile>>, y: int, ps: seq<Tile>)
    requires 0 <= y < |col|
    ensures ColumnTotal(col[y := ps]) == ColumnTotal(col) - |col[y]| + |ps|
  {
    if y > 0 {
      assert col[y := ps][1..] == col[1..][y - 1 := ps];
      ColumnTotalUpdate(col[1..], y - 1, ps);
    } else {
      assert col[y := ps][1..] == col[1..];
    }
  }

  /** Replacing one cell's list changes the total by the difference in length. */
  lemma {:induction false} TotalUpdate(b: Board, x: int, y: int, ps: seq<Tile>)
    requires 0 <= x < |b| && 0 <= y < |b[x]|
    ensures Total(b[x := b[x][y := ps]]) == Total(b) - |b[x][y]| + |ps|
  {
    if x > 0 {
      assert b[x := b[x][y := ps]][1..] == b[1..][x - 1 := b[1..][x - 1][y := ps]];
      TotalUpdate(b[1..], x - 1, y, ps);
    } else {
      assert b[x := b[x][y := ps]][1..] == b[1..];
      ColumnTotalUpdate(b[0], y, ps);
    }
  }

  /**
    Pixel (px, py) of gridToImage's output: pixel (px mod R, py mod R) of the
    first candidate of the cell that covers it, or 0 (the blank raster) when
    that cell has no candidate.
  */
  function RenderPixel(b: Board, r: nat, px: nat, py: nat): int
    requires r > 0
  {
    var x, y := Whole(px, r), Whole(py, r);
    if x < |b| && y < |b[x]| && b[x][y] != [] && |b[x][y][0]| == r * r
    then TilePixel(b[x][y][0], r, Rem(px, r), Rem(py, r))
    else 0
  }

  /** The owning cell of a pixel of the tile drawn at (x * R, y * R). */
  lemma Owner(r: nat, x: nat, i: nat)
    requires r > 0 && i < r
    ensures Whole(x * r + i, r) == x && Rem(x * r + i, r) == i
  {
    OwnerRange(r, x, x * r + i);
  }

  /**
    Pixel (x*R + i, y*R + j) of the output is pixel (i, j) of the first
    candidate of cell (x, y), i.e. entry j*R + i of its row-major array.
  */
  lemma RenderAt(b: Board, r: nat, x: nat, y: nat, i: nat, j: nat)
    requires r > 0 && i < r && j < r
    requires x < |b| && y < |b[x]|
    requires forall t :: t in b[x][y] ==> |t| == r * r
    ensures 0 <= x * r + i && 0 <= y * r + j
    ensures RenderPixel(b, r, x * r + i, y * r + j) ==
      if b[x][y] == [] then 0 else TilePixel(b[x][y][0], r, i, j)
  {
    MulMonotone(0, x, r);
    MulMonotone(0, y, r);
    Owner(r, x, i);
    Owner(r, y, j);
  }

  /** The pixels of the tile drawn at (x * R, y * R) are exactly those whose owning cell is column x, row y. */
  lemma OwnerRange(r: nat, x: nat, p: nat)
    requires r > 0
    ensures x * r <= p < x * r + r <==> Whole(p, r) == x
    ensures x * r <= p < x * r + r ==> p - x * r == Rem(p, r)
  {
    WholeIsDiv(p, r);
    RemIsMod(p, r);
    if x * r <= p < x * r + r {
      DivModUnique(p, r, x, p - x * r);
    } else {
      var q, m := p / r, p % r;
      DivModUnique(p, r, q, m);
    }
  }

  /**
    Pixel (px, py) of gridToImage's output once the cells before (x, y) in
    its loop order (column by column, each from the top) have been drawn.
  */
  function Canvas(b: Board, r: nat, x: int, y: int, px: nat, py: nat): int
    requires r > 0
  {
    if Whole(px, r) < x || (Whole(px, r) == x && Whole(py, r) < y) then RenderPixel(b, r, px, py) else 0
  }

  /** Every cell's first candidate, the one gridToImage draws, is an R x R tile. */
  ghost predicate Drawable(b: Board, r: nat) {
    forall x, y :: 0 <= x < |b| && 0 <= y < |b[x]| && b[x][y] != [] ==> |b[x][y][0]| == r * r
  }

  /** A board inside a catalog of R x R tiles is drawable. */
  lemma WithinDrawable(b: Board, catalog: seq<Tile>, r: nat)
    requires Within(b, catalog) && Sized(catalog, r)
    ensures Drawable(b, r)
  {
    forall x, y | 0 <= x < |b| && 0 <= y < |b[x]| && b[x][y] != []
      ensures |b[x][y][0]| == r * r
    {
      assert b[x][y][0] in b[x][y];
    }
  }

  /**
    Drawing cell (x, y) changes the canvas only on the block at (x * R, y * R),
    which takes the cell's first candidate, or stays blank for an empty cell.
  */
  lemma CanvasStep(b: Board, r: nat, x: nat, y: nat, px: nat, py: nat)
    requires r > 0 && x < |b| && y < |b[x]| && Drawable(b, r)
    ensures Canvas(b, r, x, y + 1, px, py) ==
      if x * r <= px < x * r + r && y * r <= py < y * r + r
      then (if b[x][y] == [] then 0 else TilePixel(b[x][y][0], r, px - x * r, py - y * r))
      else Canvas(b, r, x, y, px, py)
  {
    OwnerRange(r, x, px);
    OwnerRange(r, y, py);
  }
}
