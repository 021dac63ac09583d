/**
  What tile-catalog construction records, as plain sets.

  A visit of tile coordinate (x, y) of one pass image records the block there,
  every in-range neighbouring block, a pattern entry for the block, and one
  direction-labelled edge (d, block, neighbour) per in-range neighbour. The view
  of a whole pass is the union over the visited coordinates, column by column,
  in the order findPatterns visits them.
*/
module Catalog {
  import opened Wrappers
  import opened Tiles

  datatype Dir = North | East | South | West

  /** The four adjacency sets recorded for one tile (`BlobPattern`). */
  datatype BlobPattern = BlobPattern(north: set<Tile>, east: set<Tile>, south: set<Tile>, west: set<Tile>)

  const EmptyPattern := BlobPattern({}, {}, {}, {})

  function Side(p: BlobPattern, d: Dir): set<Tile> {
    match d
    case North => p.north
    case East => p.east
    case South => p.south
    case West => p.west
  }

  function Opposite(d: Dir): Dir {
    match d
    case North => South
    case East => West
    case South => North
    case West => East
  }

  /** Tile-grid offset of the neighbour in direction d, as addBlobPatterns and getNeighbours use it. */
  function DX(d: Dir): int {
    match d
    case East => 1
    case West => -1
    case _ => 0
  }

  function DY(d: Dir): int {
    match d
    case North => -1
    case South => 1
    case _ => 0
  }

  /** An edge (d, a, b): tile b was seen next to tile a, in direction d from a. */
  type Edge = (Dir, Tile, Tile)

  datatype View = View(tiles: set<Tile>, keys: set<Tile>, edges: set<Edge>)

  const NoView := View({}, {}, {})

  function Join(a: View, b: View): View {
    View(a.tiles + b.tiles, a.keys + b.keys, a.edges + b.edges)
  }

  function Flip(e: Edge): Edge {
    (Opposite(e.0), e.2, e.1)
  }

  /** Every recorded edge is also recorded from the other side. */
  predicate Symmetric(v: View) {
    forall e :: e in v.edges ==> Flip(e) in v.edges
  }

  function OptSet(o: Option<Tile>): set<Tile> {
    if o.Some? then {o.value} else {}
  }

  function EdgeSet(d: Dir, c: Tile, o: Option<Tile>): set<Edge> {
    if o.Some? then {(d, c, o.value)} else {}
  }

  /** getBlobFromGriddedImage's answer, without the catalog side effect. */
  function BlockAtOpt(img: Image, r: nat, x: int, y: int): Option<Tile>
    requires WellFormed(img) && r > 0
  {
    if TileInRange(img, r, x, y) then Some(Block(img, r, x, y)) else None
  }

  function NeighbourBlock(img: Image, r: nat, x: int, y: int, d: Dir): Option<Tile>
    requires WellFormed(img) && r > 0
  {
    BlockAtOpt(img, r, x + DX(d), y + DY(d))
  }

  /** The directions addBlobPatterns looks in, in its order. */
  const Dirs := [North, East, South, West]

  /** The in-range neighbouring blocks of (x, y) in the directions ds. */
  function NeighbourTiles(img: Image, r: nat, x: int, y: int, ds: seq<Dir>): set<Tile>
    requires WellFormed(img) && r > 0
  {
    if ds == [] then {} else OptSet(NeighbourBlock(img, r, x, y, ds[0])) + NeighbourTiles(img, r, x, y, ds[1..])
  }

  /** The edges from c to the in-range neighbouring blocks of (x, y) in the directions ds. */
  function NeighbourEdges(img: Image, r: nat, x: int, y: int, c: Tile, ds: seq<Dir>): set<Edge>
    requires WellFormed(img) && r > 0
  {
    if ds == [] then {} else EdgeSet(ds[0], c, NeighbourBlock(img, r, x, y, ds[0])) + NeighbourEdges(img, r, x, y, c, ds[1..])
  }

  lemma {:induction false} NeighbourEdgesMember(img: Image, r: nat, x: int, y: int, c: Tile, ds: seq<Dir>, e: Edge)
    requires WellFormed(img) && r > 0
    ensures e in NeighbourEdges(img, r, x, y, c, ds) <==>
      e.0 in ds && e.1 == c && NeighbourBlock(img, r, x, y, e.0) == Some(e.2)
  {
    if ds != [] {
      NeighbourEdgesMember(img, r, x, y, c, ds[1..], e);
      assert e.0 in ds <==> e.0 == ds[0] || e.0 in ds[1..];
    }
  }

  /** What one call addBlobPatterns(img, x, y) records. */
  function CellView(img: Image, r: nat, x: int, y: int): View
    requires WellFormed(img) && r > 0
  {
    if !TileInRange(img, r, x, y) then NoView
    else
      var c := Block(img, r, x, y);
      View({c} + NeighbourTiles(img, r, x, y, Dirs), {c}, NeighbourEdges(img, r, x, y, c, Dirs))
  }

  /** The edges recorded by a visit of (x, y): one per in-range neighbour of an in-range tile. */
  lemma CellEdge(img: Image, r: nat, x: int, y: int, e: Edge)
    requires WellFormed(img) && r > 0
    ensures e in CellView(img, r, x, y).edges <==>
      TileInRange(img, r, x, y) && e.1 == Block(img, r, x, y) && NeighbourBlock(img, r, x, y, e.0) == Some(e.2)
  {
    if TileInRange(img, r, x, y) {
      NeighbourEdgesMember(img, r, x, y, Block(img, r, x, y), Dirs, e);
    }
  }

  /** A visit of an in-range tile, its four neighbours written out in addBlobPatterns' order. */
  lemma CellViewUnfold(img: Image, r: nat, x: int, y: int)
    requires WellFormed(img) && r > 0 && TileInRange(img, r, x, y)
    ensures var c := Block(img, r, x, y);
      var n, e, s, w := NeighbourBlock(img, r, x, y, North), NeighbourBlock(img, r, x, y, East),
                        NeighbourBlock(img, r, x, y, South), NeighbourBlock(img, r, x, y, West);
      CellView(img, r, x, y) ==
        View({c} + (OptSet(n) + (OptSet(e) + (OptSet(s) + OptSet(w)))), {c},
             EdgeSet(North, c, n) + (EdgeSet(East, c, e) + (EdgeSet(South, c, s) + EdgeSet(West, c, w))))
  {
    var c := Block(img, r, x, y);
    var d1, d2, d3 := [East, South, West], [South, West], [West];
    assert Dirs[1..] == d1 && d1[1..] == d2 && d2[1..] == d3 && d3[1..] == [];
    assert NeighbourTiles(img, r, x, y, d3) == OptSet(NeighbourBlock(img, r, x, y, West));
    assert NeighbourTiles(img, r, x, y, d2) == OptSet(NeighbourBlock(img, r, x, y, South)) + NeighbourTiles(img, r, x, y, d3);
    assert NeighbourTiles(img, r, x, y, d1) == OptSet(NeighbourBlock(img, r, x, y, East)) + NeighbourTiles(img, r, x, y, d2);
    assert NeighbourTiles(img, r, x, y, Dirs) == OptSet(NeighbourBlock(img, r, x, y, North)) + NeighbourTiles(img, r, x, y, d1);
    assert NeighbourEdges(img, r, x, y, c, d3) == EdgeSet(West, c, NeighbourBlock(img, r, x, y, West));
    assert NeighbourEdges(img, r, x, y, c, d2) == EdgeSet(South, c, NeighbourBlock(img, r, x, y, South)) + NeighbourEdges(img, r, x, y, c, d3);
    assert NeighbourEdges(img, r, x, y, c, d1) == EdgeSet(East, c, NeighbourBlock(img, r, x, y, East)) + NeighbourEdges(img, r, x, y, c, d2);
    assert NeighbourEdges(img, r, x, y, c, Dirs) == EdgeSet(North, c, NeighbourBlock(img, r, x, y, North)) + NeighbourEdges(img, r, x, y, c, d1);
  }

  /** Visits (x, 0) .. (x, ys - 1). */
  function ColumnView(img: Image, r: nat, x: int, ys: nat): View
    requires WellFormed(img) && r > 0
  {
    if ys == 0 then NoView else Join(ColumnView(img, r, x, ys - 1), CellView(img, r, x, ys - 1))
  }

  /** Visits every (x, y) with x < xs and y < ys, column by column. */
  function GridView(img: Image, r: nat, xs: nat, ys: nat): View
    requires WellFormed(img) && r > 0
  {
    if xs == 0 then NoView else Join(GridView(img, r, xs - 1, ys), ColumnView(img, r, xs - 1, ys))
  }

  /** The passes in order, each over the same loop bounds xs and ys. */
  function PassesView(passes: seq<Image>, r: nat, xs: nat, ys: nat): View
    requires r > 0 && forall k :: 0 <= k < |passes| ==> WellFormed(passes[k])
  {
    if passes == [] then NoView
    else Join(PassesView(passes[..|passes| - 1], r, xs, ys), GridView(passes[|passes| - 1], r, xs, ys))
  }

  /** The edges an adjacency map holds, direction by direction. */
  function DirEdges(m: map<Tile, BlobPattern>, d: Dir): set<Edge> {
    set a, b | a in m && b in Side(m[a], d) :: (d, a, b)
  }

  function Edges(m: map<Tile, BlobPattern>): set<Edge> {
    DirEdges(m, North) + DirEdges(m, East) + DirEdges(m, South) + DirEdges(m, West)
  }

  /** The view of a catalog: its unique tiles and its adjacency map. */
  function ViewOf(tiles: seq<Tile>, m: map<Tile, BlobPattern>): View {
    View((set t | t in tiles), m.Keys, Edges(m))
  }

  lemma EdgesMember(m: map<Tile, BlobPattern>, e: Edge)
    ensures e in Edges(m) <==> e.1 in m && e.2 in Side(m[e.1], e.0)
  {
    var (d, a, b) := e;
    if a in m && b in Side(m[a], d) {
      assert e in DirEdges(m, d);
    }
  }

  /** Widening one side of c's pattern adds exactly the edges from c to the new tiles. */
  lemma {:induction false} RecordSide(m: map<Tile, BlobPattern>, c: Tile, p: BlobPattern, d: Dir, add: set<Tile>)
    requires Side(p, d) == (if c in m then Side(m[c], d) else {}) + add
    ensures DirEdges(m[c := p], d) == DirEdges(m, d) + (set b | b in add :: (d, c, b))
  {
    var m' := m[c := p];
    forall x | x in DirEdges(m', d) ensures x in DirEdges(m, d) + (set b | b in add :: (d, c, b)) {
      var a, b :| a in m' && b in Side(m'[a], d) && x == (d, a, b);
      if a != c {
        assert x in DirEdges(m, d);
      } else if b !in add {
        assert x in DirEdges(m, d);
      }
    }
    forall x | x in DirEdges(m, d) + (set b | b in add :: (d, c, b)) ensures x in DirEdges(m', d) {
      if x in DirEdges(m, d) {
        var a, b :| a in m && b in Side(m[a], d) && x == (d, a, b);
        assert a in m' && b in Side(m'[a], d);
      } else {
        var b :| b in add && x == (d, c, b);
        assert c in m' && b in Side(m'[c], d);
      }
    }
  }

  lemma OptEdges(d: Dir, c: Tile, o: Option<Tile>)
    ensures (set b | b in OptSet(o) :: (d, c, b)) == EdgeSet(d, c, o)
  {
  }

  /**
    Adding the neighbours n, e, s, w to the pattern of c (creating an empty one
    first when c has none) adds exactly their edges to the map's edges.
  */
  lemma RecordEdges(m: map<Tile, BlobPattern>, c: Tile,
                    n: Option<Tile>, e: Option<Tile>, s: Option<Tile>, w: Option<Tile>)
    ensures var bp := if c in m then m[c] else EmptyPattern;
      var m' := m[c := BlobPattern(bp.north + OptSet(n), bp.east + OptSet(e), bp.south + OptSet(s), bp.west + OptSet(w))];
      m'.Keys == m.Keys + {c} &&
      Edges(m') == Edges(m) + EdgeSet(North, c, n) + EdgeSet(East, c, e) + EdgeSet(South, c, s) + EdgeSet(West, c, w)
  {
    var bp := if c in m then m[c] else EmptyPattern;
    var p := BlobPattern(bp.north + OptSet(n), bp.east + OptSet(e), bp.south + OptSet(s), bp.west + OptSet(w));
    RecordSide(m, c, p, North, OptSet(n));
    RecordSide(m, c, p, East, OptSet(e));
    RecordSide(m, c, p, South, OptSet(s));
    RecordSide(m, c, p, West, OptSet(w));
    OptEdges(North, c, n);
    OptEdges(East, c, e);
    OptEdges(South, c, s);
    OptEdges(West, c, w);
    Regroup(DirEdges(m, North), DirEdges(m, East), DirEdges(m, South), DirEdges(m, West),
            EdgeSet(North, c, n), EdgeSet(East, c, e), EdgeSet(South, c, s), EdgeSet(West, c, w));
  }

  lemma Regroup<T>(a: set<T>, b: set<T>, c: set<T>, d: set<T>, a': set<T>, b': set<T>, c': set<T>, d': set<T>)
    ensures (a + a') + (b + b') + (c + c') + (d + d') == a + b + c + d + a' + b' + c' + d'
  {
  }

  /** An edge in a column's view was recorded by some visited cell of the column. */
  lemma {:induction false} ColumnEdgeFrom(img: Image, r: nat, x: int, ys: nat, e: Edge)
    requires WellFormed(img) && r > 0 && e in ColumnView(img, r, x, ys).edges
    ensures exists y :: 0 <= y < ys && e in CellView(img, r, x, y).edges
  {
    if e !in CellView(img, r, x, ys - 1).edges {
      ColumnEdgeFrom(img, r, x, ys - 1, e);
    }
  }

  /** Everything a view records is recorded by the larger view b. */
  predicate SubView(a: View, b: View) {
    a.tiles <= b.tiles && a.keys <= b.keys && a.edges <= b.edges
  }

  /** What a visited cell records is in its column's view. */
  lemma {:induction false} ColumnHas(img: Image, r: nat, x: int, ys: nat, y: int)
    requires WellFormed(img) && r > 0 && 0 <= y < ys
    ensures SubView(CellView(img, r, x, y), ColumnView(img, r, x, ys))
  {
    if y < ys - 1 {
      ColumnHas(img, r, x, ys - 1, y);
    }
  }

  /** An edge in a pass's view was recorded by some visited cell. */
  lemma {:induction false} GridEdgeFrom(img: Image, r: nat, xs: nat, ys: nat, e: Edge)
    requires WellFormed(img) && r > 0 && e in GridView(img, r, xs, ys).edges
    ensures exists x, y :: 0 <= x < xs && 0 <= y < ys && e in CellView(img, r, x, y).edges
  {
    if e in ColumnView(img, r, xs - 1, ys).edges {
      ColumnEdgeFrom(img, r, xs - 1, ys, e);
      var y :| 0 <= y < ys && e in CellView(img, r, xs - 1, y).edges;
    } else {
      GridEdgeFrom(img, r, xs - 1, ys, e);
    }
  }

  /** What a visited cell records is in the pass's view. */
  lemma {:induction false} GridHas(img: Image, r: nat, xs: nat, ys: nat, x: int, y: int)
    requires WellFormed(img) && r > 0 && 0 <= x < xs && 0 <= y < ys
    ensures SubView(CellView(img, r, x, y), GridView(img, r, xs, ys))
  {
    if x < xs - 1 {
      GridHas(img, r, xs - 1, ys, x, y);
    } else {
      ColumnHas(img, r, x, ys, y);
    }
  }

  /** What pass k records is in the view of all the passes. */
  lemma {:induction false} PassesHas(passes: seq<Image>, r: nat, xs: nat, ys: nat, k: int)
    requires r > 0 && forall i :: 0 <= i < |passes| ==> WellFormed(passes[i])
    requires 0 <= k < |passes|
    ensures SubView(GridView(passes[k], r, xs, ys), PassesView(passes, r, xs, ys))
  {
    if k < |passes| - 1 {
      var front := passes[..|passes| - 1];
      assert front[k] == passes[k];
      PassesHas(front, r, xs, ys, k);
    }
  }

  /** An edge in the view of all the passes was recorded by one of them. */
  lemma {:induction false} PassesEdgeFrom(passes: seq<Image>, r: nat, xs: nat, ys: nat, e: Edge)
    requires r > 0 && forall i :: 0 <= i < |passes| ==> WellFormed(passes[i])
    requires e in PassesView(passes, r, xs, ys).edges
    ensures exists k :: 0 <= k < |passes| && e in GridView(passes[k], r, xs, ys).edges
  {
    var last := |passes| - 1;
    if e !in GridView(passes[last], r, xs, ys).edges {
      var front := passes[..last];
      PassesEdgeFrom(front, r, xs, ys, e);
      var k :| 0 <= k < |front| && e in GridView(front[k], r, xs, ys).edges;
      assert front[k] == passes[k];
    }
  }

  /** An edge recorded at (x, y) is recorded, flipped, at the neighbour it points to. */
  lemma CellEdgeFlip(img: Image, r: nat, x: int, y: int, e: Edge)
    requires WellFormed(img) && r > 0
    requires e in CellView(img, r, x, y).edges
    ensures TileInRange(img, r, x + DX(e.0), y + DY(e.0))
    ensures Flip(e) in CellView(img, r, x + DX(e.0), y + DY(e.0)).edges
  {
    CellEdge(img, r, x, y, e);
    var d := e.0;
    var x', y' := x + DX(d), y + DY(d);
    assert TileInRange(img, r, x', y') && e.2 == Block(img, r, x', y');
    assert x' + DX(Opposite(d)) == x && y' + DY(Opposite(d)) == y;
    assert NeighbourBlock(img, r, x', y', Opposite(d)) == Some(e.1);
    CellEdge(img, r, x', y', Flip(e));
  }

  /** The loop bounds xs, ys are exactly the image's own tile grid. */
  predicate CoversGrid(img: Image, r: nat, xs: nat, ys: nat)
    requires r > 0
  {
    xs == Whole(img.width, r) && ys == Whole(img.height, r)
  }

  lemma FullGridCovered(img: Image, r: nat)
    requires r > 0
    ensures CoversGrid(img, r, img.width / r, img.height / r)
  {
    WholeIsDiv(img.width, r);
    WholeIsDiv(img.height, r);
  }

  /** An edge recorded by a visit, flipped, is in a pass covering the image's tile grid. */
  lemma FlipAt(img: Image, r: nat, xs: nat, ys: nat, x: int, y: int, e: Edge)
    requires WellFormed(img) && r > 0 && CoversGrid(img, r, xs, ys)
    requires e in CellView(img, r, x, y).edges
    ensures Flip(e) in GridView(img, r, xs, ys).edges
  {
    CellEdgeFlip(img, r, x, y, e);
    var x', y' := x + DX(e.0), y + DY(e.0);
    GridHas(img, r, xs, ys, x', y');
  }

  lemma FlipInPass(img: Image, r: nat, xs: nat, ys: nat, e: Edge)
    requires WellFormed(img) && r > 0 && CoversGrid(img, r, xs, ys)
    requires e in GridView(img, r, xs, ys).edges
    ensures Flip(e) in GridView(img, r, xs, ys).edges
  {
    GridEdgeFrom(img, r, xs, ys, e);
    var x, y :| 0 <= x < xs && 0 <= y < ys && e in CellView(img, r, x, y).edges;
    FlipAt(img, r, xs, ys, x, y, e);
  }

  /**
    A pass that visits the whole tile grid of its image records every edge from
    both sides: B in A.east exactly when A in B.west, and likewise north/south.
  */
  lemma FullPassSymmetric(img: Image, r: nat)
    requires WellFormed(img) && r > 0
    ensures Symmetric(GridView(img, r, img.width / r, img.height / r))
  {
    var xs, ys := img.width / r, img.height / r;
    FullGridCovered(img, r);
    forall e | e in GridView(img, r, xs, ys).edges
      ensures Flip(e) in GridView(img, r, xs, ys).edges
    {
      FlipInPass(img, r, xs, ys, e);
    }
  }

  lemma JoinSymmetric(a: View, b: View)
    requires Symmetric(a) && Symmetric(b)
    ensures Symmetric(Join(a, b))
  {
  }

  /**
    When every pass image has the base image's tile grid (as the rotations of
    a square source do), the passes over the base's loop bounds give a
    symmetric catalog.
  */
  lemma {:induction false} FullPassesSymmetric(passes: seq<Image>, r: nat, xs: nat, ys: nat)
    requires r > 0
    requires forall k :: 0 <= k < |passes| ==>
      WellFormed(passes[k]) && passes[k].width / r == xs && passes[k].height / r == ys
    ensures Symmetric(PassesView(passes, r, xs, ys))
  {
    if passes != [] {
      FullPassesSymmetric(passes[..|passes| - 1], r, xs, ys);
      FullPassSymmetric(passes[|passes| - 1], r);
      JoinSymmetric(PassesView(passes[..|passes| - 1], r, xs, ys), GridView(passes[|passes| - 1], r, xs, ys));
    }
  }

  /** A symmetric view read back on the adjacency map. */
  lemma SymmetricPatterns(tiles: seq<Tile>, m: map<Tile, BlobPattern>, a: Tile, b: Tile, d: Dir)
    requires Symmetric(ViewOf(tiles, m))
    requires a in m && b in Side(m[a], d)
    ensures b in m && a in Side(m[b], Opposite(d))
  {
    assert Flip((d, a, b)) == (Opposite(d), b, a);
    EdgesMember(m, (d, a, b));
    EdgesMember(m, Flip((d, a, b)));
  }

  /** Every tile of the list is an R x R block. */
  predicate Sized(s: seq<Tile>, r: nat) {
    forall t :: t in s ==> |t| == r * r
  }

  /** A list without repeated tiles (uniqueBlobs). */
  predicate Distinct(s: seq<Tile>) {
    forall i, j :: 0 <= i < j < |s| ==> s[i] != s[j]
  }

  /** uniqueBlobs after getBlobFromGriddedImage returned o: o's tile appended unless already present. */
  function Absorb(u: seq<Tile>, o: Option<Tile>): seq<Tile> {
    if o.Some? && o.value !in u then u + [o.value] else u
  }

  /** uniqueBlobs only grows, stays free of repeats, and gains exactly the returned tile. */
  lemma AbsorbKeeps(u: seq<Tile>, o: Option<Tile>)
    requires Distinct(u)
    ensures Distinct(Absorb(u, o)) && u <= Absorb(u, o)
    ensures (set t | t in Absorb(u, o)) == (set t | t in u) + OptSet(o)
  {
    if o.Some? && o.value !in u {
      var v := u + [o.value];
      forall i, j | 0 <= i < j < |v| ensures v[i] != v[j] {
        if j == |u| {
          assert v[i] == u[i] && u[i] in u;
        }
      }
    }
  }

  lemma JoinAssoc(a: View, b: View, c: View)
    ensures Join(Join(a, b), c) == Join(a, Join(b, c))
  {
  }

  lemma EmptyCatalog()
    ensures ViewOf([], map[]) == NoView
  {
    forall e | e in Edges(map[]) ensures false {
      EdgesMember(map[], e);
    }
  }

  /**
    When the catalog's view grows by v, every existing pattern keeps all of
    its adjacency sets: tiles are only ever added.
  */
  lemma OnlyAdds(u: seq<Tile>, m: map<Tile, BlobPattern>, u': seq<Tile>, m': map<Tile, BlobPattern>, v: View)
    requires ViewOf(u', m') == Join(ViewOf(u, m), v)
    ensures forall t :: t in u ==> t in u'
    ensures forall t, d :: t in m ==> t in m' && Side(m[t], d) <= Side(m'[t], d)
  {
    assert forall t :: t in u ==> t in ViewOf(u, m).tiles;
    forall t, d | t in m ensures t in m' && Side(m[t], d) <= Side(m'[t], d) {
      assert t in m.Keys;
      forall b | b in Side(m[t], d) ensures b in Side(m'[t], d) {
        EdgesMember(m, (d, t, b));
        EdgesMember(m', (d, t, b));
      }
    }
  }

  /**
    After a visit of (x, y), tile b is in direction set d of tile a exactly when
    it already was, or (x, y) is in range, a is its block and b the in-range
    neighbour in direction d.
  */
  lemma VisitRecords(u: seq<Tile>, m: map<Tile, BlobPattern>, u': seq<Tile>, m': map<Tile, BlobPattern>,
                     img: Image, r: nat, x: int, y: int, a: Tile, b: Tile, d: Dir)
    requires WellFormed(img) && r > 0
    requires ViewOf(u', m') == Join(ViewOf(u, m), CellView(img, r, x, y))
    ensures (a in m' && b in Side(m'[a], d)) <==>
      (a in m && b in Side(m[a], d)) ||
      (TileInRange(img, r, x, y) && a == Block(img, r, x, y) && NeighbourBlock(img, r, x, y, d) == Some(b))
  {
    EdgesMember(m, (d, a, b));
    EdgesMember(m', (d, a, b));
    CellEdge(img, r, x, y, (d, a, b));
  }

  /** The pattern map after addBlobPatterns records neighbours n, e, s, w of tile c. */
  function Record(m: map<Tile, BlobPattern>, c: Tile,
                  n: Option<Tile>, e: Option<Tile>, s: Option<Tile>, w: Option<Tile>): map<Tile, BlobPattern> {
    var bp := if c in m then m[c] else EmptyPattern;
    m[c := BlobPattern(bp.north + OptSet(n), bp.east + OptSet(e), bp.south + OptSet(s), bp.west + OptSet(w))]
  }

  /**
    Recording the in-range neighbours of the block at (x, y), with uniqueBlobs
    gaining the block and those neighbours, adds exactly that visit's view.
  */
  lemma RecordVisit(u: seq<Tile>, m: map<Tile, BlobPattern>, u': seq<Tile>, img: Image, r: nat, x: int, y: int,
                    c: Tile, n: Option<Tile>, e: Option<Tile>, s: Option<Tile>, w: Option<Tile>)
    requires WellFormed(img) && r > 0 && TileInRange(img, r, x, y) && c == Block(img, r, x, y)
    requires n == BlockAtOpt(img, r, x, y - 1) && e == BlockAtOpt(img, r, x + 1, y)
    requires s == BlockAtOpt(img, r, x, y + 1) && w == BlockAtOpt(img, r, x - 1, y)
    requires (set t | t in u') == (set t | t in u) + {c} + OptSet(n) + OptSet(e) + OptSet(s) + OptSet(w)
    ensures ViewOf(u', Record(m, c, n, e, s, w)) == Join(ViewOf(u, m), CellView(img, r, x, y))
  {
    NeighboursAre(img, r, x, y);
    CellViewUnfold(img, r, x, y);
    RecordSets(u, m, u', c, n, e, s, w);
  }

  /** The four lookups of addBlobPatterns are the neighbours north, east, south and west. */
  lemma NeighboursAre(img: Image, r: nat, x: int, y: int)
    requires WellFormed(img) && r > 0
    ensures NeighbourBlock(img, r, x, y, North) == BlockAtOpt(img, r, x, y - 1)
    ensures NeighbourBlock(img, r, x, y, East) == BlockAtOpt(img, r, x + 1, y)
    ensures NeighbourBlock(img, r, x, y, South) == BlockAtOpt(img, r, x, y + 1)
    ensures NeighbourBlock(img, r, x, y, West) == BlockAtOpt(img, r, x - 1, y)
  {
  }

  /** The visit of RecordVisit, on the recorded tiles alone. */
  lemma RecordSets(u: seq<Tile>, m: map<Tile, BlobPattern>, u': seq<Tile>,
                   c: Tile, n: Option<Tile>, e: Option<Tile>, s: Option<Tile>, w: Option<Tile>)
    requires (set t | t in u') == (set t | t in u) + {c} + OptSet(n) + OptSet(e) + OptSet(s) + OptSet(w)
    ensures ViewOf(u', Record(m, c, n, e, s, w)) ==
      Join(ViewOf(u, m), View({c} + (OptSet(n) + (OptSet(e) + (OptSet(s) + OptSet(w)))), {c},
                              EdgeSet(North, c, n) + (EdgeSet(East, c, e) + (EdgeSet(South, c, s) + EdgeSet(West, c, w)))))
  {
    RecordEdges(m, c, n, e, s, w);
    Nest(Edges(m), EdgeSet(North, c, n), EdgeSet(East, c, e), EdgeSet(South, c, s), EdgeSet(West, c, w));
    Nest((set t | t in u), {c}, OptSet(n), OptSet(e), OptSet(s) + OptSet(w));
  }

  lemma Nest<T>(a: set<T>, b: set<T>, c: set<T>, d: set<T>, e: set<T>)
    ensures a + b + c + d + e == a + (b + (c + (d + e)))
  {
  }

  lemma JoinNoView(v: View)
    ensures Join(v, NoView) == v && Join(NoView, v) == v
  {
  }
}
