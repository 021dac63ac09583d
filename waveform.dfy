/**
  The Wave Function Collapse engine (`WaveformCollapse`).

  The engine cuts the source image and its three rotations into R x R tiles,
  records which tiles were seen next to which, fills a grid of cells with every
  tile, and then collapses and prunes the cells until each holds at most one
  tile. Finally it paints the first tile of every cell into the output raster.
*/
module Waveform {
  import opened Wrappers
  import opened Tiles
  import opened Catalog
  import opened Superpositions
  import opened Grid

  /** The exceptions construction can raise before any work is done. */
  datatype ConfigError =
    | ZeroResolution                          // `width % 0` throws ArithmeticException
    | WidthNotMultiple(width: nat, r: nat)    // "Width <width> is not a multiple of <r>"
    | HeightNotMultiple(height: nat, r: nat)  // "Height <height> is not a multiple of <r>"
    | EmptyOutput(width: nat, height: nat)    // `BufferedImage(width, height)` with a zero side

  /**
    The checks of construction, in the order they fire: the two size checks of
    the initialiser (with R = 0 failing the remainder itself), then the
    output raster, which cannot have a zero side.
  */
  function CheckDimensions(base: Image, r: nat, dims: Dimension): (e: Option<ConfigError>)
    ensures e.None? <==>
      r > 0 && base.width % r == 0 && base.height % r == 0 && dims.width > 0 && dims.height > 0
    ensures e == Some(ZeroResolution) <==> r == 0
    ensures e == Some(WidthNotMultiple(base.width, r)) <==> r > 0 && base.width % r != 0
    ensures e == Some(HeightNotMultiple(base.height, r)) <==>
      r > 0 && base.width % r == 0 && base.height % r != 0
    ensures e == Some(EmptyOutput(dims.width * r, dims.height * r)) <==>
      r > 0 && base.width % r == 0 && base.height % r == 0 && (dims.width == 0 || dims.height == 0)
  {
    if r == 0 then Some(ZeroResolution)
    else if base.width % r != 0 then Some(WidthNotMultiple(base.width, r))
    else if base.height % r != 0 then Some(HeightNotMultiple(base.height, r))
    else if dims.width * r == 0 || dims.height * r == 0 then
      Some(EmptyOutput(dims.width * r, dims.height * r))
    else None
  }

  /**
    The images findPatterns reads: `rotateImage(image, 0)` is the image
    itself, followed by its 90, 180 and 270 degree rotations, which swap the
    sides for 90 and 270.
  */
  predicate RotationsOf(base: Image, rotations: seq<Image>) {
    |rotations| == 3 &&
    WellFormed(base) && (forall k :: 0 <= k < 3 ==> WellFormed(rotations[k])) &&
    rotations[0].width == base.height && rotations[0].height == base.width &&
    rotations[1].width == base.width && rotations[1].height == base.height &&
    rotations[2].width == base.height && rotations[2].height == base.width
  }

  /**
    The catalog findPatterns builds from a fresh start: the passes over the
    base image and its rotations, each over the base image's tile grid.
  */
  function CatalogView(base: Image, rotations: seq<Image>, r: nat): View
    requires r > 0 && RotationsOf(base, rotations)
  {
    PassesView([base] + rotations, r, base.width / r, base.height / r)
  }

  /**
    For a square source every rotation has the base's tile grid, so the
    recorded adjacency is symmetric: b is in a's east set exactly when a is in
    b's west set, and likewise north and south.
  */
  lemma SquareSourceSymmetric(base: Image, rotations: seq<Image>, r: nat)
    requires r > 0 && RotationsOf(base, rotations) && base.width == base.height
    ensures Symmetric(CatalogView(base, rotations, r))
  {
    var passes := [base] + rotations;
    FullPassesSymmetric(passes, r, base.width / r, base.height / r);
  }

  /** Passes whose loops cover a single row of tiles record no north edge. */
  lemma SingleRowNoNorth(passes: seq<Image>, r: nat, xs: nat)
    requires r > 0 && forall k :: 0 <= k < |passes| ==> WellFormed(passes[k])
    ensures forall e :: e in PassesView(passes, r, xs, 1).edges ==> e.0 != North
  {
    forall e | e in PassesView(passes, r, xs, 1).edges ensures e.0 != North {
      PassesEdgeFrom(passes, r, xs, 1, e);
      var k :| 0 <= k < |passes| && e in GridView(passes[k], r, xs, 1).edges;
      GridEdgeFrom(passes[k], r, xs, 1, e);
      var x, y :| 0 <= x < xs && 0 <= y < 1 && e in CellView(passes[k], r, x, y).edges;
      CellEdge(passes[k], r, x, y, e);
    }
  }

  /**
    The rotated passes reuse the base image's loop bounds, so for a source that
    is not square the catalog need not be symmetric: for a 2 x 1 source cut into
    1 x 1 tiles, the quarter-turn pass (a 1 x 2 image) visits only its top
    tile, recording the bottom tile south of the top one, while no pass ever
    records the top tile north of the bottom one.
  */
  lemma WideSourceAsymmetric(base: Image, rotations: seq<Image>)
    requires RotationsOf(base, rotations) && base.width == 2 && base.height == 1
    ensures !Symmetric(CatalogView(base, rotations, 1))
  {
    var passes := [base] + rotations;
    var img := rotations[0];
    assert passes[1] == img;
    assert TileInRange(img, 1, 0, 0) && TileInRange(img, 1, 0, 1);
    var e := (South, Block(img, 1, 0, 0), Block(img, 1, 0, 1));
    CellEdge(img, 1, 0, 0, e);
    GridHas(img, 1, 2, 1, 0, 0);
    PassesHas(passes, 1, 2, 1, 1);
    SingleRowNoNorth(passes, 1, 2);
    assert e in CatalogView(base, rotations, 1).edges && Flip(e).0 == North;
  }

  /**
    A source holding at least one whole tile gives a non-empty catalog: the
    block at the base image's top-left corner is in it.
  */
  lemma NonEmptyCatalog(base: Image, rotations: seq<Image>, r: nat, u: seq<Tile>, m: map<Tile, BlobPattern>)
    requires r > 0 && RotationsOf(base, rotations) && base.width >= r && base.height >= r
    requires ViewOf(u, m) == CatalogView(base, rotations, r)
    ensures TileInRange(base, r, 0, 0) && Block(base, r, 0, 0) in u
  {
    var passes := [base] + rotations;
    assert passes[0] == base;
    var xs, ys := base.width / r, base.height / r;
    WholeIsDiv(base.width, r);
    WholeIsDiv(base.height, r);
    assert TileInRange(base, r, 0, 0);
    GridHas(base, r, xs, ys, 0, 0);
    PassesHas(passes, r, xs, ys, 0);
    assert Block(base, r, 0, 0) in ViewOf(u, m).tiles;
  }

  lemma PrefixTrans<T>(a: seq<T>, b: seq<T>, c: seq<T>, d: seq<T>, e: seq<T>, f: seq<T>)
    requires a <= b <= c <= d <= e <= f
    ensures a <= f
  {
  }

  /** Running pass k after passes 0 until k adds pass k's view. */
  lemma PassStep(start: View, passes: seq<Image>, k: nat, r: nat, xs: nat, ys: nat)
    requires r > 0 && k < |passes| && forall i :: 0 <= i < |passes| ==> WellFormed(passes[i])
    ensures Join(start, PassesView(passes[..k + 1], r, xs, ys)) ==
      Join(Join(start, PassesView(passes[..k], r, xs, ys)), GridView(passes[k], r, xs, ys))
  {
    assert passes[..k + 1][..k] == passes[..k];
    JoinAssoc(start, PassesView(passes[..k], r, xs, ys), GridView(passes[k], r, xs, ys));
  }

  /** No cell object sits at two coordinates of the grid. */
  ghost predicate Injective(g: seq<seq<Superposition>>) {
    forall x, y, x', y' ::
      (0 <= x < |g| && 0 <= y < |g[x]| && 0 <= x' < |g| && 0 <= y' < |g[x']| && g[x][y] == g[x'][y']) ==>
      x == x' && y == y'
  }

  /** The candidate list of a getSuperposition answer, None off the grid. */
  function ListOf(s: Option<Superposition>): (l: Option<seq<Tile>>)
    reads if s.Some? then {s.value} else {}
    ensures l.Some? <==> s.Some?
    ensures s.Some? ==> l.value == s.value.positions
  {
    if s.Some? then Some(s.value.positions) else None
  }

  /**
    The loop of prunePositions that fills `toRemove`: the candidates of `ps`
    that have a pattern and fail one of the four checks, a check passing when
    its neighbour is off the grid.
  */
  method FailingPositions(ps: seq<Tile>, patterns: map<Tile, BlobPattern>,
                          north: Option<seq<Tile>>, east: Option<seq<Tile>>,
                          south: Option<seq<Tile>>, west: Option<seq<Tile>>) returns (toRemove: set<Tile>)
    ensures toRemove == Failing(ps, patterns, north, east, south, west)
  {
    toRemove := {};
    for i := 0 to |ps|
      invariant toRemove == Failing(ps[..i], patterns, north, east, south, west)
    {
      FailingSnoc(ps, i, patterns, north, east, south, west);
      var position := ps[i];
      if position !in patterns {
        continue;
      }
      var pattern := patterns[position];
      var validNorth := north.None? || exists t :: t in pattern.north && t in north.value;
      var validEast := east.None? || exists t :: t in pattern.east && t in east.value;
      var validSouth := south.None? || exists t :: t in pattern.south && t in south.value;
      var validWest := west.None? || exists t :: t in pattern.west && t in west.value;
      if !(validNorth && validEast && validSouth && validWest) {
        toRemove := toRemove + {position};
      }
    }
    assert ps[..|ps|] == ps;
  }

  /**
    `graphics.drawImage(tile, ox, oy)` of an R x R tile stored in row-major
    order (`tile.setRGB(0, 0, R, R, pixels, 0, R)`): the pixels of the block
    at (ox, oy) that fall inside the output take the tile's pixels; the rest
    are clipped, and nothing else changes.
  */
  method DrawTile(output: array2<int>, t: Tile, r: nat, ox: nat, oy: nat)
    requires r > 0 && |t| == r * r
    modifies output
    ensures forall px, py :: 0 <= px < output.Length0 && 0 <= py < output.Length1 ==>
      output[px, py] == if ox <= px < ox + r && oy <= py < oy + r
                        then TilePixel(t, r, px - ox, py - oy) else old(output[px, py])
  {
    for j := 0 to r
      invariant forall px, py :: 0 <= px < output.Length0 && 0 <= py < output.Length1 ==>
        output[px, py] == if ox <= px < ox + r && oy <= py < oy + j
                          then TilePixel(t, r, px - ox, py - oy) else old(output[px, py])
    {
      for i := 0 to r
        invariant forall px, py :: 0 <= px < output.Length0 && 0 <= py < output.Length1 ==>
          output[px, py] == if (ox <= px < ox + r && oy <= py < oy + j) || (ox <= px < ox + i && py == oy + j)
                            then TilePixel(t, r, px - ox, py - oy) else old(output[px, py])
      {
        if ox + i < output.Length0 && oy + j < output.Length1 {
          output[ox + i, oy + j] := TilePixel(t, r, i, j);
        }
      }
    }
  }

  /**
    Construction as a caller sees it: the configuration error the checks
    raise, or an engine whose grid is solved and rendered.
  */
  method Create(baseImage: Image, rotations: seq<Image>, gridResolution: nat, gridDimensions: Dimension)
    returns (res: Result<WaveformCollapse, ConfigError>)
    requires RotationsOf(baseImage, rotations)
    ensures res.Failure? <==> CheckDimensions(baseImage, gridResolution, gridDimensions).Some?
    ensures res.Failure? ==> Some(res.error) == CheckDimensions(baseImage, gridResolution, gridDimensions)
    ensures res.Success? ==> fresh(res.value)
    ensures res.Success? ==> var w := res.value;
      w.baseImage == baseImage && w.rotations == rotations &&
      w.gridResolution == gridResolution && w.gridDimensions == gridDimensions
    ensures res.Success? ==> var w := res.value;
      w.CatalogValid() && w.GridValid() &&
      ViewOf(w.uniqueBlobs, w.patterns) == CatalogView(baseImage, rotations, gridResolution) &&
      NoneOpen(w.cells) &&
      (|w.uniqueBlobs| <= MaxInt ==> Settled(w.cells)) &&
      (w.uniqueBlobs != [] && |w.uniqueBlobs| <= MaxInt ==> Single(w.cells))
    ensures res.Success? ==> var w := res.value;
      w.image.Length0 == gridDimensions.width * gridResolution &&
      w.image.Length1 == gridDimensions.height * gridResolution &&
      forall px, py :: 0 <= px < w.image.Length0 && 0 <= py < w.image.Length1 ==>
        w.image[px, py] == RenderPixel(w.cells, gridResolution, px, py)
  {
    var check := CheckDimensions(baseImage, gridResolution, gridDimensions);
    if check.Some? {
      return Failure(check.value);
    }
    var engine := new WaveformCollapse(baseImage, rotations, gridResolution, gridDimensions);
    return Success(engine);
  }

  class WaveformCollapse {
    const baseImage: Image
    /** The three rotated copies of baseImage (rotateImage is not part of this model). */
    const rotations: seq<Image>
    const gridResolution: nat
    const gridDimensions: Dimension

    var uniqueBlobs: seq<Tile>
    var patterns: map<Tile, BlobPattern>
    var grid: seq<seq<Superposition>>
    var image: array2<int>

    /** The candidate lists of the grid's cells, as values. */
    ghost var cells: Board
    /** The grid's cell objects. */
    ghost var Repr: set<Superposition>

    /**
      The initialiser, once its size checks have passed: build the catalog
      from the image and its rotations, fill the grid with every tile,
      collapse everything starting from a cell chosen at random among
      0..width x 0..height (both ends included), and render the result.
    */
    constructor (baseImage: Image, rotations: seq<Image>, gridResolution: nat, gridDimensions: Dimension)
      requires CheckDimensions(baseImage, gridResolution, gridDimensions).None?
      requires RotationsOf(baseImage, rotations)
      ensures this.baseImage == baseImage && this.rotations == rotations
      ensures this.gridResolution == gridResolution && this.gridDimensions == gridDimensions
      ensures CatalogValid() && GridValid()
      ensures ViewOf(uniqueBlobs, patterns) == CatalogView(baseImage, rotations, gridResolution)
      ensures NoneOpen(cells)
      ensures |uniqueBlobs| <= MaxInt ==> Settled(cells)
      ensures uniqueBlobs != [] && |uniqueBlobs| <= MaxInt ==> Single(cells)
      ensures image.Length0 == gridDimensions.width * gridResolution
      ensures image.Length1 == gridDimensions.height * gridResolution
      ensures forall px, py :: 0 <= px < image.Length0 && 0 <= py < image.Length1 ==>
        image[px, py] == RenderPixel(cells, gridResolution, px, py)
    {
      this.baseImage := baseImage;
      this.rotations := rotations;
      this.gridResolution := gridResolution;
      this.gridDimensions := gridDimensions;
      uniqueBlobs := [];
      patterns := map[];
      grid := [];
      cells := [];
      Repr := {};
      image := new int[0, 0];
      new;
      Init();
    }

    /**
      The work of the initialiser on an empty catalog: findPatterns over the
      image and its rotations, then the grid is built, solved and rendered.
    */
    method Init()
      requires gridResolution > 0 && RotationsOf(baseImage, rotations)
      requires uniqueBlobs == [] && patterns == map[]
      modifies this`uniqueBlobs, this`patterns, this`grid, this`cells, this`Repr, this`image
      ensures CatalogValid() && GridValid()
      ensures ViewOf(uniqueBlobs, patterns) == CatalogView(baseImage, rotations, gridResolution)
      ensures NoneOpen(cells)
      ensures |uniqueBlobs| <= MaxInt ==> Settled(cells)
      ensures uniqueBlobs != [] && |uniqueBlobs| <= MaxInt ==> Single(cells)
      ensures image.Length0 == gridDimensions.width * gridResolution
      ensures image.Length1 == gridDimensions.height * gridResolution
      ensures forall px, py :: 0 <= px < image.Length0 && 0 <= py < image.Length1 ==>
        image[px, py] == RenderPixel(cells, gridResolution, px, py)
    {
      BuildCatalog();
      SolveAndRender();
    }

    /** `grid = initialiseGrid(...)` to `image = gridToImage()` over a catalog of R x R tiles. */
    method SolveAndRender()
      requires gridResolution > 0 && Sized(uniqueBlobs, gridResolution)
      modifies this`grid, this`cells, this`Repr, this`image
      ensures GridValid()
      ensures NoneOpen(cells)
      ensures |uniqueBlobs| <= MaxInt ==> Settled(cells)
      ensures uniqueBlobs != [] && |uniqueBlobs| <= MaxInt ==> Single(cells)
      ensures image.Length0 == gridDimensions.width * gridResolution
      ensures image.Length1 == gridDimensions.height * gridResolution
      ensures forall px, py :: 0 <= px < image.Length0 && 0 <= py < image.Length1 ==>
        image[px, py] == RenderPixel(cells, gridResolution, px, py)
    {
      Solve();
      Render();
    }

    /** `findPatterns(baseImage)` on an empty catalog: the catalog is exactly what the passes record. */
    method BuildCatalog()
      requires gridResolution > 0 && RotationsOf(baseImage, rotations)
      requires uniqueBlobs == [] && patterns == map[]
      modifies this`uniqueBlobs, this`patterns
      ensures CatalogValid()
      ensures ViewOf(uniqueBlobs, patterns) == CatalogView(baseImage, rotations, gridResolution)
    {
      EmptyCatalog();
      FindPatterns(baseImage, rotations);
      JoinNoView(CatalogView(baseImage, rotations, gridResolution));
    }

    /**
      The initialiser from `grid = initialiseGrid(gridDimensions)` on: the
      random start cell in 0..width x 0..height and collapseAllStartingAt.
    */
    method Solve()
      requires gridResolution > 0 && Sized(uniqueBlobs, gridResolution)
      modifies this`grid, this`cells, this`Repr
      ensures GridValid() && NoneOpen(cells) && Drawable(cells, gridResolution)
      ensures |uniqueBlobs| <= MaxInt ==> Settled(cells)
      ensures uniqueBlobs != [] && |uniqueBlobs| <= MaxInt ==> Single(cells)
    {
      var columns, objs := InitialiseGrid(gridDimensions);
      grid := columns;
      cells := Full(gridDimensions, uniqueBlobs);
      Repr := objs;
      FullValid(gridDimensions, uniqueBlobs);
      var rx :| 0 <= rx <= gridDimensions.width;
      var ry :| 0 <= ry <= gridDimensions.height;
      CollapseAllStartingAt(rx, ry);
      WithinDrawable(cells, uniqueBlobs, gridResolution);
    }

    /** `image = gridToImage()`, the last step of the initialiser. */
    method Render()
      requires GridValid() && gridResolution > 0 && Drawable(cells, gridResolution)
      modifies this`image
      ensures GridValid()
      ensures image.Length0 == gridDimensions.width * gridResolution
      ensures image.Length1 == gridDimensions.height * gridResolution
      ensures forall px, py :: 0 <= px < image.Length0 && 0 <= py < image.Length1 ==>
        image[px, py] == RenderPixel(cells, gridResolution, px, py)
    {
      image := GridToImage();
    }

    /** uniqueBlobs holds R x R tiles, none twice. */
    ghost predicate CatalogValid()
      reads this`uniqueBlobs
    {
      gridResolution > 0 && Distinct(uniqueBlobs) && Sized(uniqueBlobs, gridResolution)
    }

    /**
      The grid has (width + 1) x (height + 1) distinct cells, `cells` mirrors
      their lists, and every candidate is a catalog tile, no cell holding more
      candidates than the catalog has.
    */
    ghost predicate GridValid()
      reads this`cells, this`grid, this`uniqueBlobs, this`Repr, Repr
    {
      Shaped(cells, gridDimensions) &&
      |grid| == |cells| &&
      (forall x :: 0 <= x < |grid| ==> |grid[x]| == |cells[x]|) &&
      (forall x, y :: 0 <= x < |grid| && 0 <= y < |grid[x]| ==>
        grid[x][y] in Repr && grid[x][y].positions == cells[x][y]) &&
      Injective(grid) &&
      Within(cells, uniqueBlobs) && Bounded(cells, |uniqueBlobs|)
    }

    /**
      getBlobFromGriddedImage: None outside the image's tile grid, otherwise
      the R x R block at (gx * R, gy * R) in row-major order, appended to
      uniqueBlobs when no equal tile is there yet.
    */
    method GetBlobFromGriddedImage(img: Image, gx: int, gy: int) returns (b: Option<Tile>)
      requires CatalogValid() && WellFormed(img)
      modifies this`uniqueBlobs
      ensures CatalogValid()
      ensures b == BlockAtOpt(img, gridResolution, gx, gy)
      ensures uniqueBlobs == Absorb(old(uniqueBlobs), b) && old(uniqueBlobs) <= uniqueBlobs
      ensures patterns == old(patterns)
      ensures (set t | t in uniqueBlobs) == (set t | t in old(uniqueBlobs)) + OptSet(b)
    {
      var gridWidth := img.width / gridResolution;
      var gridHeight := img.height / gridResolution;
      TileInRangeDiv(img, gridResolution, gx, gy);
      if gx < 0 || gy < 0 || gx >= gridWidth || gy >= gridHeight {
        b := None;
        AbsorbKeeps(uniqueBlobs, b);
        return;
      }
      var blob := Block(img, gridResolution, gx, gy);
      // The stored tile equal to blob is blob itself: tiles compare by value.
      if blob !in uniqueBlobs {
        uniqueBlobs := uniqueBlobs + [blob];
      }
      b := Some(blob);
      AbsorbKeeps(old(uniqueBlobs), b);
    }

    /**
      addBlobPatterns: a visit of (x, y) adds exactly CellView's tiles,
      pattern key and edges to the catalog, and takes nothing away.
    */
    method AddBlobPatterns(img: Image, x: int, y: int)
      requires CatalogValid() && WellFormed(img)
      modifies this`uniqueBlobs, this`patterns
      ensures CatalogValid()
      ensures old(uniqueBlobs) <= uniqueBlobs
      ensures ViewOf(uniqueBlobs, patterns) ==
        Join(old(ViewOf(uniqueBlobs, patterns)), CellView(img, gridResolution, x, y))
      ensures forall t, d :: t in old(patterns) ==> t in patterns && Side(old(patterns)[t], d) <= Side(patterns[t], d)
    {
      ghost var before := set t | t in uniqueBlobs;
      var blob := GetBlobFromGriddedImage(img, x, y);
      if blob.None? {
        JoinNoView(ViewOf(uniqueBlobs, patterns));
        return;
      }
      var c := blob.value;
      ghost var u1 := uniqueBlobs;
      var blobNorth := GetBlobFromGriddedImage(img, x, y - 1);
      ghost var u2 := uniqueBlobs;
      var blobEast := GetBlobFromGriddedImage(img, x + 1, y);
      ghost var u3 := uniqueBlobs;
      var blobSouth := GetBlobFromGriddedImage(img, x, y + 1);
      ghost var u4 := uniqueBlobs;
      var blobWest := GetBlobFromGriddedImage(img, x - 1, y);
      PrefixTrans(old(uniqueBlobs), u1, u2, u3, u4, uniqueBlobs);
      assert (set t | t in uniqueBlobs) ==
        before + {c} + OptSet(blobNorth) + OptSet(blobEast) + OptSet(blobSouth) + OptSet(blobWest);

      var bp: BlobPattern;
      if c in patterns {
        bp := patterns[c];
      } else {
        bp := EmptyPattern;
      }
      patterns := patterns[c := BlobPattern(bp.north + OptSet(blobNorth), bp.east + OptSet(blobEast),
                                            bp.south + OptSet(blobSouth), bp.west + OptSet(blobWest))];
      assert patterns == Record(old(patterns), c, blobNorth, blobEast, blobSouth, blobWest);
      RecordVisit(old(uniqueBlobs), old(patterns), uniqueBlobs, img, gridResolution, x, y,
                  c, blobNorth, blobEast, blobSouth, blobWest);
      OnlyAdds(old(uniqueBlobs), old(patterns), uniqueBlobs, patterns, CellView(img, gridResolution, x, y));
    }

    /** The inner loop of findPatterns: rows 0 until ys of column x. */
    method VisitColumn(img: Image, x: int, ys: nat)
      requires CatalogValid() && WellFormed(img)
      modifies this`uniqueBlobs, this`patterns
      ensures CatalogValid()
      ensures old(uniqueBlobs) <= uniqueBlobs
      ensures ViewOf(uniqueBlobs, patterns) ==
        Join(old(ViewOf(uniqueBlobs, patterns)), ColumnView(img, gridResolution, x, ys))
    {
      ghost var start := ViewOf(uniqueBlobs, patterns);
      JoinNoView(start);
      for y := 0 to ys
        invariant CatalogValid() && old(uniqueBlobs) <= uniqueBlobs
        invariant ViewOf(uniqueBlobs, patterns) == Join(start, ColumnView(img, gridResolution, x, y))
      {
        AddBlobPatterns(img, x, y);
        JoinAssoc(start, ColumnView(img, gridResolution, x, y), CellView(img, gridResolution, x, y));
      }
    }

    /** One pass of findPatterns: columns 0 until xs, each over rows 0 until ys. */
    method VisitGrid(img: Image, xs: nat, ys: nat)
      requires CatalogValid() && WellFormed(img)
      modifies this`uniqueBlobs, this`patterns
      ensures CatalogValid()
      ensures old(uniqueBlobs) <= uniqueBlobs
      ensures ViewOf(uniqueBlobs, patterns) ==
        Join(old(ViewOf(uniqueBlobs, patterns)), GridView(img, gridResolution, xs, ys))
    {
      ghost var start := ViewOf(uniqueBlobs, patterns);
      JoinNoView(start);
      for x := 0 to xs
        invariant CatalogValid() && old(uniqueBlobs) <= uniqueBlobs
        invariant ViewOf(uniqueBlobs, patterns) == Join(start, GridView(img, gridResolution, x, ys))
      {
        VisitColumn(img, x, ys);
        JoinAssoc(start, GridView(img, gridResolution, x, ys), ColumnView(img, gridResolution, x, ys));
      }
    }

    /**
      findPatterns: four passes, over the image itself and its three rotations,
      each visiting x below `image.width / R` and y below `image.height / R` of
      the unrotated image, while every lookup checks the bounds of the rotated
      one. Together they add exactly CatalogView to the catalog.
    */
    method FindPatterns(image: Image, rotated: seq<Image>)
      requires CatalogValid() && RotationsOf(image, rotated)
      modifies this`uniqueBlobs, this`patterns
      ensures CatalogValid()
      ensures old(uniqueBlobs) <= uniqueBlobs
      ensures ViewOf(uniqueBlobs, patterns) ==
        Join(old(ViewOf(uniqueBlobs, patterns)), CatalogView(image, rotated, gridResolution))
    {
      var r := gridResolution;
      ghost var start := ViewOf(uniqueBlobs, patterns);
      ghost var passes := [image] + rotated;
      ghost var xs, ys := image.width / r, image.height / r;
      WholeIsDiv(image.width, r);
      WholeIsDiv(image.height, r);
      JoinNoView(start);
      for k := 0 to 4
        invariant CatalogValid() && old(uniqueBlobs) <= uniqueBlobs
        invariant ViewOf(uniqueBlobs, patterns) == Join(start, PassesView(passes[..k], r, xs, ys))
      {
        var rot := if k == 0 then image else rotated[k - 1];
        assert rot == passes[k];
        var gridWidth := image.width / r;
        var gridHeight := image.height / r;
        VisitGrid(rot, gridWidth, gridHeight);
        PassStep(start, passes, k, r, xs, ys);
      }
      assert passes[..4] == passes;
    }

    /**
      initialiseGrid: (width + 1) x (height + 1) new cells, column by column,
      each holding its own copy of uniqueBlobs.
    */
    method InitialiseGrid(dim: Dimension) returns (columns: seq<seq<Superposition>>, ghost objs: set<Superposition>)
      ensures |columns| == dim.width + 1
      ensures forall x :: 0 <= x < |columns| ==> |columns[x]| == dim.height + 1
      ensures forall x, y :: 0 <= x < |columns| && 0 <= y < |columns[x]| ==>
        columns[x][y] in objs && columns[x][y].positions == uniqueBlobs
      ensures Injective(columns) && fresh(objs)
    {
      columns := [];
      objs := {};
      for x := 0 to dim.width + 1
        invariant |columns| == x
        invariant forall i :: 0 <= i < x ==> |columns[i]| == dim.height + 1
        invariant forall i, j :: 0 <= i < x && 0 <= j < |columns[i]| ==>
          columns[i][j] in objs && columns[i][j].positions == uniqueBlobs
        invariant Injective(columns) && fresh(objs)
      {
        var row: seq<Superposition> := [];
        ghost var rowObjs: set<Superposition> := {};
        for y := 0 to dim.height + 1
          invariant |row| == y
          invariant forall j :: 0 <= j < y ==> row[j] in rowObjs && row[j] !in objs && row[j].positions == uniqueBlobs
          invariant forall j, j' :: 0 <= j < j' < y ==> row[j] != row[j']
          invariant forall i, j :: 0 <= i < x && 0 <= j < |columns[i]| ==> columns[i][j].positions == uniqueBlobs
          invariant fresh(rowObjs) && rowObjs !! objs
        {
          var positions := uniqueBlobs;
          var superposition := new Superposition(positions);
          row := row + [superposition];
          rowObjs := rowObjs + {superposition};
        }
        columns := columns + [row];
        objs := objs + rowObjs;
      }
    }

    /** getSuperposition: the cell object at (x, y), or None off the grid (bounds inclusive). */
    function GetSuperposition(x: int, y: int): (s: Option<Superposition>)
      requires GridValid()
      reads this`grid, this`cells, this`uniqueBlobs, this`Repr, Repr
      ensures s.Some? <==> InGrid(gridDimensions, x, y)
      ensures s.Some? ==> s.value in Repr && s.value.positions == cells[x][y]
    {
      if x < 0 || y < 0 || x > gridDimensions.width || y > gridDimensions.height then None
      else Some(grid[x][y])
    }

    /** makeUncollapsedNeighboursDirty: the neighbours of p on the grid with more than one candidate. */
    method UncollapsedNeighbours(p: Coord) returns (ns: set<Coord>)
      requires GridValid()
      ensures ns == Uncollapsed(cells, gridDimensions, p)
    {
      var around := Neighbours(p);
      ns := {};
      for i := 0 to 4
        invariant ns == set q | q in around[..i] && Lookup(cells, gridDimensions, q.0, q.1).Some? &&
                                |Lookup(cells, gridDimensions, q.0, q.1).value| > 1
      {
        var q := around[i];
        assert around[..i + 1] == around[..i] + [q];
        var superposition := GetSuperposition(q.0, q.1);
        if superposition.Some? && |superposition.value.positions| > 1 {
          ns := ns + {q};
        }
      }
      assert around[..4] == around;
    }

    /**
      findLowestEntropyCoordinate: None exactly when no cell is open;
      otherwise an open cell with the fewest candidates, any of the tied ones.
    */
    method FindLowestEntropyCoordinate() returns (p: Option<Coord>)
      requires GridValid()
      ensures p.None? <==> NoneOpen(cells)
      ensures p.Some? ==> InGrid(gridDimensions, p.value.0, p.value.1) && Open(|cells[p.value.0][p.value.1]|)
      ensures p.Some? ==> forall x, y :: 0 <= x < |cells| && 0 <= y < |cells[x]| && Open(|cells[x][y]|) ==>
        |cells[p.value.0][p.value.1]| <= |cells[x][y]|
    {
      var minEntropy := MaxInt;
      var candidates: seq<Coord> := [];
      for x := 0 to gridDimensions.width + 1
        invariant minEntropy <= MaxInt
        invariant forall c :: c in candidates ==>
          InGrid(gridDimensions, c.0, c.1) && Open(|cells[c.0][c.1]|) && |cells[c.0][c.1]| == minEntropy
        invariant forall x', y' :: 0 <= x' < x && 0 <= y' < |cells[x']| && Open(|cells[x'][y']|) ==>
          minEntropy <= |cells[x'][y']|
        invariant candidates == [] ==>
          (minEntropy == MaxInt && forall x', y' :: 0 <= x' < x && 0 <= y' < |cells[x']| ==> !Open(|cells[x'][y']|))
      {
        for y := 0 to gridDimensions.height + 1
          invariant minEntropy <= MaxInt
          invariant forall c :: c in candidates ==>
            InGrid(gridDimensions, c.0, c.1) && Open(|cells[c.0][c.1]|) && |cells[c.0][c.1]| == minEntropy
          invariant forall x', y' :: (0 <= x' < x && 0 <= y' < |cells[x']|) || (x' == x && 0 <= y' < y) ==>
            Open(|cells[x'][y']|) ==> minEntropy <= |cells[x'][y']|
          invariant candidates == [] ==>
            (minEntropy == MaxInt &&
             forall x', y' :: (0 <= x' < x && 0 <= y' < |cells[x']|) || (x' == x && 0 <= y' < y) ==>
               !Open(|cells[x'][y']|))
        {
          var size := |grid[x][y].positions|;
          if size > 1 {
            if size < minEntropy {
              minEntropy := size;
              candidates := [(x, y)];
            } else if size == minEntropy {
              candidates := candidates + [(x, y)];
            }
          }
        }
      }
      if candidates != [] {
        var k :| 0 <= k < |candidates|;
        assert candidates[k] in candidates;
        p := Some(candidates[k]);
      } else {
        p := None;
      }
    }

    /**
      prunePositions: nothing happens off the grid or on a cell with at most
      one candidate. Otherwise the candidates that have a pattern and fail one
      of the four neighbour checks are removed; the answer says whether any
      was; a cell left empty gets one tile of uniqueBlobs (none if there is
      none). `forceRandomCollapse` is not used by the Kotlin code.
    */
    method PrunePositions(x: int, y: int, forceRandomCollapse: bool) returns (changed: bool)
      requires GridValid()
      modifies this`cells, Repr
      ensures GridValid()
      ensures !InGrid(gridDimensions, x, y) || |old(cells)[x][y]| <= 1 ==> !changed
      ensures !changed ==> cells == old(cells)
      ensures InGrid(gridDimensions, x, y) && |old(cells)[x][y]| > 1 ==>
        (changed <==> FailingAt(old(cells), gridDimensions, patterns, x, y) != {})
      ensures changed ==>
        cells == old(cells)[x := old(cells)[x][y := cells[x][y]]] &&
        PruneOutcome(old(cells)[x][y], FailingAt(old(cells), gridDimensions, patterns, x, y), uniqueBlobs, cells[x][y]) &&
        Total(cells) < Total(old(cells))
      ensures uniqueBlobs != [] && NonEmpty(old(cells)) ==> NonEmpty(cells)
    {
      var blob := GetSuperposition(x, y);
      if blob.None? {
        return false;
      }
      var superposition := blob.value;
      if superposition.Collapsed() || |superposition.positions| <= 1 {
        return false;
      }

      var blobNorth := GetSuperposition(x, y - 1);
      var blobEast := GetSuperposition(x + 1, y);
      var blobSouth := GetSuperposition(x, y + 1);
      var blobWest := GetSuperposition(x - 1, y);
      var toRemove := FailingPositions(superposition.positions, patterns,
                                       ListOf(blobNorth), ListOf(blobEast), ListOf(blobSouth), ListOf(blobWest));
      assert ListOf(blobNorth) == Beside(cells, gridDimensions, x, y, North);
      assert ListOf(blobEast) == Beside(cells, gridDimensions, x, y, East);
      assert ListOf(blobSouth) == Beside(cells, gridDimensions, x, y, South);
      assert ListOf(blobWest) == Beside(cells, gridDimensions, x, y, West);
      assert toRemove == FailingAt(cells, gridDimensions, patterns, x, y);

      if toRemove == {} {
        return false;
      }

      RemoveAndRecover(x, y, toRemove);
      return true;
    }

    /**
      The end of prunePositions: remove `toRemove` from cell (x, y), and if
      that empties it, put back one tile of the shuffled uniqueBlobs (none if
      the catalog is empty). Only that cell's object changes.
    */
    method RemoveAndRecover(x: int, y: int, toRemove: set<Tile>)
      requires GridValid() && InGrid(gridDimensions, x, y) && |cells[x][y]| > 1
      requires toRemove != {} && forall t :: t in toRemove ==> t in cells[x][y]
      modifies this`cells, grid[x][y]
      ensures GridValid()
      ensures cells == old(cells)[x := old(cells)[x][y := cells[x][y]]]
      ensures PruneOutcome(old(cells)[x][y], toRemove, uniqueBlobs, cells[x][y])
      ensures Total(cells) < Total(old(cells))
      ensures uniqueBlobs != [] && NonEmpty(old(cells)) ==> NonEmpty(cells)
    {
      var superposition := grid[x][y];
      var pick := PickFallback();
      superposition.RemoveOrRecover(toRemove, pick);
      RecoverOutcome(old(cells)[x][y], toRemove, uniqueBlobs, pick);
      PruneStep(cells, gridDimensions, uniqueBlobs, x, y, toRemove, superposition.positions);
      cells := cells[x := cells[x][y := superposition.positions]];
      forall x', y' | 0 <= x' < |grid| && 0 <= y' < |grid[x']|
        ensures grid[x'][y'].positions == cells[x'][y']
      {
        if x' != x || y' != y {
          assert grid[x'][y'] != superposition;
          UpdateElsewhere(old(cells), x, y, superposition.positions, x', y');
        }
      }
    }

    /**
      The tile a contradiction falls back to, `uniqueBlobs.shuffled().take(1)`:
      one tile of the catalog, or none when the catalog is empty.
    */
    method PickFallback() returns (pick: seq<Tile>)
      ensures uniqueBlobs == [] ==> pick == []
      ensures uniqueBlobs != [] ==> |pick| == 1 && pick[0] in uniqueBlobs
    {
      pick := [];
      if uniqueBlobs != [] {
        var k :| 0 <= k < |uniqueBlobs|;
        pick := [uniqueBlobs[k]];
      }
    }

    /**
      `grid[x][y].collapseRandom()`: cell (x, y) keeps one of its own
      candidates. Only that cell's object changes.
    */
    method CollapseCell(x: int, y: int)
      requires GridValid() && InGrid(gridDimensions, x, y) && |cells[x][y]| >= 1
      modifies this`cells, grid[x][y]
      ensures GridValid()
      ensures cells == old(cells)[x := old(cells)[x][y := cells[x][y]]]
      ensures |cells[x][y]| == 1 && cells[x][y][0] in old(cells)[x][y]
      ensures Total(cells) <= Total(old(cells))
      ensures |old(cells)[x][y]| > 1 ==> Total(cells) < Total(old(cells))
      ensures NonEmpty(old(cells)) ==> NonEmpty(cells)
    {
      var superposition := grid[x][y];
      superposition.CollapseRandom();
      forall x', y' | 0 <= x' < |grid| && 0 <= y' < |grid[x']| && (x' != x || y' != y)
        ensures grid[x'][y'].positions == old(cells)[x'][y']
      {
        assert grid[x'][y'] != superposition;
      }
      ghost var t := superposition.positions[0];
      assert superposition.positions == [t];
      CollapseStep(cells, gridDimensions, uniqueBlobs, x, y, t);
      cells := cells[x := cells[x][y := [t]]];
    }

    /**
      collapseAndPropagate: an empty cell (x, y) is left alone. Otherwise the
      cell collapses to one of its candidates and its uncollapsed neighbours
      are pruned, every successful prune marking that cell's uncollapsed
      neighbours dirty in turn, until nothing is dirty. Each successful prune
      lowers the total number of candidates, so the propagation ends.
    */
    method CollapseAndPropagate(x: int, y: int)
      requires GridValid() && InGrid(gridDimensions, x, y)
      modifies this`cells, Repr
      ensures GridValid()
      ensures old(cells)[x][y] == [] ==> cells == old(cells)
      ensures old(cells)[x][y] != [] ==> |cells[x][y]| == 1 && cells[x][y][0] in old(cells)[x][y]
      ensures Total(cells) <= Total(old(cells))
      ensures |old(cells)[x][y]| > 1 ==> Total(cells) < Total(old(cells))
      ensures KeepsSettled(old(cells), cells, x, y)
      ensures uniqueBlobs != [] && NonEmpty(old(cells)) ==> NonEmpty(cells)
    {
      if |grid[x][y].positions| < 1 {
        return;
      }
      CollapseCell(x, y);
      KeepsSettledAt(old(cells), x, y, cells[x][y]);
      ghost var collapsed := cells;
      var dirty := UncollapsedNeighbours((x, y));
      Propagate(x, y, dirty);
      KeepsSettledTrans(old(cells), collapsed, cells, x, y);
    }

    /**
      The loop of collapseAndPropagate after (x, y) has collapsed: prune dirty
      cells until none is left. Cell (x, y) keeps its single tile, no other
      list grows, and lists of at most one tile are never touched.
    */
    method Propagate(x: int, y: int, dirty: set<Coord>)
      requires GridValid() && InGrid(gridDimensions, x, y) && |cells[x][y]| == 1
      modifies this`cells, Repr
      ensures GridValid()
      ensures cells[x][y] == old(cells)[x][y]
      ensures Total(cells) <= Total(old(cells))
      ensures KeepsSettled(old(cells), cells, x, y)
      ensures uniqueBlobs != [] && NonEmpty(old(cells)) ==> NonEmpty(cells)
    {
      var todo := dirty;
      KeepsSettledAt(cells, x, y, cells[x][y]);
      while todo != {}
        invariant GridValid()
        invariant cells[x][y] == old(cells)[x][y]
        invariant Total(cells) <= Total(old(cells))
        invariant KeepsSettled(old(cells), cells, x, y)
        invariant uniqueBlobs != [] && NonEmpty(old(cells)) ==> NonEmpty(cells)
        decreases Total(cells), |todo|
      {
        ghost var before := cells;
        var p, changed;
        p, todo, changed := PropagateStep(todo);
        if changed {
          UpdateElsewhere(before, p.0, p.1, cells[p.0][p.1], x, y);
          KeepsSettledStep(old(cells), before, x, y, p.0, p.1, cells[p.0][p.1]);
        }
      }
    }

    /**
      One round of collapseAndPropagate's loop: take a dirty cell p out of
      the set and prune it; if that changed p, its uncollapsed neighbours
      become dirty. A change touches p alone, which had two or more
      candidates, and lowers the total.
    */
    method PropagateStep(dirty: set<Coord>) returns (p: Coord, next: set<Coord>, changed: bool)
      requires GridValid() && dirty != {}
      modifies this`cells, Repr
      ensures GridValid() && p in dirty
      ensures !changed ==> cells == old(cells) && next == dirty - {p}
      ensures changed ==>
        InGrid(gridDimensions, p.0, p.1) && |old(cells)[p.0][p.1]| > 1 &&
        cells == old(cells)[p.0 := old(cells)[p.0][p.1 := cells[p.0][p.1]]] &&
        PruneOutcome(old(cells)[p.0][p.1], FailingAt(old(cells), gridDimensions, patterns, p.0, p.1),
                     uniqueBlobs, cells[p.0][p.1]) &&
        |cells[p.0][p.1]| < |old(cells)[p.0][p.1]| &&
        Total(cells) < Total(old(cells)) &&
        next == (dirty - {p}) + Uncollapsed(cells, gridDimensions, p)
      ensures uniqueBlobs != [] && NonEmpty(old(cells)) ==> NonEmpty(cells)
    {
      ghost var before := cells;
      p :| p in dirty;
      next := dirty - {p};
      changed := PrunePositions(p.0, p.1, false);
      if changed {
        TotalUpdate(before, p.0, p.1, cells[p.0][p.1]);
        var more := UncollapsedNeighbours(p);
        next := next + more;
      }
    }

    /**
      collapseAllStartingAt: collapse (x, y), then keep collapsing a cell of
      lowest entropy until findLowestEntropyCoordinate finds none. Every round
      lowers the total number of candidates, so the loop ends. With a
      catalog smaller than the sentinel every cell is then settled, and
      starting from a grid without empty cells and a non-empty catalog
      every cell ends with exactly one tile.
    */
    method CollapseAllStartingAt(x: int, y: int)
      requires GridValid() && InGrid(gridDimensions, x, y)
      modifies this`cells, Repr
      ensures GridValid() && NoneOpen(cells)
      ensures |uniqueBlobs| <= MaxInt ==> Settled(cells)
      ensures uniqueBlobs != [] && |uniqueBlobs| <= MaxInt && NonEmpty(old(cells)) ==> Single(cells)
    {
      CollapseAndPropagate(x, y);
      while true
        invariant GridValid()
        invariant uniqueBlobs != [] && NonEmpty(old(cells)) ==> NonEmpty(cells)
        decreases Total(cells)
      {
        var p := FindLowestEntropyCoordinate();
        if p.None? {
          break;
        }
        CollapseAndPropagate(p.value.0, p.value.1);
      }
      if |uniqueBlobs| <= MaxInt {
        NoneOpenSettled(cells, |uniqueBlobs|);
        if uniqueBlobs != [] && NonEmpty(old(cells)) {
          SettledSingle(cells);
        }
      }
    }

    /** One column of gridToImage's loop: every cell of column x is drawn, from the top. */
    method DrawColumn(output: array2<int>, x: int)
      requires GridValid() && gridResolution > 0 && Drawable(cells, gridResolution)
      requires 0 <= x <= gridDimensions.width
      requires output.Length0 == gridDimensions.width * gridResolution
      requires output.Length1 == gridDimensions.height * gridResolution
      requires forall px, py :: 0 <= px < output.Length0 && 0 <= py < output.Length1 ==>
        output[px, py] == Canvas(cells, gridResolution, x, 0, px, py)
      modifies output
      ensures forall px, py :: 0 <= px < output.Length0 && 0 <= py < output.Length1 ==>
        output[px, py] == Canvas(cells, gridResolution, x + 1, 0, px, py)
    {
      var r := gridResolution;
      for y := 0 to gridDimensions.height + 1
        invariant forall px, py :: 0 <= px < output.Length0 && 0 <= py < output.Length1 ==>
          output[px, py] == Canvas(cells, r, x, y, px, py)
      {
        var superposition := GetSuperposition(x, y);
        if superposition.None? {
          continue;
        }
        if superposition.value.positions != [] {
          var blob := superposition.value.positions[0];
          DrawTile(output, blob, r, x * r, y * r);
        }
        forall px, py | 0 <= px < output.Length0 && 0 <= py < output.Length1
          ensures output[px, py] == Canvas(cells, r, x, y + 1, px, py)
        {
          CanvasStep(cells, r, x, y, px, py);
        }
      }
      forall px, py | 0 <= px < output.Length0 && 0 <= py < output.Length1
        ensures output[px, py] == Canvas(cells, r, x + 1, 0, px, py)
      {
        WholeBelow(py, r, gridDimensions.height);
      }
    }

    /**
      gridToImage: a (width * R) x (height * R) raster, blank at first, on
      which every cell with a candidate draws its first candidate at
      (x * R, y * R); the cells of the extra last column and row fall
      outside and are clipped. Each pixel ends as RenderPixel says.
    */
    method GridToImage() returns (output: array2<int>)
      requires GridValid() && gridResolution > 0 && Drawable(cells, gridResolution)
      ensures fresh(output)
      ensures output.Length0 == gridDimensions.width * gridResolution
      ensures output.Length1 == gridDimensions.height * gridResolution
      ensures forall px, py :: 0 <= px < output.Length0 && 0 <= py < output.Length1 ==>
        output[px, py] == RenderPixel(cells, gridResolution, px, py)
    {
      var r := gridResolution;
      var outputWidth := gridDimensions.width * r;
      var outputHeight := gridDimensions.height * r;
      output := new int[outputWidth, outputHeight]((_, _) => 0);
      for x := 0 to gridDimensions.width + 1
        invariant forall px, py :: 0 <= px < outputWidth && 0 <= py < outputHeight ==>
          output[px, py] == Canvas(cells, r, x, 0, px, py)
      {
        DrawColumn(output, x);
      }
      forall px, py | 0 <= px < outputWidth && 0 <= py < outputHeight
        ensures output[px, py] == RenderPixel(cells, r, px, py)
      {
        WholeBelow(px, r, gridDimensions.width);
      }
    }
  }
}
