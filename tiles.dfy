/**
  Pixel blocks ("blobs") cut out of a raster image.

  An image is a read-only raster of ARGB integers; pixel (x, y) is `rows[y][x]`,
  as `BufferedImage.getRGB(x, y)` addresses it. A tile of side R is stored in
  row-major order: entry `j * R + i` is the pixel at column i, row j of the block.
*/
module Tiles {

  /** A blob: the R*R pixels of one block, compared by value (`Blob.equals`). */
  type Tile = seq<int>

  datatype Image = Image(width: nat, height: nat, rows: seq<seq<int>>)

  /** The raster really is width x height. */
  predicate WellFormed(img: Image) {
    |img.rows| == img.height && forall y :: 0 <= y < |img.rows| ==> |img.rows[y]| == img.width
  }

  function Pixel(img: Image, x: int, y: int): int
    requires WellFormed(img)
    requires 0 <= x < img.width && 0 <= y < img.height
  {
    img.rows[y][x]
  }

  /** How many whole R-pixel tiles fit along a side of n pixels, counted tile by tile. */
  function Whole(n: nat, r: nat): nat
    requires r > 0
    decreases n
  {
    if n < r then 0 else 1 + Whole(n - r, r)
  }

  /** Counting whole tiles is integer division: Whole(n, R) is the `n / R` of the Kotlin code. */
  lemma {:induction false} WholeIsDiv(n: nat, r: nat)
    requires r > 0
    ensures Whole(n, r) == n / r
  {
    if n < r {
      DivModUnique(n, r, 0, n);
    } else {
      WholeIsDiv(n - r, r);
      var q, m := (n - r) / r, (n - r) % r;
      DivModUnique(n - r, r, q, m);
      assert n == (q + 1) * r + m;
      DivModUnique(n, r, q + 1, m);
    }
  }

  /** What is left of a side of n pixels after its whole R-pixel tiles. */
  function Rem(n: nat, r: nat): (m: nat)
    requires r > 0
    ensures m < r
    decreases n
  {
    if n < r then n else Rem(n - r, r)
  }

  /** The remainder left after the whole tiles is `n % R`. */
  lemma {:induction false} RemIsMod(n: nat, r: nat)
    requires r > 0
    ensures Rem(n, r) == n % r
  {
    if n < r {
      DivModUnique(n, r, 0, n);
    } else {
      RemIsMod(n - r, r);
      var q, m := (n - r) / r, (n - r) % r;
      DivModUnique(n - r, r, q, m);
      assert n == (q + 1) * r + m;
      DivModUnique(n, r, q + 1, m);
    }
  }

  /** (gx, gy) lies in the image's own tile grid. */
  predicate TileInRange(img: Image, r: nat, gx: int, gy: int)
    requires r > 0
  {
    0 <= gx < Whole(img.width, r) && 0 <= gy < Whole(img.height, r)
  }

  /**
    The bounds test of getBlobFromGriddedImage, `0 <= gx < width / R` and
    `0 <= gy < height / R`, says the same as TileInRange.
  */
  lemma TileInRangeDiv(img: Image, r: nat, gx: int, gy: int)
    requires r > 0
    ensures TileInRange(img, r, gx, gy) <==> 0 <= gx < img.width / r && 0 <= gy < img.height / r
  {
    WholeIsDiv(img.width, r);
    WholeIsDiv(img.height, r);
  }

  /** A whole tile of index g ends inside the side it was counted on. */
  lemma {:induction false} ScaledInside(n: nat, r: nat, g: int)
    requires r > 0 && 0 <= g < Whole(n, r)
    ensures 0 <= g * r && g * r + r <= n
  {
    if g > 0 {
      ScaledInside(n - r, r, g - 1);
      assert g * r == (g - 1) * r + r;
    }
  }

  lemma MulMonotone(a: int, b: int, r: nat)
    requires a <= b
    ensures a * r <= b * r
  {
  }

  /** Column i, row j of a block is index j * r + i. */
  lemma JoinIndex(r: nat, i: int, j: int)
    requires r > 0 && 0 <= i < r && 0 <= j < r
    ensures 0 <= j * r + i < r * r
    ensures (j * r + i) / r == j && (j * r + i) % r == i
  {
    assert j * r + i < (j + 1) * r;
    assert (j + 1) * r <= r * r by { MulMonotone(j + 1, r, r); }
    DivModUnique(j * r + i, r, j, i);
  }

  lemma DivModUnique(n: int, r: nat, q: int, m: int)
    requires r > 0 && 0 <= m < r && n == q * r + m
    ensures n / r == q && n % r == m
  {
    var q', m' := n / r, n % r;
    assert n == q' * r + m' && 0 <= m' < r;
    assert (q - q') * r == m' - m;
    if q > q' {
      MulMonotone(1, q - q', r);
    } else if q < q' {
      MulMonotone(1, q' - q, r);
    }
  }

  /** A pixel before n whole tiles lies in one of them. */
  lemma WholeBelow(p: nat, r: nat, n: int)
    requires r > 0 && p < n * r
    ensures Whole(p, r) < n
  {
    WholeIsDiv(p, r);
    DivModUnique(p, r, p / r, p % r);
    if p / r >= n {
      MulMonotone(n, p / r, r);
    }
  }

  /** Column i, row j of a tile stored in row-major order. */
  function TilePixel(t: Tile, r: nat, i: int, j: int): int
    requires r > 0 && |t| == r * r && 0 <= i < r && 0 <= j < r
  {
    JoinIndex(r, i, j);
    t[j * r + i]
  }

  /** The first `rows` rows of the R-wide block whose top-left pixel is (px, py). */
  function BlockRows(img: Image, r: nat, px: nat, py: nat, rows: nat): (t: seq<int>)
    requires WellFormed(img) && px + r <= img.width && py + rows <= img.height
    ensures |t| == rows * r
  {
    if rows == 0 then []
    else BlockRows(img, r, px, py, rows - 1) + img.rows[py + rows - 1][px .. px + r]
  }

  /**
    The block at tile coordinate (gx, gy), read the way
    `getRGB(gx*R, gy*R, R, R, arr, 0, R)` fills `arr`.
  */
  function Block(img: Image, r: nat, gx: int, gy: int): (t: Tile)
    requires WellFormed(img) && r > 0 && TileInRange(img, r, gx, gy)
    ensures |t| == r * r
  {
    ScaledInside(img.width, r, gx);
    ScaledInside(img.height, r, gy);
    BlockRows(img, r, gx * r, gy * r, r)
  }

  /** Where row-major index j * r + i falls relative to the last of `rows` rows. */
  lemma RowIndex(r: nat, rows: nat, i: int, j: int)
    requires 0 <= i < r && 0 <= j < rows
    ensures 0 <= j * r + i < rows * r
    ensures j < rows - 1 ==> j * r + i < (rows - 1) * r
    ensures j == rows - 1 ==> j * r + i == (rows - 1) * r + i
  {
    MulMonotone(j + 1, rows, r);
    if j < rows - 1 {
      MulMonotone(j + 1, rows - 1, r);
    }
  }

  lemma {:induction false} BlockRowsAt(img: Image, r: nat, px: nat, py: nat, rows: nat, i: int, j: int)
    requires WellFormed(img) && px + r <= img.width && py + rows <= img.height
    requires 0 <= i < r && 0 <= j < rows
    ensures 0 <= j * r + i < rows * r
    ensures BlockRows(img, r, px, py, rows)[j * r + i] == Pixel(img, px + i, py + j)
  {
    RowIndex(r, rows, i, j);
    var prefix := BlockRows(img, r, px, py, rows - 1);
    if j == rows - 1 {
      var row := img.rows[py + j][px .. px + r];
      assert BlockRows(img, r, px, py, rows) == prefix + row;
    } else {
      BlockRowsAt(img, r, px, py, rows - 1, i, j);
    }
  }

  /** Pixel (i, j) of the block at (gx, gy) is image pixel (gx*R + i, gy*R + j). */
  lemma BlockAt(img: Image, r: nat, gx: int, gy: int, i: int, j: int)
    requires WellFormed(img) && r > 0 && TileInRange(img, r, gx, gy)
    requires 0 <= i < r && 0 <= j < r
    ensures 0 <= gx * r + i < img.width && 0 <= gy * r + j < img.height
    ensures TilePixel(Block(img, r, gx, gy), r, i, j) == Pixel(img, gx * r + i, gy * r + j)
  {
    ScaledInside(img.width, r, gx);
    ScaledInside(img.height, r, gy);
    var px: nat, py: nat := gx * r, gy * r;
    BlockRowsAt(img, r, px, py, r, i, j);
    assert Block(img, r, gx, gy) == BlockRows(img, r, px, py, r);
  }
}
