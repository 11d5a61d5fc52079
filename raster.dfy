/** Raster values shared by the image operations: 8-bit channels, 32-bit
    labels, three-channel pixels and matrices stored row by row. */
module Raster {

  /** One channel of a CV_8U matrix. */
  newtype byte = x: int | 0 <= x < 0x100

  /** One cell of a CV_32S matrix (connected-component ids, watershed markers). */
  newtype int32 = x: int | -0x8000_0000 <= x < 0x8000_0000

  const Int32Max: int32 := 0x7fff_ffff

  datatype Option<T> = None | Some(value: T)

  /** One CV_8UC3 pixel; OpenCV stores the channels in blue, green, red order. */
  datatype Pixel = Pixel(blue: byte, green: byte, red: byte)

  /** Channel ch of a pixel: 0 blue, 1 green, 2 red. */
  function Channel(p: Pixel, ch: nat): byte
    requires ch < 3
  {
    if ch == 0 then p.blue else if ch == 1 then p.green else p.red
  }

  /** A matrix with no cells (no rows, or rows of length 0): OpenCV's Mat::empty(). */
  predicate Empty<T>(g: Grid<T>) {
    forall r :: 0 <= r < |g| ==> |g[r]| == 0
  }

  const Black := Pixel(0, 0, 0)
  const White := Pixel(255, 255, 255)

  /** The region labels in a sequence of markers: the values above 1
      (1 is background, 0 unknown, -1 a watershed boundary). */
  function RegionLabels(s: seq<int32>): set<int32> {
    set x | x in s && x > 1
  }

  /** A matrix as its sequence of rows. */
  type Grid<T> = seq<seq<T>>

  /** a and b have the same number of rows and each row the same length. */
  predicate SameShape<T, U>(a: Grid<T>, b: Grid<U>) {
    |a| == |b| && forall r :: 0 <= r < |a| ==> |a[r]| == |b[r]|
  }

  /** g is a rows x cols matrix. */
  predicate IsRect<T>(g: Grid<T>, rows: nat, cols: nat) {
    |g| == rows && forall r :: 0 <= r < rows ==> |g[r]| == cols
  }

  /** The cells of g in row-major order, the order of a row loop around a column loop. */
  function Flatten<T>(g: Grid<T>): seq<T> {
    if g == [] then [] else Flatten(g[..|g| - 1]) + g[|g| - 1]
  }

  /** A rows x cols matrix has rows * cols cells. */
  lemma {:induction false} FlattenSize<T>(g: Grid<T>, rows: nat, cols: nat)
    requires IsRect(g, rows, cols)
    ensures |Flatten(g)| == rows * cols
  {
    if rows > 0 {
      FlattenSize(g[..rows - 1], rows - 1, cols);
      assert (rows - 1) * cols + cols == rows * cols;
    }
  }

  /** The cells of the first n rows come first in row-major order. */
  lemma {:induction false} FlattenTake<T>(g: Grid<T>, n: nat)
    requires n <= |g|
    ensures Flatten(g[..n]) <= Flatten(g)
  {
    if n < |g| {
      var init := g[..|g| - 1];
      FlattenTake(init, n);
      assert init[..n] == g[..n];
      var a, b, c := Flatten(g[..n]), Flatten(init), Flatten(g);
      assert c[..|b|][..|a|] == c[..|a|];
    } else {
      assert g[..n] == g;
    }
  }

  /** Row-major order visits rows 0 .. r-1, then cells 0 .. c-1 of row r. */
  lemma FlattenPrefix<T>(g: Grid<T>, r: nat, c: nat)
    requires r < |g| && c <= |g[r]|
    ensures Flatten(g[..r]) + g[r][..c] <= Flatten(g)
  {
    FlattenTake(g, r + 1);
    assert g[..r + 1][..r] == g[..r];
    var a, b := Flatten(g[..r]) + g[r][..c], Flatten(g[..r + 1]);
    assert b == Flatten(g[..r]) + g[r];
    assert a <= b;
  }

  /** Cell (r, c) sits at position |Flatten(g[..r])| + c of the row-major sequence. */
  lemma FlattenAt<T>(g: Grid<T>, r: nat, c: nat)
    requires r < |g| && c < |g[r]|
    ensures |Flatten(g[..r])| + c < |Flatten(g)|
    ensures Flatten(g)[|Flatten(g[..r])| + c] == g[r][c]
  {
    FlattenPrefix(g, r, c + 1);
    var p := Flatten(g[..r]) + g[r][..c + 1];
    assert p[|Flatten(g[..r])| + c] == g[r][c];
  }

  /** Rows 0 .. r of a matrix cover the cells of rows 0 .. r-1 and then row r. */
  lemma FlattenNextRow<T>(g: Grid<T>, r: nat)
    requires r < |g|
    ensures Flatten(g[..r + 1]) == Flatten(g[..r]) + g[r]
  {
    assert g[..r + 1][..r] == g[..r];
  }

  /** Row r of g occupies |g[r]| consecutive positions of the row-major
      sequence, starting after the cells of rows 0 .. r-1. */
  lemma FlattenRow<T>(g: Grid<T>, r: nat)
    requires r < |g|
    ensures |Flatten(g[..r + 1])| == |Flatten(g[..r])| + |g[r]| <= |Flatten(g)|
    ensures forall c :: 0 <= c < |g[r]| ==> Flatten(g)[|Flatten(g[..r])| + c] == g[r][c]
  {
    FlattenNextRow(g, r);
    FlattenTake(g, r + 1);
    forall c | 0 <= c < |g[r]|
      ensures Flatten(g)[|Flatten(g[..r])| + c] == g[r][c]
    {
      FlattenAt(g, r, c);
    }
  }

  /** A value occurs in the row-major sequence exactly when some cell holds it. */
  lemma {:induction false} FlattenMember<T>(g: Grid<T>, x: T)
    ensures x in Flatten(g) <==> exists r, c :: 0 <= r < |g| && 0 <= c < |g[r]| && g[r][c] == x
  {
    if g != [] {
      var n := |g| - 1;
      FlattenMember(g[..n], x);
      if x in Flatten(g) {
        if x in Flatten(g[..n]) {
          var r, c :| 0 <= r < n && 0 <= c < |g[..n][r]| && g[..n][r][c] == x;
          assert g[r][c] == x;
        } else {
          assert x in g[n];
          var c :| 0 <= c < |g[n]| && g[n][c] == x;
          assert g[n][c] == x;
        }
      }
      if exists r, c :: 0 <= r < |g| && 0 <= c < |g[r]| && g[r][c] == x {
        var r, c :| 0 <= r < |g| && 0 <= c < |g[r]| && g[r][c] == x;
        if r < n {
          assert g[..n][r][c] == x;
        } else {
          assert g[n][c] == x;
        }
      }
    }
  }
}
