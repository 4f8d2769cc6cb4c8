/** Two-dimensional grids in row-major order: numpy's `reshape(-1, ...)`
    flattening and its `reshape((height, width))` inverse. */
module Grids {
  import opened Wrappers

  /** A grid is a sequence of rows; row 0 is the top row. */
  type Grid<T> = seq<seq<T>>

  /** `g` has `height` rows of `width` cells each. */
  predicate IsGrid<T>(g: Grid<T>, height: nat, width: nat) {
    |g| == height && forall r :: 0 <= r < |g| ==> |g[r]| == width
  }

  /** Applies `f` to every cell, keeping the shape. */
  function MapGrid<T, U>(g: Grid<T>, f: T -> U): (m: Grid<U>)
    ensures |m| == |g|
    ensures forall r :: 0 <= r < |g| ==> |m[r]| == |g[r]|
    ensures forall r, c :: 0 <= r < |g| && 0 <= c < |g[r]| ==> m[r][c] == f(g[r][c])
  {
    seq(|g|, r requires 0 <= r < |g| => seq(|g[r]|, c requires 0 <= c < |g[r]| => f(g[r][c])))
  }

  /** The cells of `g` row after row, each row left to right. */
  function Flatten<T>(g: Grid<T>): seq<T> {
    if g == [] then [] else g[0] + Flatten(g[1..])
  }

  /** Why a reshape is refused: the value count is not height * width. */
  datatype ReshapeError = SizeMismatch(count: nat, height: nat, width: nat)

  /** Cuts `v` into `height` consecutive rows of `width` values. */
  function Rows<T>(v: seq<T>, height: nat, width: nat): (g: Grid<T>)
    requires |v| == height * width
    ensures IsGrid(g, height, width)
  {
    if height == 0 then []
    else
      assert |v| == width + (height - 1) * width;
      [v[..width]] + Rows(v[width..], height - 1, width)
  }

  /** numpy's `reshape((height, width))`: refused unless `v` holds exactly
      height * width values. */
  function Reshape<T>(v: seq<T>, height: nat, width: nat): (r: Result<Grid<T>, ReshapeError>)
    ensures r.Success? <==> |v| == height * width
    ensures r.Failure? ==> r.error == SizeMismatch(|v|, height, width)
    ensures r.Success? ==> IsGrid(r.value, height, width)
  {
    if |v| == height * width then Success(Rows(v, height, width))
    else Failure(SizeMismatch(|v|, height, width))
  }

  /** Flattening a grid of `height` rows of `width` cells yields height * width cells. */
  lemma {:induction false} FlattenLength<T>(g: Grid<T>, height: nat, width: nat)
    requires IsGrid(g, height, width)
    ensures |Flatten(g)| == height * width
  {
    if g != [] {
      FlattenLength(g[1..], height - 1, width);
      assert height * width == width + (height - 1) * width;
    }
  }

  /** Row-major layout: cell (r, c) is element r * width + c of the flattening. */
  lemma {:induction false} FlattenAt<T>(g: Grid<T>, height: nat, width: nat, r: nat, c: nat)
    requires IsGrid(g, height, width)
    requires r < height && c < width
    ensures r * width + c < |Flatten(g)|
    ensures Flatten(g)[r * width + c] == g[r][c]
  {
    assert Flatten(g) == g[0] + Flatten(g[1..]);
    if r > 0 {
      FlattenAt(g[1..], height - 1, width, r - 1, c);
      assert r * width + c == width + ((r - 1) * width + c);
    }
  }

  /** Reshaping the flattening of a grid gives the grid back. */
  lemma {:induction false} ReshapeFlatten<T>(g: Grid<T>, height: nat, width: nat)
    requires IsGrid(g, height, width)
    ensures Reshape(Flatten(g), height, width) == Success(g)
  {
    FlattenLength(g, height, width);
    RowsFlatten(g, height, width);
  }

  lemma {:induction false} RowsFlatten<T>(g: Grid<T>, height: nat, width: nat)
    requires IsGrid(g, height, width)
    requires |Flatten(g)| == height * width
    ensures Rows(Flatten(g), height, width) == g
  {
    if height > 0 {
      var v := Flatten(g);
      assert v == g[0] + Flatten(g[1..]);
      assert v[..width] == g[0];
      assert v[width..] == Flatten(g[1..]);
      RowsFlatten(g[1..], height - 1, width);
      assert g == [g[0]] + g[1..];
    }
  }

  /** Flattening a successful reshape gives the values back. */
  lemma {:induction false} FlattenReshape<T>(v: seq<T>, height: nat, width: nat)
    requires |v| == height * width
    ensures Reshape(v, height, width).Success?
    ensures Flatten(Reshape(v, height, width).value) == v
  {
    FlattenRows(v, height, width);
  }

  lemma {:induction false} FlattenRows<T>(v: seq<T>, height: nat, width: nat)
    requires |v| == height * width
    ensures Flatten(Rows(v, height, width)) == v
  {
    if height > 0 {
      assert |v| == width + (height - 1) * width;
      var g := Rows(v, height, width);
      assert g[1..] == Rows(v[width..], height - 1, width);
      FlattenRows(v[width..], height - 1, width);
      assert v == v[..width] + v[width..];
    }
  }

  /** A successful reshape puts value r * width + c at row r, column c. */
  lemma ReshapeAt<T>(v: seq<T>, height: nat, width: nat, r: nat, c: nat)
    requires |v| == height * width
    requires r < height && c < width
    ensures Reshape(v, height, width).Success?
    ensures r * width + c < |v|
    ensures Reshape(v, height, width).value[r][c] == v[r * width + c]
  {
    var g := Reshape(v, height, width).value;
    FlattenReshape(v, height, width);
    FlattenAt(g, height, width, r, c);
  }
}
