/**
 * Row-major bookkeeping between a (height, width) grid and a flat sequence of
 * height * width entries: cell (r, c) lives at flat index r * width + c, and
 * flat index i belongs to cell (i / width, i % width). numpy's C-order
 * `reshape` and boolean indexing of a 2-D array both follow this order.
 */
module RowMajor {

  /** A height x width grid stored as a sequence of rows. */
  predicate IsGrid<T>(g: seq<seq<T>>, height: nat, width: nat)
  {
    |g| == height && forall r :: 0 <= r < height ==> |g[r]| == width
  }

  lemma {:induction false} MulStep(d: nat, w: nat)
    ensures d * w >= 0
    ensures d >= 1 ==> d * w >= w
  {
    if d >= 1 {
      MulStep(d - 1, w);
      assert d * w == (d - 1) * w + w;
    }
  }

  lemma MulMono(a: int, b: int, w: nat)
    ensures a <= b ==> a * w <= b * w
    ensures a < b ==> a * w + w <= b * w
  {
    if a <= b {
      MulStep(b - a, w);
      assert b * w == a * w + (b - a) * w;
    }
  }

  /** Quotient and remainder are determined by any decomposition n == q * w + rem with 0 <= rem < w. */
  lemma DivModUnique(n: int, w: nat, q: int, rem: int)
    requires 0 <= rem < w
    requires n == q * w + rem
    ensures n / w == q && n % w == rem
  {
    MulMono(n / w, q, w);
    MulMono(q, n / w, w);
  }

  /** Cell (r, c) has a flat index inside the buffer, and that index maps back to (r, c). */
  lemma CellToIndex(r: nat, c: nat, height: nat, width: nat)
    requires r < height && c < width
    ensures r * width + c < height * width
    ensures (r * width + c) / width == r && (r * width + c) % width == c
  {
    MulMono(r, height, width);
    DivModUnique(r * width + c, width, r, c);
  }

  /** Flat index i names a cell of the grid, and that cell's flat index is i again. */
  lemma IndexToCell(i: nat, height: nat, width: nat)
    requires i < height * width
    ensures width > 0
    ensures i / width < height && i % width < width
    ensures (i / width) * width + i % width == i
  {
    assert height * 0 == 0;
    MulMono(height, i / width, width);
  }

  /** The cell of flat index i, as a pair of plain numbers. */
  lemma CellOf(i: nat, height: nat, width: nat) returns (r: nat, c: nat)
    requires i < height * width
    ensures r < height && c < width && r * width + c == i
    ensures r == i / width && c == i % width
  {
    IndexToCell(i, height, width);
    r, c := i / width, i % width;
  }

  /** numpy's `reshape(-1)` of a 2-D array: the rows laid end to end. */
  function Flatten<T>(g: seq<seq<T>>, height: nat, width: nat): (flat: seq<T>)
    requires IsGrid(g, height, width)
    ensures |flat| == height * width
  {
    seq(height * width, i requires 0 <= i < height * width =>
      IndexToCell(i, height, width); g[i / width][i % width])
  }

  /** numpy's `reshape((height, width))` of a flat buffer of height * width entries. */
  function Reshape<T>(flat: seq<T>, height: nat, width: nat): (g: seq<seq<T>>)
    requires |flat| == height * width
    ensures IsGrid(g, height, width)
  {
    seq(height, r requires 0 <= r < height =>
      seq(width, c requires 0 <= c < width =>
        CellToIndex(r, c, height, width); flat[r * width + c]))
  }

  lemma FlattenAt<T>(g: seq<seq<T>>, height: nat, width: nat, r: nat, c: nat)
    requires IsGrid(g, height, width)
    requires r < height && c < width
    ensures r * width + c < height * width
    ensures Flatten(g, height, width)[r * width + c] == g[r][c]
  {
    CellToIndex(r, c, height, width);
  }

  lemma ReshapeAt<T>(flat: seq<T>, height: nat, width: nat, i: nat)
    requires |flat| == height * width
    requires i < height * width
    ensures i / width < height && i % width < width
    ensures Reshape(flat, height, width)[i / width][i % width] == flat[i]
  {
    IndexToCell(i, height, width);
  }

  /** Reshaping undoes flattening: every cell comes back to where it was. */
  lemma ReshapeFlatten<T>(g: seq<seq<T>>, height: nat, width: nat)
    requires IsGrid(g, height, width)
    ensures Reshape(Flatten(g, height, width), height, width) == g
  {
    var back := Reshape(Flatten(g, height, width), height, width);
    forall r | 0 <= r < height
      ensures back[r] == g[r]
    {
      forall c | 0 <= c < width
        ensures back[r][c] == g[r][c]
      {
        CellToIndex(r, c, height, width);
        ReshapeAt(Flatten(g, height, width), height, width, r * width + c);
      }
    }
  }

  /** Flattening undoes reshaping: every flat entry comes back to its index. */
  lemma FlattenReshape<T>(flat: seq<T>, height: nat, width: nat)
    requires |flat| == height * width
    ensures Flatten(Reshape(flat, height, width), height, width) == flat
  {
    var back := Flatten(Reshape(flat, height, width), height, width);
    forall i | 0 <= i < height * width
      ensures back[i] == flat[i]
    {
      ReshapeAt(flat, height, width, i);
    }
  }
}
