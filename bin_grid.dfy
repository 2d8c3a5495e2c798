/**
 * read_th2: the flattening of the histogram's bin grid into one buffer.
 * Rows (fixed iy) follow each other, and within a row ix increases, so the
 * first axis varies fastest, as in a FITS data array (section 3.3.2 of the
 * FITS Standard 4.0). Both loop bounds are the X bin count, as in
 * th2_to_fits.cc: the buffer is square, Nx rows of Nx values, whatever Ny is.
 */
module BinGrid {
  import opened Histogram
  import Arith

  /** cell(1, iy) .. cell(n, iy), in that order. */
  function Row<T>(cell: (int, int) -> T, iy: int, n: nat): seq<T>
  {
    seq(n, i => cell(i + 1, iy))
  }

  /** Rows 1 .. rows of `cell`, each `width` cells long, one after the other. */
  function Rows<T>(cell: (int, int) -> T, rows: nat, width: nat): seq<T>
  {
    if rows == 0 then [] else Rows(cell, rows - 1, width) + Row(cell, rows, width)
  }

  /** The index pair itself, so that Rows(BinIndex, ..) lists the bins visited. */
  function BinIndex(ix: int, iy: int): (int, int) { (ix, iy) }

  /** Position of bin (ix, iy) in a buffer whose rows are `width` long: x varies fastest. */
  function Offset(ix: int, iy: int, width: int): int { (iy - 1) * width + (ix - 1) }

  /** The buffer read_th2 returns: Nx rows of Nx bin contents (the outer bound is Nx, not Ny). */
  function ReadOrder<D>(h: Hist2D<D>): seq<D>
  {
    Rows(h.content, NbinsX(h), NbinsX(h))
  }

  /** The index pairs read_th2 passes to GetBinContent, in call order. */
  function QueryOrder<D>(h: Hist2D<D>): seq<(int, int)>
  {
    Rows(BinIndex, NbinsX(h), NbinsX(h))
  }

  /** Rows(cell, rows, width) holds rows*width values. */
  lemma {:induction false} RowsLength<T>(cell: (int, int) -> T, rows: nat, width: nat)
    ensures |Rows(cell, rows, width)| == rows * width
  {
    if rows > 0 {
      RowsLength(cell, rows - 1, width);
      assert |Rows(cell, rows, width)| == (rows - 1) * width + width;
    }
  }

  /** Cell (ix, iy) sits at index (iy-1)*width + (ix-1): x varies fastest. */
  lemma {:induction false} RowsAt<T>(cell: (int, int) -> T, rows: nat, width: nat, ix: int, iy: int)
    requires 1 <= ix <= width && 1 <= iy <= rows
    ensures |Rows(cell, rows, width)| == rows * width
    ensures Offset(ix, iy, width) < rows * width
    ensures Rows(cell, rows, width)[Offset(ix, iy, width)] == cell(ix, iy)
  {
    RowsLength(cell, rows, width);
    RowsLength(cell, rows - 1, width);
    Arith.MulMonotone(iy - 1, rows - 1, width);
    if iy < rows {
      RowsAt(cell, rows - 1, width, ix, iy);
    }
  }

  /** Linear index k of Rows holds cell (k mod width + 1, k div width + 1), and that pair is in range. */
  lemma {:induction false} RowsPixel<T>(cell: (int, int) -> T, rows: nat, width: nat, k: nat)
    requires k < rows * width
    ensures |Rows(cell, rows, width)| == rows * width
    ensures 1 <= k % width + 1 <= width && 1 <= k / width + 1 <= rows
    ensures Rows(cell, rows, width)[k] == cell(k % width + 1, k / width + 1)
  {
    assert width > 0;
    var q, m := k / width, k % width;
    Arith.DivBelow(k, rows, width);
    assert Offset(m + 1, q + 1, width) == k;
    RowsAt(cell, rows, width, m + 1, q + 1);
  }

  /** All of Rows at once: each linear index holds the cell it should, and each cell that index. */
  lemma {:induction false} RowsLayout<T>(cell: (int, int) -> T, rows: nat, width: nat)
    ensures |Rows(cell, rows, width)| == rows * width
    ensures forall k | 0 <= k < |Rows(cell, rows, width)| ::
      1 <= k % width + 1 <= width && 1 <= k / width + 1 <= rows &&
      Rows(cell, rows, width)[k] == cell(k % width + 1, k / width + 1)
    ensures forall ix, iy | 1 <= ix <= width && 1 <= iy <= rows ::
      Offset(ix, iy, width) < |Rows(cell, rows, width)| &&
      Rows(cell, rows, width)[Offset(ix, iy, width)] == cell(ix, iy)
  {
    RowsLength(cell, rows, width);
    forall k: int | 0 <= k < |Rows(cell, rows, width)|
      ensures 1 <= k % width + 1 <= width && 1 <= k / width + 1 <= rows
      ensures Rows(cell, rows, width)[k] == cell(k % width + 1, k / width + 1)
    {
      RowsPixel(cell, rows, width, k);
    }
    forall ix: int, iy: int | 1 <= ix <= width && 1 <= iy <= rows
      ensures Offset(ix, iy, width) < |Rows(cell, rows, width)|
      ensures Rows(cell, rows, width)[Offset(ix, iy, width)] == cell(ix, iy)
    {
      RowsAt(cell, rows, width, ix, iy);
    }
  }

  /** Fewer rows of the same width are a prefix: the first r1 rows never change as rows are added. */
  lemma {:induction false} RowsPrefix<T>(cell: (int, int) -> T, r1: nat, r2: nat, width: nat)
    requires r1 <= r2
    ensures Rows(cell, r1, width) <= Rows(cell, r2, width)
  {
    if r1 < r2 {
      RowsPrefix(cell, r1, r2 - 1, width);
    }
  }

  /** The whole read_th2 buffer: Nx*Nx values, bin (ix, iy) at (iy-1)*Nx + (ix-1). */
  lemma ReadOrderLayout<D>(h: Hist2D<D>)
    ensures |ReadOrder(h)| == NbinsX(h) * NbinsX(h)
    ensures forall ix, iy | 1 <= ix <= NbinsX(h) && 1 <= iy <= NbinsX(h) ::
      Offset(ix, iy, NbinsX(h)) < |ReadOrder(h)| &&
      ReadOrder(h)[Offset(ix, iy, NbinsX(h))] == GetBinContent(h, ix, iy)
  {
    RowsLayout(h.content, NbinsX(h), NbinsX(h));
  }

  /**
   * Every pair handed to GetBinContent lies in [1, Nx] x [1, Nx], value k of
   * the buffer is the content of pair k, and the last pair is (Nx, Nx): the
   * row index runs past Ny whenever Ny < Nx.
   */
  lemma QueryOrderFacts<D>(h: Hist2D<D>)
    ensures |QueryOrder(h)| == |ReadOrder(h)| == NbinsX(h) * NbinsX(h)
    ensures forall k | 0 <= k < |QueryOrder(h)| ::
      1 <= QueryOrder(h)[k].0 <= NbinsX(h) && 1 <= QueryOrder(h)[k].1 <= NbinsX(h)
    ensures forall k | 0 <= k < |QueryOrder(h)| ::
      ReadOrder(h)[k] == GetBinContent(h, QueryOrder(h)[k].0, QueryOrder(h)[k].1)
    ensures QueryOrder(h)[|QueryOrder(h)| - 1] == (NbinsX(h), NbinsX(h))
  {
    var nx: int := NbinsX(h);
    RowsLayout(h.content, nx, nx);
    RowsLayout(BinIndex, nx, nx);
    assert Offset(nx, nx, nx) == nx * nx - 1;
  }

  /**
   * read_th2. `queries` records, in order, the index pairs handed to
   * GetBinContent. The outer loop keeps the finished rows 1 .. iy-1 in place
   * and the inner loop only appends to them; what the finished buffer holds
   * is stated by ReadOrderLayout and QueryOrderFacts.
   */
  method ReadTh2<D>(h: Hist2D<D>) returns (result: seq<D>, ghost queries: seq<(int, int)>)
    ensures result == ReadOrder(h)
    ensures queries == QueryOrder(h)
  {
    var nx: int := NbinsX(h);
    result, queries := [], [];
    var iy: int := 1;
    while iy <= nx
      invariant 1 <= iy <= nx + 1
      invariant result == Rows(h.content, iy - 1, nx)
      invariant queries == Rows(BinIndex, iy - 1, nx)
    {
      ghost var doneRows, doneQueries := result, queries;
      var ix: int := 1;
      while ix <= nx
        invariant 1 <= ix <= nx + 1
        invariant result == doneRows + Row(h.content, iy, ix - 1)
        invariant queries == doneQueries + Row(BinIndex, iy, ix - 1)
      {
        assert Row(h.content, iy, ix) == Row(h.content, iy, ix - 1) + [GetBinContent(h, ix, iy)];
        assert Row(BinIndex, iy, ix) == Row(BinIndex, iy, ix - 1) + [BinIndex(ix, iy)];
        result := result + [GetBinContent(h, ix, iy)];
        queries := queries + [BinIndex(ix, iy)];
        ix := ix + 1;
      }
      iy := iy + 1;
    }
  }
}
