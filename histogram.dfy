/**
 * The two-dimensional histogram that the converter reads, seen only through
 * the queries it makes of it: bin counts per axis, bin content by a 1-based
 * index pair, and per-axis bin centre and width by a 1-based bin index.
 * Floating-point values are an opaque type parameter `D`; nothing is computed
 * with them.
 */
module Histogram {

  /** A bin count. The histogram library never holds an axis with fewer than one bin. */
  type BinCount = n: int | 1 <= n witness 1

  /** One axis of the histogram: its number of bins, and centre and width per bin. */
  datatype Axis<D> = Axis(nbins: BinCount, center: int -> D, width: int -> D)

  /**
   * A 2-D histogram. `content` answers every index pair: indices outside
   * [1, nbins] address the library's underflow and overflow bins, whose values
   * are as opaque as any other.
   */
  datatype Hist2D<D> = Hist2D(xAxis: Axis<D>, yAxis: Axis<D>, content: (int, int) -> D)

  function NbinsX<D>(h: Hist2D<D>): BinCount { h.xAxis.nbins }

  function NbinsY<D>(h: Hist2D<D>): BinCount { h.yAxis.nbins }

  function GetBinContent<D>(h: Hist2D<D>, ix: int, iy: int): D { h.content(ix, iy) }
}
