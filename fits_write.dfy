/**
 * The image that main creates and the pixel write it makes. The image is
 * declared with naxes = (Nx, Ny) and fits_write_img is asked for
 * naxes[0]*naxes[1] = Nx*Ny values starting at the first element of the
 * read_th2 buffer, which holds Nx*Nx values.
 */
module FitsWrite {
  import opened Histogram
  import opened BinGrid
  import Arith

  /** cfitsio's DOUBLE_IMG: BITPIX = -64, IEEE double-precision pixels. */
  const DoubleImg: int := -64

  /** NAXIS of the created image. */
  const ImageAxes: int := 2

  /** naxes[] = { GetNbinsX(), GetNbinsY() }: two non-empty axes, X first. */
  function Naxes<D>(h: Hist2D<D>): (naxes: seq<int>)
    ensures |naxes| == ImageAxes
    ensures naxes[0] >= 1 && naxes[1] >= 1
    ensures naxes[0] == NbinsX(h) && naxes[1] == NbinsY(h)
  {
    [NbinsX(h), NbinsY(h)]
  }

  /** The nelements argument of fits_write_img: naxes[0] * naxes[1]. */
  function PixelCount(naxes: seq<int>): int
    requires |naxes| == 2
  {
    naxes[0] * naxes[1]
  }

  /**
   * What fits_write_img takes from the buffer: `count` values from its start,
   * or, when the buffer is shorter, a read past its end (undefined behaviour
   * in th2_to_fits.cc, recorded here with both sizes).
   */
  datatype PixelWrite<D> = Written(pixels: seq<D>) | ReadsPastEnd(count: int, available: int)

  function WriteImg<D>(count: int, buffer: seq<D>): (w: PixelWrite<D>)
    ensures w.Written? <==> 0 <= count <= |buffer|
    ensures w.Written? ==> |w.pixels| == count && w.pixels <= buffer
    ensures !w.Written? ==> w.count == count && w.available == |buffer|
  {
    if 0 <= count <= |buffer| then Written(buffer[..count]) else ReadsPastEnd(count, |buffer|)
  }

  /** The write main performs: Nx*Ny values of the read_th2 buffer. */
  function ImageWrite<D>(h: Hist2D<D>): (w: PixelWrite<D>)
    ensures w.Written? <==> PixelCount(Naxes(h)) <= |ReadOrder(h)|
    ensures w.Written? ==> |w.pixels| == PixelCount(Naxes(h)) && w.pixels <= ReadOrder(h)
  {
    WriteImg(PixelCount(Naxes(h)), ReadOrder(h))
  }

  /**
   * The write stays inside the buffer exactly when Ny <= Nx; otherwise it asks
   * for Nx*Ny values of a buffer of Nx*Nx.
   */
  lemma WriteInBoundsIff<D>(h: Hist2D<D>)
    ensures PixelCount(Naxes(h)) <= |ReadOrder(h)| <==> NbinsY(h) <= NbinsX(h)
    ensures ImageWrite(h).Written? <==> NbinsY(h) <= NbinsX(h)
    ensures NbinsX(h) < NbinsY(h) ==>
      ImageWrite(h) == ReadsPastEnd(NbinsX(h) * NbinsY(h), NbinsX(h) * NbinsX(h))
  {
    var nx: nat, ny: nat := NbinsX(h), NbinsY(h);
    ReadOrderLayout(h);
    if ny <= nx {
      Arith.MulMonotone(ny, nx, nx);
    } else {
      Arith.MulMonotone(nx + 1, ny, nx);
    }
  }

  /** The buffer is used up exactly, no value left over and none missing, only when Nx == Ny. */
  lemma ExactCoverIff<D>(h: Hist2D<D>)
    ensures PixelCount(Naxes(h)) == |ReadOrder(h)| <==> NbinsX(h) == NbinsY(h)
    ensures NbinsX(h) == NbinsY(h) ==> ImageWrite(h) == Written(ReadOrder(h))
  {
    ReadOrderLayout(h);
    var nx: nat, ny: nat := NbinsX(h), NbinsY(h);
    if ny < nx {
      Arith.MulMonotone(ny + 1, nx, nx);
      assert (ny + 1) * nx == nx * ny + nx;
    } else if nx < ny {
      Arith.MulMonotone(nx + 1, ny, nx);
      assert (nx + 1) * nx == nx * nx + nx;
    }
  }

  /**
   * When Ny <= Nx the pixels written are the first Ny rows of the buffer,
   * which is the flattening of the Nx x Ny histogram itself.
   */
  lemma ImageIsHistogram<D>(h: Hist2D<D>)
    requires NbinsY(h) <= NbinsX(h)
    ensures ImageWrite(h) == Written(Rows(h.content, NbinsY(h), NbinsX(h)))
    ensures |ImageWrite(h).pixels| == PixelCount(Naxes(h))
  {
    var nx: nat, ny: nat := NbinsX(h), NbinsY(h);
    WriteInBoundsIff(h);
    RowsLength(h.content, ny, nx);
    RowsPrefix(h.content, ny, nx, nx);
  }

  /**
   * Whenever the write is in bounds (Ny <= Nx), pixel k of the image is bin
   * (k mod Nx + 1, k div Nx + 1), and that bin lies in the histogram's own
   * range [1, Nx] x [1, Ny].
   */
  lemma ImagePixels<D>(h: Hist2D<D>)
    requires NbinsY(h) <= NbinsX(h)
    ensures ImageWrite(h).Written?
    ensures forall k | 0 <= k < |ImageWrite(h).pixels| ::
      1 <= k / NbinsX(h) + 1 <= NbinsY(h) &&
      ImageWrite(h).pixels[k] == GetBinContent(h, k % NbinsX(h) + 1, k / NbinsX(h) + 1)
  {
    ImageIsHistogram(h);
    var p := ImageWrite(h).pixels;
    RowsLength(h.content, NbinsY(h), NbinsX(h));
    forall k: int | 0 <= k < |p|
      ensures 1 <= k / NbinsX(h) + 1 <= NbinsY(h)
      ensures p[k] == GetBinContent(h, k % NbinsX(h) + 1, k / NbinsX(h) + 1)
    {
      RowsPixel(h.content, NbinsY(h), NbinsX(h), k);
    }
  }

  /** Conversely, every bin (ix, iy) of the histogram is written, as pixel (iy-1)*Nx + (ix-1). */
  lemma ImageCoversBins<D>(h: Hist2D<D>)
    requires NbinsY(h) <= NbinsX(h)
    ensures ImageWrite(h).Written?
    ensures forall ix, iy | 1 <= ix <= NbinsX(h) && 1 <= iy <= NbinsY(h) ::
      Offset(ix, iy, NbinsX(h)) < |ImageWrite(h).pixels| &&
      ImageWrite(h).pixels[Offset(ix, iy, NbinsX(h))] == GetBinContent(h, ix, iy)
  {
    ImageIsHistogram(h);
    RowsLayout(h.content, NbinsY(h), NbinsX(h));
  }

  /**
   * When Ny < Nx, the Nx*(Nx-Ny) values left unwritten at the end of the
   * buffer are exactly those read from rows beyond Ny.
   */
  lemma UnwrittenTail<D>(h: Hist2D<D>)
    requires NbinsY(h) < NbinsX(h)
    ensures |ReadOrder(h)| - PixelCount(Naxes(h)) == NbinsX(h) * (NbinsX(h) - NbinsY(h)) > 0
    ensures forall k | 0 <= k < |QueryOrder(h)| ::
      (k < PixelCount(Naxes(h)) <==> QueryOrder(h)[k].1 <= NbinsY(h))
  {
    var nx: nat, ny: nat := NbinsX(h), NbinsY(h);
    assert PixelCount(Naxes(h)) == nx * ny;
    RowsLength(h.content, nx, nx);
    RowsLength(BinIndex, nx, nx);
    Arith.MulMonotone(1, nx - ny, nx);
    assert nx * nx - nx * ny == nx * (nx - ny);
    forall k: int | 0 <= k < |QueryOrder(h)|
      ensures k < nx * ny <==> QueryOrder(h)[k].1 <= ny
    {
      RowsPixel(BinIndex, nx, nx, k);
      if k < nx * ny {
        Arith.DivBelow(k, ny, nx);
      } else {
        Arith.DivAbove(k, ny, nx);
      }
    }
  }
}
