# th2_to_fits, modelled in Dafny

`th2_to_fits` converts a two-dimensional ROOT histogram (`TH2D`) into a FITS
primary image. It flattens the histogram's bin grid into one buffer
(`read_th2`), creates a double-precision image of shape (Nx, Ny), writes
Nx*Ny pixels from that buffer, and sends eight world-coordinate keywords
(CTYPE, CRPIX, CRVAL, CDELT for axes 1 and 2).

This project models that core and proves what it does, including the quirk
in `read_th2`: both of its loops are bounded by the X bin count, so the buffer
always holds Nx*Nx values. The proofs show three things about this:

- the pixel write stays inside the buffer exactly when Ny <= Nx;
- the buffer is consumed exactly, with no value left over, only when Nx == Ny;
- when Ny < Nx, the image written is still the correct Nx x Ny image. The values
  read from rows beyond Ny make up the unwritten tail of the buffer, and nothing else does.

When Ny > Nx, the write asks for more values than the buffer holds. The model
records this as a read past the end (`ReadsPastEnd`).

Files and modules:

- `histogram.dfy` (`Histogram`): the histogram as an abstract grid. It has bin
  counts of at least one per axis, a total `content(ix, iy)` function, and a bin
  centre and width per axis bin. Values are an opaque type parameter `D`.
- `bin_grid.dfy` (`BinGrid`): `read_th2` as a method with nested loops
  (`ReadTh2`). Its specification functions `ReadOrder` and `QueryOrder` are built
  row by row (`Rows`, `Row`), and the lemmas about them cover length, layout and
  the index pairs queried.
- `arith.dfy` (`Arith`): three small facts about products and quotients, used by the layout proofs.
- `fits_write.dfy` (`FitsWrite`): the image shape `naxes = (Nx, Ny)`, the pixel
  count `naxes[0]*naxes[1]`, the pixel write, and the lemmas relating it to the buffer.
- `wcs_header.dfy` (`WcsHeader`): the ordered keyword list as a pure function. It
  also holds a FITS reader's view of it (`Find`, `Lookup`, `ReadAxis`) and the
  round trip from histogram axes to the axis descriptions a reader recovers.
- `convert.dfy` (`Convert`): `main` from line 38 on, as a straight-line method.

## Model

| member | source | states |
|---|---|---|
| `BinGrid.ReadTh2` | src/th2_to_fits.cc:10-19 | The returned buffer is `ReadOrder(h)`: rows iy = 1..Nx, each holding bins ix = 1..Nx in increasing order. The ghost trace of `GetBinContent` arguments is `QueryOrder(h)`. The loop invariants keep the finished rows as an unchanged prefix that the inner loop only appends to. |
| `BinGrid.RowsLength` | src/th2_to_fits.cc:14-16 | `rows` rows of `width` bins hold `rows*width` values. |
| `BinGrid.RowsAt` | src/th2_to_fits.cc:14-16 | Bin (ix, iy), with 1 <= ix <= width and 1 <= iy <= rows, is at index (iy-1)*width + (ix-1), which is inside the buffer. |
| `BinGrid.RowsPixel` | src/th2_to_fits.cc:14-16 | Index k holds bin (k mod width + 1, k div width + 1), and that pair lies in range. |
| `BinGrid.RowsLayout` | src/th2_to_fits.cc:14-16 | Both directions at once: every index holds its bin, and every bin in range is at its index. |
| `BinGrid.RowsPrefix` | src/th2_to_fits.cc:14-16 | Earlier rows never change as rows are appended: r1 <= r2 rows of one width are a prefix of r2 rows. |
| `BinGrid.ReadOrderLayout` | src/th2_to_fits.cc:12-16 | The `read_th2` buffer has Nx*Nx values, and element (iy-1)*Nx + (ix-1) is `GetBinContent(ix, iy)` for all 1 <= ix, iy <= Nx. |
| `BinGrid.QueryOrderFacts` | src/th2_to_fits.cc:14-16 | Every pair passed to `GetBinContent` is in [1, Nx] x [1, Nx]. Buffer value k is the content of pair k. The last pair is (Nx, Nx), so iy passes Ny whenever Ny < Nx. |
| `FitsWrite.Naxes` | src/th2_to_fits.cc:41-42 | The image has `ImageAxes` = 2 axes, both non-empty: naxes[0] is the X bin count and naxes[1] the Y bin count. |
| `FitsWrite.PixelCount` | src/th2_to_fits.cc:55 | The `nelements` argument, naxes[0] * naxes[1]. `WriteInBoundsIff` and `ExactCoverIff` compare it with the buffer length. |
| `FitsWrite.WriteImg` | src/th2_to_fits.cc:55 | Taking `count` values from the start of a buffer succeeds iff 0 <= count <= the buffer length, and then yields a prefix of the buffer of exactly `count` values. Otherwise it is a read past the end that records both sizes. |
| `FitsWrite.ImageWrite` | src/th2_to_fits.cc:42-55 | The write `main` makes succeeds iff the pixel count fits the `read_th2` buffer, and then the pixels are the first `PixelCount(Naxes(h))` buffer values. `WriteInBoundsIff`, `ImageIsHistogram` and `UnwrittenTail` state what this means in terms of Nx and Ny. |
| `FitsWrite.WriteInBoundsIff` | src/th2_to_fits.cc:42-55 | The write of naxes[0]*naxes[1] = Nx*Ny values from the Nx*Nx buffer is in bounds iff Ny <= Nx. Otherwise it is a read past the end asking for Nx*Ny of Nx*Nx values. |
| `FitsWrite.ExactCoverIff` | src/th2_to_fits.cc:42-55 | The pixel count equals the buffer length iff Nx == Ny, and in that case the whole buffer is written. |
| `FitsWrite.ImageIsHistogram` | src/th2_to_fits.cc:42-55 | When Ny <= Nx, the pixels written are exactly the first Ny rows of Nx bins, which is the flattening of the Nx x Ny histogram. |
| `FitsWrite.ImagePixels` | src/th2_to_fits.cc:40-55 | When Ny <= Nx, pixel k is bin (k mod Nx + 1, k div Nx + 1), with row index at most Ny. The first image axis varies fastest. |
| `FitsWrite.ImageCoversBins` | src/th2_to_fits.cc:42-55 | When Ny <= Nx, every bin (ix, iy) of [1, Nx] x [1, Ny] is written, as pixel (iy-1)*Nx + (ix-1). |
| `FitsWrite.UnwrittenTail` | src/th2_to_fits.cc:14-55 | When Ny < Nx, Nx*(Nx-Ny) > 0 buffer values are never written. A buffer position is written iff the bin read into it has iy <= Ny. |
| `WcsHeader.TextInjective` | src/th2_to_fits.cc:59-74 | Different keyword names have different header texts. |
| `WcsHeader.WcsKeywords` | src/th2_to_fits.cc:57-74 | The eight `fits_update_key` records in the order sent. Each has an empty comment and the cfitsio type of its keyword: TSTRING for CTYPEi, TLONG 1 for CRPIXi, TDOUBLE for CRVALi and CDELTi. Order, distinct names and the values a reader recovers are stated by `KeywordNames`, `KeywordsDistinct`, `WcsLookup` and `AxisOneRoundTrip`/`AxisTwoRoundTrip`. |
| `WcsHeader.KeywordsDistinct` | src/th2_to_fits.cc:57-74 | Exactly eight records are sent, and no two share a name. |
| `WcsHeader.KeywordNames` | src/th2_to_fits.cc:57-74 | The names go out in the order CTYPE1, CTYPE2, CRPIX1, CRVAL1, CDELT1, CRPIX2, CRVAL2, CDELT2. |
| `WcsHeader.TextsDistinct` | src/th2_to_fits.cc:57-74 | The eight header texts are pairwise distinct. |
| `WcsHeader.WcsLookup` | src/th2_to_fits.cc:57-74 | Looking up any sent keyword by name finds the value sent with it. |
| `WcsHeader.AxisOneRoundTrip` | src/th2_to_fits.cc:57-67 | A reader recovers axis 1 as CTYPE1 = "Ra" (string), CRPIX1 = 1 (long), CRVAL1 = centre of X bin 1 and CDELT1 = width of X bin 1 (doubles). |
| `WcsHeader.AxisTwoRoundTrip` | src/th2_to_fits.cc:58-74 | A reader recovers axis 2 as CTYPE2 = "Dec", CRPIX2 = 1, CRVAL2 = centre of Y bin 1 and CDELT2 = width of Y bin 1. |
| `WcsHeader.AxisOneFromXBinOne` | src/th2_to_fits.cc:63-67 | Two histograms that agree on X bin 1's centre and width give the same axis-1 description, whatever their Y axes and other X bins are. |
| `WcsHeader.AxisTwoFromYBinOne` | src/th2_to_fits.cc:70-74 | Agreement on Y bin 1's centre and width alone fixes the axis-2 description. |
| `Convert.ExitCode` | src/th2_to_fits.cc:49-79 | The exit status is 0 or 1. It is 1 exactly after a failed `fits_create_file` (`exit(1)`), and 0 exactly when the file was written (`return 0`). |
| `Convert.Convert` | src/th2_to_fits.cc:39-79 | If file creation fails, the result is exit status 1 and nothing is written. Otherwise the run returns 0, and the image has BITPIX -64, NAXIS 2 and naxes (Nx, Ny). Its pixels are the Nx x Ny histogram flattened x-fastest when Ny <= Nx, and a read past the end otherwise. The keywords are the eight WCS records, which describe axis 1 from X bin 1 and axis 2 from Y bin 1. |

## Left out

- Argument parsing with docopt (src/th2_to_fits.cc:31-32): a foreign library. The three path arguments are not modelled.
- Opening the ROOT file and looking up the object (src/th2_to_fits.cc:34-35): foreign I/O. The lookup and cast are unchecked in th2_to_fits.cc, so a missing or mistyped object dereferences an invalid pointer. The model starts from a histogram value and does not capture this.
- `h->Print()`, the "Writing to" line and the error message naming the output file before `exit(1)` (src/th2_to_fits.cc:36, 38, 50): output only. The exit status itself is modelled by `ExitCode`.
- Removing any existing output file with the C library's `remove` (src/th2_to_fits.cc:48): a file-system effect, not modelled. Its result is ignored by the program.
- `reserve` (src/th2_to_fits.cc:12): a capacity hint that does not affect contents. Its `int` product `GetNbinsX() * GetNbinsY()` could overflow; this is not modelled.
- Integer widths: the model uses unbounded integers for bin counts, loop counters and the `long` pixel count. It does not model overflow of `int`/`long`, nor the capacity limits of `std::vector`.
- ROOT's handling of bin indices outside [1, Nx] x [1, Ny], meaning the underflow and overflow bins and clamping. `content` is total and opaque, so rows past Ny read whatever the histogram holds there.
- The effect of the past-the-end read at src/th2_to_fits.cc:55 when Ny > Nx. It is undefined behaviour, and the model only records that it happens and with which sizes. The unchecked `&(array[0])` is not modelled separately.
- cfitsio (src/th2_to_fits.cc:49-78): the file contents, the mandatory keywords `fits_create_img` writes, how `fits_update_key` merges into a header, and closing.
  - The outcome of `fits_create_file` is an input of `Convert`.
  - The `status` variable, which accumulates errors and is never checked, is not modelled.
  - The model records what is sent: BITPIX, NAXIS, naxes, the pixel write and the keyword records in order.
- Floating point: bin contents, centres and widths are an opaque type and pass through unchanged. No numeric property is stated.
- A reverse-axis option, such as flipping CRVAL1 or negating CDELT1, does not exist in th2_to_fits.cc and is not modelled.
