/**
 * main, after argument parsing and the histogram lookup: read the buffer,
 * create the output file (the one step whose failure main checks), create a
 * Nx x Ny double image, write Nx*Ny pixels from the buffer, send the WCS
 * keywords, close.
 */
module Convert {
  import opened Histogram
  import opened BinGrid
  import opened FitsWrite
  import opened WcsHeader

  /** The output file as main leaves it. */
  datatype FitsFile<D> = FitsFile(bitpix: int, naxis: int, naxes: seq<int>,
                                  data: PixelWrite<D>, keywords: seq<Keyword<D>>)

  /** Either fits_create_file failed and main exited, or the file was written. */
  datatype Outcome<D> = CreateFailed | Converted(file: FitsFile<D>)

  /** The process exit status: exit(1) after a failed create, otherwise main's return 0. */
  function ExitCode<D>(out: Outcome<D>): (code: int)
    ensures code == 0 || code == 1
    ensures code == 1 <==> out.CreateFailed?
    ensures code == 0 <==> out.Converted?
  {
    if out.CreateFailed? then 1 else 0
  }

  /**
   * The conversion. `createFails` stands for the outcome of fits_create_file,
   * which depends on the file system. read_th2 runs before the file is
   * created, so its reads happen in both cases.
   */
  method Convert<D>(h: Hist2D<D>, createFails: bool) returns (out: Outcome<D>)
    ensures out.CreateFailed? <==> createFails
    ensures ExitCode(out) == 1 <==> createFails
    ensures out.Converted? ==>
      out.file.bitpix == DoubleImg && out.file.naxis == ImageAxes &&
      out.file.naxes == [NbinsX(h), NbinsY(h)]
    ensures out.Converted? ==>
      (out.file.data.Written? <==> NbinsY(h) <= NbinsX(h))
    ensures out.Converted? && out.file.data.Written? ==>
      out.file.data.pixels == Rows(h.content, NbinsY(h), NbinsX(h))
    ensures out.Converted? && !out.file.data.Written? ==>
      out.file.data == ReadsPastEnd(NbinsX(h) * NbinsY(h), NbinsX(h) * NbinsX(h))
    ensures out.Converted? ==>
      out.file.keywords == WcsKeywords(h) &&
      ReadAxis(out.file.keywords, 1) == Some(AxisWcs("Ra", 1, h.xAxis.center(1), h.xAxis.width(1))) &&
      ReadAxis(out.file.keywords, 2) == Some(AxisWcs("Dec", 1, h.yAxis.center(1), h.yAxis.width(1)))
  {
    var naxes := [NbinsX(h), NbinsY(h)];
    var buffer: seq<D>;
    ghost var queries: seq<(int, int)>;
    buffer, queries := ReadTh2(h);
    if createFails {
      return CreateFailed;
    }
    var data := WriteImg(naxes[0] * naxes[1], buffer);
    var keywords := WcsKeywords(h);
    out := Converted(FitsFile(DoubleImg, ImageAxes, naxes, data, keywords));
    WriteInBoundsIff(h);
    if NbinsY(h) <= NbinsX(h) {
      ImageIsHistogram(h);
    }
    AxisOneRoundTrip(h);
    AxisTwoRoundTrip(h);
  }
}
