/**
 * The world-coordinate keywords main sends with fits_update_key after the
 * pixel write: CTYPEi, CRPIXi, CRVALi and CDELTi for the two image axes
 * (section 8.2 of the FITS Standard 4.0). The values are constants or are
 * read, unchanged, from bin 1 of the histogram's X and Y axes.
 */
module WcsHeader {
  import opened Histogram

  datatype Option<T> = None | Some(value: T)

  /** The value of one fits_update_key call, tagged with its cfitsio type: TSTRING, TLONG or TDOUBLE. */
  datatype KeyValue<D> = StringValue(s: string) | LongValue(n: int) | DoubleValue(d: D)

  /** The four linear-axis keywords of section 8.2 of the FITS Standard 4.0. */
  datatype WcsKind = CType | CRPix | CRVal | CDelt

  /** The image has two axes, numbered 1 and 2 as in the keyword names. */
  type AxisNumber = n: int | 1 <= n <= 2 witness 1

  /** A keyword name held as kind and axis rather than as a mutable character buffer. */
  datatype KeyName = KeyName(kind: WcsKind, axis: AxisNumber)

  /** The name as it appears in the header: "CTYPE1", "CRPIX2", and so on. */
  function Text(k: KeyName): string
  {
    match k
    case KeyName(CType, 1) => "CTYPE1"
    case KeyName(CType, 2) => "CTYPE2"
    case KeyName(CRPix, 1) => "CRPIX1"
    case KeyName(CRPix, 2) => "CRPIX2"
    case KeyName(CRVal, 1) => "CRVAL1"
    case KeyName(CRVal, 2) => "CRVAL2"
    case KeyName(CDelt, 1) => "CDELT1"
    case KeyName(CDelt, 2) => "CDELT2"
  }

  /** Different names have different texts, so the header never holds two records under one text. */
  lemma TextInjective(k1: KeyName, k2: KeyName)
    requires Text(k1) == Text(k2)
    ensures k1 == k2
  {
    assert Text(k1)[1] == Text(k2)[1] && Text(k1)[2] == Text(k2)[2] && Text(k1)[5] == Text(k2)[5];
  }

  /** One fits_update_key call: keyword name, typed value, comment (always empty here). */
  datatype Keyword<D> = Keyword(name: KeyName, value: KeyValue<D>, comment: string)

  /**
   * The cfitsio type each keyword is sent with: TSTRING for CTYPEi, TLONG for
   * CRPIXi (always 1, the first pixel), TDOUBLE for CRVALi and CDELTi.
   */
  predicate SentAsTyped<D>(k: Keyword<D>)
  {
    match k.name.kind
    case CType => k.value.StringValue?
    case CRPix => k.value == LongValue(1)
    case CRVal => k.value.DoubleValue?
    case CDelt => k.value.DoubleValue?
  }

  /** The keyword records main sends, in the order it sends them. */
  function WcsKeywords<D>(h: Hist2D<D>): (hdr: seq<Keyword<D>>)
    ensures |hdr| == 8
    ensures forall i | 0 <= i < |hdr| :: SentAsTyped(hdr[i]) && hdr[i].comment == ""
  {
    [ Keyword(KeyName(CType, 1), StringValue("Ra"), ""),
      Keyword(KeyName(CType, 2), StringValue("Dec"), ""),
      Keyword(KeyName(CRPix, 1), LongValue(1), ""),
      Keyword(KeyName(CRVal, 1), DoubleValue(h.xAxis.center(1)), ""),
      Keyword(KeyName(CDelt, 1), DoubleValue(h.xAxis.width(1)), ""),
      Keyword(KeyName(CRPix, 2), LongValue(1), ""),
      Keyword(KeyName(CRVal, 2), DoubleValue(h.yAxis.center(1)), ""),
      Keyword(KeyName(CDelt, 2), DoubleValue(h.yAxis.width(1)), "") ]
  }

  /** The keyword names of a header, in order. */
  function Names<D>(hdr: seq<Keyword<D>>): (names: seq<string>)
    ensures |names| == |hdr|
    ensures forall i | 0 <= i < |hdr| :: names[i] == Text(hdr[i].name)
  {
    if hdr == [] then [] else [Text(hdr[0].name)] + Names(hdr[1..])
  }

  /**
   * The position of the first record called `name`, or -1 when there is
   * none: how a FITS reader finds a keyword's value.
   */
  function Find<D>(hdr: seq<Keyword<D>>, name: KeyName): (i: int)
    ensures -1 <= i < |hdr|
    ensures i == -1 <==> forall j | 0 <= j < |hdr| :: hdr[j].name != name
    ensures 0 <= i ==> hdr[i].name == name && forall j | 0 <= j < i :: hdr[j].name != name
  {
    if hdr == [] then -1
    else if hdr[0].name == name then 0
    else
      var i := Find(hdr[1..], name);
      if i == -1 then -1 else i + 1
  }

  /** Find is determined by its contract: the first position carrying the name. */
  lemma FindIs<D>(hdr: seq<Keyword<D>>, name: KeyName, i: int)
    requires 0 <= i < |hdr| && hdr[i].name == name
    requires forall j | 0 <= j < i :: hdr[j].name != name
    ensures Find(hdr, name) == i
  {
  }

  function Lookup<D>(hdr: seq<Keyword<D>>, name: KeyName): Option<KeyValue<D>>
  {
    var i := Find(hdr, name);
    if i == -1 then None else Some(hdr[i].value)
  }

  /** The linear coordinate description of one image axis, as a FITS reader rebuilds it. */
  datatype AxisWcs<D> = AxisWcs(ctype: string, crpix: int, crval: D, cdelt: D)

  /**
   * Reads the description of one axis from a header: CTYPEn must be a
   * string, CRPIXn a long, CRVALn and CDELTn doubles.
   */
  function ReadAxis<D>(hdr: seq<Keyword<D>>, axis: AxisNumber): Option<AxisWcs<D>>
  {
    match (Lookup(hdr, KeyName(CType, axis)), Lookup(hdr, KeyName(CRPix, axis)),
           Lookup(hdr, KeyName(CRVal, axis)), Lookup(hdr, KeyName(CDelt, axis)))
    case (Some(StringValue(t)), Some(LongValue(p)), Some(DoubleValue(v)), Some(DoubleValue(d))) =>
      Some(AxisWcs(t, p, v, d))
    case _ => None
  }

  /** No two of the eight records share a name. */
  lemma KeywordsDistinct<D>(h: Hist2D<D>)
    ensures |WcsKeywords(h)| == 8
    ensures forall i, j | 0 <= i < j < |WcsKeywords(h)| :: WcsKeywords(h)[i].name != WcsKeywords(h)[j].name
  {
  }

  /** The eight keywords go out in this order. */
  lemma KeywordNames<D>(h: Hist2D<D>)
    ensures Names(WcsKeywords(h)) ==
      ["CTYPE1", "CTYPE2", "CRPIX1", "CRVAL1", "CDELT1", "CRPIX2", "CRVAL2", "CDELT2"]
  {
    var names := Names(WcsKeywords(h));
    assert names[0] == "CTYPE1" && names[1] == "CTYPE2" && names[2] == "CRPIX1" && names[3] == "CRVAL1";
    assert names[4] == "CDELT1" && names[5] == "CRPIX2" && names[6] == "CRVAL2" && names[7] == "CDELT2";
  }

  /** Their texts are distinct too, so the header receives eight different keywords. */
  lemma TextsDistinct<D>(h: Hist2D<D>)
    ensures forall i, j | 0 <= i < j < |WcsKeywords(h)| ::
      Text(WcsKeywords(h)[i].name) != Text(WcsKeywords(h)[j].name)
  {
    KeywordsDistinct(h);
    forall i, j | 0 <= i < j < |WcsKeywords(h)|
      ensures Text(WcsKeywords(h)[i].name) != Text(WcsKeywords(h)[j].name)
    {
      if Text(WcsKeywords(h)[i].name) == Text(WcsKeywords(h)[j].name) {
        TextInjective(WcsKeywords(h)[i].name, WcsKeywords(h)[j].name);
      }
    }
  }

  /** Looking any sent keyword up by name finds the value sent with it. */
  lemma WcsLookup<D>(h: Hist2D<D>, i: int)
    requires 0 <= i < |WcsKeywords(h)|
    ensures Lookup(WcsKeywords(h), WcsKeywords(h)[i].name) == Some(WcsKeywords(h)[i].value)
  {
    var hdr := WcsKeywords(h);
    KeywordsDistinct(h);
    FindIs(hdr, hdr[i].name, i);
  }

  /** A header whose four keywords for `axis` carry the right types describes that axis. */
  lemma ReadAxisOf<D>(hdr: seq<Keyword<D>>, axis: AxisNumber, t: string, p: int, v: D, d: D)
    requires Lookup(hdr, KeyName(CType, axis)) == Some(StringValue(t))
    requires Lookup(hdr, KeyName(CRPix, axis)) == Some(LongValue(p))
    requires Lookup(hdr, KeyName(CRVal, axis)) == Some(DoubleValue(v))
    requires Lookup(hdr, KeyName(CDelt, axis)) == Some(DoubleValue(d))
    ensures ReadAxis(hdr, axis) == Some(AxisWcs(t, p, v, d))
  {
  }

  /**
   * A reader recovers axis 1 as "Ra" with reference pixel 1 at the centre of
   * X bin 1 and step the width of X bin 1.
   */
  lemma AxisOneRoundTrip<D>(h: Hist2D<D>)
    ensures ReadAxis(WcsKeywords(h), 1) == Some(AxisWcs("Ra", 1, h.xAxis.center(1), h.xAxis.width(1)))
  {
    WcsLookup(h, 0);
    WcsLookup(h, 2);
    WcsLookup(h, 3);
    WcsLookup(h, 4);
    ReadAxisOf(WcsKeywords(h), 1, "Ra", 1, h.xAxis.center(1), h.xAxis.width(1));
  }

  /** Axis 2 likewise: "Dec", reference pixel 1, centre and width of Y bin 1. */
  lemma AxisTwoRoundTrip<D>(h: Hist2D<D>)
    ensures ReadAxis(WcsKeywords(h), 2) == Some(AxisWcs("Dec", 1, h.yAxis.center(1), h.yAxis.width(1)))
  {
    WcsLookup(h, 1);
    WcsLookup(h, 5);
    WcsLookup(h, 6);
    WcsLookup(h, 7);
    ReadAxisOf(WcsKeywords(h), 2, "Dec", 1, h.yAxis.center(1), h.yAxis.width(1));
  }

  /** CRVAL1 and CDELT1 depend on X bin 1 only: neither the Y axis nor any other X bin affects axis 1. */
  lemma AxisOneFromXBinOne<D>(h1: Hist2D<D>, h2: Hist2D<D>)
    requires h1.xAxis.center(1) == h2.xAxis.center(1) && h1.xAxis.width(1) == h2.xAxis.width(1)
    ensures ReadAxis(WcsKeywords(h1), 1) == ReadAxis(WcsKeywords(h2), 1)
  {
    AxisOneRoundTrip(h1);
    AxisOneRoundTrip(h2);
  }

  /** CRVAL2 and CDELT2 depend on Y bin 1 only. */
  lemma AxisTwoFromYBinOne<D>(h1: Hist2D<D>, h2: Hist2D<D>)
    requires h1.yAxis.center(1) == h2.yAxis.center(1) && h1.yAxis.width(1) == h2.yAxis.width(1)
    ensures ReadAxis(WcsKeywords(h1), 2) == ReadAxis(WcsKeywords(h2), 2)
  {
    AxisTwoRoundTrip(h1);
    AxisTwoRoundTrip(h2);
  }
}
