/** One database lookup and the normalised strings the report is built from
    (read_record and the field handling at the top of the get_records loop). */
module GeoRecords {
  import opened Common
  import Decimal

  /** The fields of a City-database answer that the tool reads; each may be missing.
      `mapsUrl` is the rendered Google Maps URL for the record's coordinates, `None` when a
      coordinate is missing or zero; the float formatting behind it is not modelled. */
  datatype GeoRecord = GeoRecord(
    cityName: Option<string>,
    subdivisionName: Option<string>,
    countryName: Option<string>,
    countryIso: Option<string>,
    mapsUrl: Option<string>,
    accuracyRadius: Option<nat>)

  /** Reader failures that are not about the address: they end the whole run.
      `UndefinedName` is the AttributeError Python raises when an `except` clause names an
      attribute the module does not define; `context` is the exception being handled. */
  datatype FatalError =
    | DatabaseFileNotFound
    | DatabasePermissionDenied
    | OtherReaderError(message: string)
    | UndefinedName(attribute: string, context: FatalError)

  /** What one call of the database reader's city lookup produces. */
  datatype ReaderResult =
    | Record(record: GeoRecord)
    | AddressNotFound
    | InvalidAddress
    | Raised(error: FatalError)

  /** The three outcomes read_record distinguishes. */
  datatype LookupOutcome = Found(record: GeoRecord) | NotFound | Fatal(error: FatalError)

  /** read_record: an unknown address and a malformed one both become NotFound; every
      other reader failure propagates unchanged; an answer is passed through. */
  function ReadRecord(res: ReaderResult): (o: LookupOutcome)
    ensures o.NotFound? <==> (res.AddressNotFound? || res.InvalidAddress?)
    ensures o.Found? <==> res.Record?
    ensures o.Found? ==> o.record == res.record
    ensures o.Fatal? <==> res.Raised?
    ensures o.Fatal? ==> o.error == res.error
  {
    match res
    case Record(rec) => Found(rec)
    case AddressNotFound => NotFound
    case InvalidAddress => NotFound
    case Raised(e) => Fatal(e)
  }

  /** The first name the second `except` clause of read_record looks up. */
  const FirstUndefinedName := "FileNotFoundError"

  /** read_record as written: an exception that passes the first `except` clause makes
      Python evaluate the second clause's tuple, and `geoip2.errors` defines neither of the
      names in it, so the lookup of the first one raises in place of the reader's error. */
  function ReadRecordAsWritten(res: ReaderResult): (o: LookupOutcome)
    ensures o.Fatal? <==> ReadRecord(res).Fatal?
    ensures !o.Fatal? ==> o == ReadRecord(res)
    ensures o.Fatal? ==> o.error.UndefinedName? && o.error.context == res.error
  {
    match res
    case Raised(e) => Fatal(UndefinedName(FirstUndefinedName, e))
    case _ => ReadRecord(res)
  }

  /** As written, no fatal lookup reports the reader's own error: the run still ends, but
      with the AttributeError of the second clause. */
  lemma AsWrittenReplacesError(e: FatalError)
    ensures ReadRecordAsWritten(Raised(e)).Fatal?
    ensures ReadRecordAsWritten(Raised(e)).error != ReadRecord(Raised(e)).error
  {
  }

  const UnknownName := "Unknown"
  const NullText := "Null"

  function OrUnknown(name: Option<string>): string {
    name.GetOr(UnknownName)
  }

  /** The country suffix: `" (" + iso + ")"`, or empty when the code is missing. */
  function IsoSuffix(iso: Option<string>): string {
    match iso
    case Some(code) => " (" + code + ")"
    case None => ""
  }

  /** Recovers the ISO code from a suffix; the inverse of IsoSuffix. */
  function IsoOfSuffix(suffix: string): Option<string> {
    if |suffix| >= 3 && suffix[..2] == " (" && suffix[|suffix| - 1] == ')'
    then Some(suffix[2..|suffix| - 1])
    else None
  }

  /** The suffix loses nothing: different codes, or a code and no code, never give the
      same suffix, so the suffix distinguishes keys exactly as the code does. */
  lemma IsoSuffixRoundTrip(iso: Option<string>)
    ensures IsoOfSuffix(IsoSuffix(iso)) == iso
    ensures IsoSuffix(iso) == "" <==> iso.None?
  {
    if iso.Some? {
      var s := IsoSuffix(iso);
      assert s[..2] == " (";
      assert s[2..|s| - 1] == iso.value;
    }
  }

  /** The name strings the tool derives from a record. */
  datatype Names = Names(city: string, state: string, countryName: string, isoSuffix: string) {

    /** country_full: the country name followed by the ISO suffix. */
    function CountryFull(): string {
      countryName + isoSuffix
    }
  }

  /** Missing names become "Unknown"; the country code becomes a suffix. */
  function Normalise(rec: GeoRecord): (n: Names)
    ensures rec.cityName.None? ==> n.city == UnknownName
    ensures rec.subdivisionName.None? ==> n.state == UnknownName
    ensures rec.countryName.None? ==> n.countryName == UnknownName
    ensures rec.cityName.Some? ==> n.city == rec.cityName.value
    ensures rec.subdivisionName.Some? ==> n.state == rec.subdivisionName.value
    ensures rec.countryName.Some? ==> n.countryName == rec.countryName.value
    ensures IsoOfSuffix(n.isoSuffix) == rec.countryIso
    ensures n.isoSuffix == "" <==> rec.countryIso.None?
  {
    IsoSuffixRoundTrip(rec.countryIso);
    Names(OrUnknown(rec.cityName), OrUnknown(rec.subdivisionName), OrUnknown(rec.countryName),
          IsoSuffix(rec.countryIso))
  }

  /** The radius as Python formats it, or "Null" when the database has none. */
  function RadiusText(radius: Option<nat>): (s: string)
    ensures s == NullText <==> radius.None?
    ensures radius.Some? ==> Decimal.AllDigits(s) && Decimal.DecimalValue(s) == radius.value
    ensures radius.Some? ==> |s| > 0 && (s[0] == '0' <==> radius.value == 0)
  {
    match radius
    case Some(km) =>
      var t := Decimal.NatToDecimal(km);
      assert !Decimal.IsDigit(NullText[0]);
      Decimal.DecimalRoundTrip(km);
      t
    case None => NullText
  }

  const MapsLabel    := "Maps URL:   "
  const RadiusLabel  := "Radius(km): "
  const CountryLabel := "Country:    "
  const StateLabel   := "State:      "
  const CityLabel    := "City:       "

  /** The labels of the detail block, in the order its lines are printed. All five are
      twelve characters wide, so the values line up in one column. */
  const Labels := [MapsLabel, RadiusLabel, CountryLabel, StateLabel, CityLabel]

  /** The five-line detail block added for one address in ip_address mode. */
  function DetailBlock(rec: GeoRecord, n: Names): (b: seq<string>)
    ensures |b| == |Labels| == 5
    ensures forall i :: 0 <= i < 5 ==> |b[i]| >= 12 && b[i][..12] == Labels[i]
  {
    [ MapsLabel + rec.mapsUrl.GetOr(NullText),
      RadiusLabel + RadiusText(rec.accuracyRadius),
      CountryLabel + n.CountryFull(),
      StateLabel + n.state,
      CityLabel + n.city ]
  }

  /** The parts of a line after a label: the inverse of writing `label + text`. */
  function AfterLabel(line: string, tag: string): Option<string> {
    if |tag| <= |line| && line[..|tag|] == tag then Some(line[|tag|..]) else None
  }

  /** Every line of a detail block carries its own label, and the text after the label is
      the field it reports: the Country line (index 2) carries country_full, and the radius
      line reads "Null" exactly when the record has no radius. */
  lemma DetailBlockLayout(rec: GeoRecord, n: Names)
    ensures |DetailBlock(rec, n)| == 5
    ensures AfterLabel(DetailBlock(rec, n)[0], MapsLabel) == Some(rec.mapsUrl.GetOr(NullText))
    ensures AfterLabel(DetailBlock(rec, n)[1], RadiusLabel) == Some(RadiusText(rec.accuracyRadius))
    ensures AfterLabel(DetailBlock(rec, n)[2], CountryLabel) == Some(n.CountryFull())
    ensures AfterLabel(DetailBlock(rec, n)[3], StateLabel) == Some(n.state)
    ensures AfterLabel(DetailBlock(rec, n)[4], CityLabel) == Some(n.city)
    ensures AfterLabel(DetailBlock(rec, n)[1], RadiusLabel) == Some(NullText) <==> rec.accuracyRadius.None?
  {
    var b := DetailBlock(rec, n);
    assert b[0][..|MapsLabel|] == MapsLabel && b[0][|MapsLabel|..] == rec.mapsUrl.GetOr(NullText);
    assert b[1][..|RadiusLabel|] == RadiusLabel && b[1][|RadiusLabel|..] == RadiusText(rec.accuracyRadius);
    assert b[2][..|CountryLabel|] == CountryLabel && b[2][|CountryLabel|..] == n.CountryFull();
    assert b[3][..|StateLabel|] == StateLabel && b[3][|StateLabel|..] == n.state;
    assert b[4][..|CityLabel|] == CityLabel && b[4][|CityLabel|..] == n.city;
  }
}
