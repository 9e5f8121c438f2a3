/** get_records: the loop that filters, looks up, searches and groups the candidate
    addresses, with a per-address description (Classify) and the declarative folds the
    loop is proved against. */
module Aggregate {
  import opened Common
  import opened Multimap
  import opened GeoRecords

  /** The four values of `--group`. */
  datatype GroupBy = IpAddress | Country | StateRegion | City

  /** The opened database: one lookup per address. */
  type Reader = string -> ReaderResult

  /** The compiled `--search` expression, reduced to "does it match somewhere in this string". */
  type Pattern = string -> bool

  datatype Config = Config(groupBy: GroupBy, search: Option<Pattern>, excluded: seq<string>)

  /** What happens to one candidate address inside the loop. */
  datatype Disposition =
    | Skipped                  // in the exclusion list: never looked up
    | Missing                  // not found or not an address: goes to the unknown list
    | Discarded                // found, but the search pattern matched none of its strings
    | Grouped(entry: Group)    // found and kept: `entry.values` go under `entry.key`
    | Aborted(error: FatalError)

  /** The four strings the search is run against: country_full, then the state and the
      city without the country suffix, then the address. */
  function SearchTargets(n: Names, ip: string): seq<string> {
    [n.CountryFull(), n.state, n.city, ip]
  }

  /** With no pattern everything passes; otherwise one of the four strings must match. */
  predicate Accepts(search: Option<Pattern>, n: Names, ip: string)
    ensures Accepts(search, n, ip) <==>
      search.None? || exists t :: t in SearchTargets(n, ip) && search.value(t)
  {
    match search
    case None => true
    case Some(p) => p(n.CountryFull()) || p(n.state) || p(n.city) || p(ip)
  }

  /** The key and the lines one kept address contributes under each grouping mode. The
      state/region and city keys carry the country's ISO suffix. */
  function Entry(mode: GroupBy, ip: string, rec: GeoRecord, n: Names): (g: Group)
    ensures mode == IpAddress ==> g.key == ip && |g.values| == 5
    ensures mode == IpAddress ==> g.values == DetailBlock(rec, n)
    ensures mode == IpAddress ==> g.values[2] == CountryLabel + n.CountryFull()
    ensures mode != IpAddress ==> g.values == [ip]
    ensures mode == Country ==> g.key == n.CountryFull()
    ensures mode == StateRegion ==> |n.state| <= |g.key| && g.key[..|n.state|] == n.state
    ensures mode == City ==> |n.city| <= |g.key| && g.key[..|n.city|] == n.city
    ensures mode == StateRegion ==> |g.key| == |n.state| + |n.isoSuffix|
    ensures mode == City ==> |g.key| == |n.city| + |n.isoSuffix|
    ensures mode != IpAddress ==>
      |n.isoSuffix| <= |g.key| && g.key[|g.key| - |n.isoSuffix|..] == n.isoSuffix
  {
    match mode
    case Country => Group(n.CountryFull(), [ip])
    case StateRegion => Group(n.state + n.isoSuffix, [ip])
    case City => Group(n.city + n.isoSuffix, [ip])
    case IpAddress => Group(ip, DetailBlock(rec, n))
  }

  /** The body of the get_records loop for one address. Exclusion is decided before the
      lookup; an unknown or malformed address is unresolved; a fatal reader failure is never
      absorbed; a found record is kept exactly when the search accepts it, and then
      contributes the entry of the selected mode. */
  function Classify(cfg: Config, reader: Reader, ip: string): (d: Disposition)
    ensures d.Skipped? <==> ip in cfg.excluded
    ensures d.Aborted? <==> ip !in cfg.excluded && reader(ip).Raised?
    ensures d.Aborted? ==> d.error == reader(ip).error
    ensures d.Missing? <==> ip !in cfg.excluded && (reader(ip).AddressNotFound? || reader(ip).InvalidAddress?)
    ensures d.Discarded? <==>
      ip !in cfg.excluded && reader(ip).Record? && !Accepts(cfg.search, Normalise(reader(ip).record), ip)
    ensures d.Grouped? <==>
      ip !in cfg.excluded && reader(ip).Record? && Accepts(cfg.search, Normalise(reader(ip).record), ip)
    ensures d.Grouped? ==> d.entry == Entry(cfg.groupBy, ip, reader(ip).record, Normalise(reader(ip).record))
  {
    if ip in cfg.excluded then Skipped
    else
      match ReadRecord(reader(ip))
      case Fatal(e) => Aborted(e)
      case NotFound => Missing
      case Found(rec) =>
        var n := Normalise(rec);
        if Accepts(cfg.search, n, ip) then Grouped(Entry(cfg.groupBy, ip, rec, n)) else Discarded
  }

  /** No address of ips ends the run. */
  predicate NoAbort(cfg: Config, reader: Reader, ips: seq<string>) {
    forall i :: 0 <= i < |ips| ==> !Classify(cfg, reader, ips[i]).Aborted?
  }

  /** The addresses of ips that go to the unknown list, in order, repeats included. */
  function Unresolved(cfg: Config, reader: Reader, ips: seq<string>): seq<string> {
    if |ips| == 0 then []
    else
      var last := ips[|ips| - 1];
      Unresolved(cfg, reader, ips[..|ips| - 1]) + (if Classify(cfg, reader, last).Missing? then [last] else [])
  }

  /** The (key, lines) pairs the kept addresses of ips contribute, in input order. */
  function Contributions(cfg: Config, reader: Reader, ips: seq<string>): seq<Group> {
    if |ips| == 0 then []
    else
      var d := Classify(cfg, reader, ips[|ips| - 1]);
      Contributions(cfg, reader, ips[..|ips| - 1]) + (if d.Grouped? then [d.entry] else [])
  }

  /** The addresses of ips that are kept, in input order. */
  function Kept(cfg: Config, reader: Reader, ips: seq<string>): seq<string> {
    if |ips| == 0 then []
    else
      var last := ips[|ips| - 1];
      Kept(cfg, reader, ips[..|ips| - 1]) + (if Classify(cfg, reader, last).Grouped? then [last] else [])
  }

  /** The kept addresses of ips whose key is k, in input order. */
  function KeptUnder(cfg: Config, reader: Reader, ips: seq<string>, k: string): seq<string> {
    if |ips| == 0 then []
    else
      var last := ips[|ips| - 1];
      var d := Classify(cfg, reader, last);
      KeptUnder(cfg, reader, ips[..|ips| - 1], k) + (if d.Grouped? && d.entry.key == k then [last] else [])
  }

  /** What get_records returns: the grouped lines and the unknown addresses. */
  datatype Aggregation = Aggregation(groups: seq<Group>, unknown: seq<string>)

  /** The error of the first address of ips whose lookup is fatal, if there is one. */
  function FirstAbort(cfg: Config, reader: Reader, ips: seq<string>): Option<FatalError> {
    if |ips| == 0 then None
    else
      var earlier := FirstAbort(cfg, reader, ips[..|ips| - 1]);
      var d := Classify(cfg, reader, ips[|ips| - 1]);
      if earlier.Some? then earlier
      else if d.Aborted? then Some(d.error)
      else None
  }

  /** The outcome get_records is meant to have, stated over the whole input at once: the
      first fatal error, or else the contributions merged by key and the unknown list. */
  function Expected(cfg: Config, reader: Reader, ips: seq<string>): Result<Aggregation, FatalError> {
    match FirstAbort(cfg, reader, ips)
    case Some(e) => Failure(e)
    case None => Success(Aggregation(FromPairs(Contributions(cfg, reader, ips)), Unresolved(cfg, reader, ips)))
  }

  /** FirstAbort finds an aborting address exactly when there is one, and what it finds is
      the error of an address that all earlier addresses let through. */
  lemma {:induction false} FirstAbortMeaning(cfg: Config, reader: Reader, ips: seq<string>)
    ensures FirstAbort(cfg, reader, ips).None? <==> NoAbort(cfg, reader, ips)
    ensures FirstAbort(cfg, reader, ips).Some? ==>
      exists i :: 0 <= i < |ips| && Classify(cfg, reader, ips[i]) == Aborted(FirstAbort(cfg, reader, ips).value)
        && NoAbort(cfg, reader, ips[..i])
  {
    if |ips| > 0 {
      var prefix := ips[..|ips| - 1];
      var last := ips[|ips| - 1];
      FirstAbortMeaning(cfg, reader, prefix);
      assert ips == prefix + [last];
      AppendNoAbort(cfg, reader, prefix, last);
      var e := FirstAbort(cfg, reader, ips);
      if FirstAbort(cfg, reader, prefix).Some? {
        var i :| 0 <= i < |prefix| && Classify(cfg, reader, prefix[i]) == Aborted(e.value)
          && NoAbort(cfg, reader, prefix[..i]);
        assert ips[i] == prefix[i] && ips[..i] == prefix[..i];
      } else if e.Some? {
        assert ips[..|ips| - 1] == prefix;
      }
    }
  }

  /** Once an abort is found in a prefix, the rest of the input does not matter. */
  lemma {:induction false} FirstAbortPrefix(cfg: Config, reader: Reader, ips: seq<string>, j: nat)
    requires j <= |ips|
    requires FirstAbort(cfg, reader, ips[..j]).Some?
    ensures FirstAbort(cfg, reader, ips) == FirstAbort(cfg, reader, ips[..j])
    decreases |ips| - j
  {
    if j < |ips| {
      var prefix := ips[..|ips| - 1];
      assert prefix[..j] == ips[..j];
      FirstAbortPrefix(cfg, reader, prefix, j);
    } else {
      assert ips[..j] == ips;
    }
  }

  /** get_records. Addresses are handled in input order; the first fatal lookup ends the
      loop and nothing gathered so far is returned. Otherwise the groups are exactly the
      contributions of the kept addresses merged by key in order of first appearance, and
      the unknown list is exactly the unresolved addresses in input order. */
  method GetRecords(cfg: Config, reader: Reader, ips: seq<string>) returns (r: Result<Aggregation, FatalError>)
    ensures r == Expected(cfg, reader, ips)
  {
    var groups: seq<Group> := [];
    var unknown: seq<string> := [];
    var i := 0;
    while i < |ips|
      invariant 0 <= i <= |ips|
      invariant FirstAbort(cfg, reader, ips[..i]).None?
      invariant groups == FromPairs(Contributions(cfg, reader, ips[..i]))
      invariant unknown == Unresolved(cfg, reader, ips[..i])
    {
      var ip := ips[i];
      var d := Classify(cfg, reader, ip);
      ExtendByOne(cfg, reader, ips, i);
      if d.Aborted? {
        FirstAbortPrefix(cfg, reader, ips, i + 1);
        return Failure(d.error);
      }
      var cs := Contributions(cfg, reader, ips[..i]);
      if d.Grouped? {
        assert Contributions(cfg, reader, ips[..i + 1]) == cs + [d.entry];
        FromPairsSnoc(cs, d.entry);
        groups := Insert(groups, d.entry.key, d.entry.values);
      } else {
        assert Contributions(cfg, reader, ips[..i + 1]) == cs;
        if d.Missing? {
          unknown := unknown + [ip];
        }
      }
      i := i + 1;
    }
    assert ips[..i] == ips;
    return Success(Aggregation(groups, unknown));
  }

  /** How each fold grows when one more address x is handled after the addresses s. */
  lemma AppendUnresolved(cfg: Config, reader: Reader, s: seq<string>, x: string)
    ensures Unresolved(cfg, reader, s + [x]) == Unresolved(cfg, reader, s)
      + (if Classify(cfg, reader, x).Missing? then [x] else [])
  {
    assert (s + [x])[..|s|] == s;
  }

  lemma AppendContribution(cfg: Config, reader: Reader, s: seq<string>, x: string)
    ensures Contributions(cfg, reader, s + [x]) == Contributions(cfg, reader, s)
      + (if Classify(cfg, reader, x).Grouped? then [Classify(cfg, reader, x).entry] else [])
  {
    assert (s + [x])[..|s|] == s;
  }

  lemma AppendKept(cfg: Config, reader: Reader, s: seq<string>, x: string, k: string)
    ensures Kept(cfg, reader, s + [x]) == Kept(cfg, reader, s)
      + (if Classify(cfg, reader, x).Grouped? then [x] else [])
    ensures KeptUnder(cfg, reader, s + [x], k) == KeptUnder(cfg, reader, s, k)
      + (if Classify(cfg, reader, x).Grouped? && Classify(cfg, reader, x).entry.key == k then [x] else [])
  {
    assert (s + [x])[..|s|] == s;
  }

  lemma AppendNoAbort(cfg: Config, reader: Reader, s: seq<string>, x: string)
    ensures NoAbort(cfg, reader, s + [x])
      <==> NoAbort(cfg, reader, s) && !Classify(cfg, reader, x).Aborted?
  {
    if NoAbort(cfg, reader, s) && !Classify(cfg, reader, x).Aborted? {
      forall i | 0 <= i < |s + [x]|
        ensures !Classify(cfg, reader, (s + [x])[i]).Aborted?
      {
        if i < |s| {
          assert (s + [x])[i] == s[i];
        }
      }
    }
    if NoAbort(cfg, reader, s + [x]) {
      assert (s + [x])[|s|] == x;
      forall i | 0 <= i < |s|
        ensures !Classify(cfg, reader, s[i]).Aborted?
      {
        assert (s + [x])[i] == s[i];
      }
    }
  }

  /** In ip_address mode a kept address is its own key and adds five lines. */
  lemma AddressKey(cfg: Config, reader: Reader, x: string)
    requires cfg.groupBy == IpAddress
    requires Classify(cfg, reader, x).Grouped?
    ensures Classify(cfg, reader, x).entry.key == x
    ensures |Classify(cfg, reader, x).entry.values| == 5
  {
  }

  /** In the attribute modes a kept address contributes just itself. */
  lemma AttributeValues(cfg: Config, reader: Reader, x: string)
    requires cfg.groupBy != IpAddress
    requires Classify(cfg, reader, x).Grouped?
    ensures Classify(cfg, reader, x).entry.values == [x]
  {
  }

  /** The Append lemmas for a prefix of ips. */
  lemma ExtendByOne(cfg: Config, reader: Reader, ips: seq<string>, i: nat)
    requires i < |ips|
    ensures Unresolved(cfg, reader, ips[..i + 1]) == Unresolved(cfg, reader, ips[..i])
      + (if Classify(cfg, reader, ips[i]).Missing? then [ips[i]] else [])
    ensures Contributions(cfg, reader, ips[..i + 1]) == Contributions(cfg, reader, ips[..i])
      + (if Classify(cfg, reader, ips[i]).Grouped? then [Classify(cfg, reader, ips[i]).entry] else [])
    ensures FirstAbort(cfg, reader, ips[..i + 1])
         == if FirstAbort(cfg, reader, ips[..i]).Some? then FirstAbort(cfg, reader, ips[..i])
            else if Classify(cfg, reader, ips[i]).Aborted? then Some(Classify(cfg, reader, ips[i]).error)
            else None
  {
    assert ips[..i + 1] == ips[..i] + [ips[i]];
    assert ips[..i + 1][..i] == ips[..i];
    AppendUnresolved(cfg, reader, ips[..i], ips[i]);
    AppendContribution(cfg, reader, ips[..i], ips[i]);
  }
}
