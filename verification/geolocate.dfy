/** main without its I/O: candidates, one database session, aggregation, and the sort. */
module Geolocate {
  import opened Common
  import opened Multimap
  import opened GeoRecords
  import opened Aggregate
  import opened AggregateFacts
  import opened GroupOrder
  import opened Input

  /** Opening the database either fails (missing or unreadable file) or yields a reader. */
  datatype Database = Unopenable(error: FatalError) | Opened(reader: Reader)

  /** How a run ends. ErrorExit is the `ERROR:` message with exit status 2; Report is what
      the report prints, groups in printing order. */
  datatype RunResult =
    | InputFailure(reason: InputError)
    | ErrorExit(error: FatalError)
    | Report(groups: seq<Group>, unknown: seq<string>)

  /** The report of a successful run is a stable descending sort of the merged groups:
      the same groups, largest key first, ties in insertion order, every key once, every
      group holding exactly the lines its key collected; the unknown list is the
      unresolved addresses in input order. A fatal database error, at open time or at any
      lookup that is reached, ends the run with no partial report. */
  method Run(cfg: Config, src: Source, limit: int, db: Database) returns (r: RunResult)
    ensures r.InputFailure? <==> Candidates(src, limit).Failure?
    ensures r.ErrorExit? <==>
      Candidates(src, limit).Success?
      && (db.Unopenable? || !NoAbort(cfg, db.reader, Candidates(src, limit).value))
    ensures r.ErrorExit? && db.Unopenable? ==> r.error == db.error
    ensures r.ErrorExit? && db.Opened? ==>
      FirstAbort(cfg, db.reader, Candidates(src, limit).value) == Some(r.error)
    ensures r.Report? ==>
      db.Opened? && Candidates(src, limit).Success?
      && r.unknown == Unresolved(cfg, db.reader, Candidates(src, limit).value)
    ensures r.Report? ==>
      var ips := Candidates(src, limit).value;
      var merged := FromPairs(Contributions(cfg, db.reader, ips));
      && multiset(r.groups) == multiset(merged)
      && DistinctKeys(r.groups)
      && AllIndexable(r.groups, cfg.groupBy) && SortedDesc(r.groups, cfg.groupBy)
      && AllIndexable(merged, cfg.groupBy)
      && (forall key :: WithKey(r.groups, cfg.groupBy, key) == WithKey(merged, cfg.groupBy, key))
      && (forall k :: Get(r.groups, k) == Collect(Contributions(cfg, db.reader, ips), k))
  {
    var cands := Candidates(src, limit);
    if cands.Failure? {
      return InputFailure(cands.error);
    }
    if db.Unopenable? {
      return ErrorExit(db.error);
    }
    var ips := cands.value;
    var agg := GetRecords(cfg, db.reader, ips);
    FirstAbortMeaning(cfg, db.reader, ips);
    if agg.Failure? {
      return ErrorExit(agg.error);
    }
    var cs := Contributions(cfg, db.reader, ips);
    var merged := agg.value.groups;
    if cfg.groupBy == IpAddress {
      AddressModeGroupShape(cfg, db.reader, ips);
      assert forall i :: 0 <= i < |merged| ==> merged[i] in merged;
    }
    FromPairsDistinct(cs);
    var sorted := SortGroups(merged, cfg.groupBy);
    SortGroupsPermutes(merged, cfg.groupBy);
    SortGroupsSorted(merged, cfg.groupBy);
    SortGroupsDistinct(merged, cfg.groupBy);
    forall key
      ensures WithKey(sorted, cfg.groupBy, key) == WithKey(merged, cfg.groupBy, key)
    {
      SortGroupsStable(merged, cfg.groupBy, key);
    }
    SameEntriesSameGet(sorted, merged);
    forall k
      ensures Get(sorted, k) == Collect(cs, k)
    {
      FromPairsGet(cs, k);
    }
    return Report(sorted, agg.value.unknown);
  }
}
