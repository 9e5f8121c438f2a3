/** What get_records promises about where each address ends up. */
module AggregateFacts {
  import opened Common
  import opened Multimap
  import opened GeoRecords
  import opened Aggregate

  /** The addresses of ips that are not in excluded, in order. */
  function Without(ips: seq<string>, excluded: seq<string>): (r: seq<string>)
    ensures forall x :: x in r <==> x in ips && x !in excluded
  {
    if |ips| == 0 then []
    else
      var last := ips[|ips| - 1];
      assert ips == ips[..|ips| - 1] + [last];
      Without(ips[..|ips| - 1], excluded) + (if last in excluded then [] else [last])
  }

  /** Excluding addresses leaves the unknown list as if they had been deleted. */
  lemma {:induction false} UnresolvedWithout(cfg: Config, reader: Reader, ips: seq<string>)
    ensures Unresolved(cfg, reader, ips) == Unresolved(cfg, reader, Without(ips, cfg.excluded))
  {
    if |ips| > 0 {
      var prefix := ips[..|ips| - 1];
      var last := ips[|ips| - 1];
      var w := Without(prefix, cfg.excluded);
      UnresolvedWithout(cfg, reader, prefix);
      if last in cfg.excluded {
        assert Classify(cfg, reader, last) == Skipped;
        assert Without(ips, cfg.excluded) == w;
      } else {
        assert Without(ips, cfg.excluded) == w + [last];
        AppendUnresolved(cfg, reader, w, last);
      }
    }
  }

  /** Excluding addresses leaves the contributions as if they had been deleted. */
  lemma {:induction false} ContributionsWithout(cfg: Config, reader: Reader, ips: seq<string>)
    ensures Contributions(cfg, reader, ips) == Contributions(cfg, reader, Without(ips, cfg.excluded))
  {
    if |ips| > 0 {
      var prefix := ips[..|ips| - 1];
      var last := ips[|ips| - 1];
      var w := Without(prefix, cfg.excluded);
      ContributionsWithout(cfg, reader, prefix);
      if last in cfg.excluded {
        assert Classify(cfg, reader, last) == Skipped;
        assert Without(ips, cfg.excluded) == w;
      } else {
        assert Without(ips, cfg.excluded) == w + [last];
        AppendContribution(cfg, reader, w, last);
      }
    }
  }

  /** Excluding addresses leaves the abort decision as if they had been deleted. */
  lemma {:induction false} NoAbortWithout(cfg: Config, reader: Reader, ips: seq<string>)
    ensures NoAbort(cfg, reader, ips) <==> NoAbort(cfg, reader, Without(ips, cfg.excluded))
  {
    if |ips| > 0 {
      var prefix := ips[..|ips| - 1];
      var last := ips[|ips| - 1];
      var w := Without(prefix, cfg.excluded);
      NoAbortWithout(cfg, reader, prefix);
      if last in cfg.excluded {
        assert Classify(cfg, reader, last) == Skipped;
        assert Without(ips, cfg.excluded) == w;
      } else {
        assert Without(ips, cfg.excluded) == w + [last];
        AppendNoAbort(cfg, reader, w, last);
      }
    }
  }

  /** Every contribution was made by a kept address of ips. */
  lemma {:induction false} ContributionOrigin(cfg: Config, reader: Reader, ips: seq<string>, g: Group)
    requires g in Contributions(cfg, reader, ips)
    ensures exists x :: x in ips && Classify(cfg, reader, x) == Grouped(g)
  {
    var prefix := ips[..|ips| - 1];
    var last := ips[|ips| - 1];
    assert ips == prefix + [last];
    AppendContribution(cfg, reader, prefix, last);
    if g in Contributions(cfg, reader, prefix) {
      ContributionOrigin(cfg, reader, prefix, g);
      var x :| x in prefix && Classify(cfg, reader, x) == Grouped(g);
      assert x in ips;
    } else {
      assert Classify(cfg, reader, last) == Grouped(g);
    }
  }

  /** The unknown list holds each address exactly as often as it occurs in the input when
      its lookup is not-found or invalid and it is not excluded, and never otherwise: found
      and excluded addresses never enter it, and repeats are kept. */
  lemma {:induction false} UnresolvedCounts(cfg: Config, reader: Reader, ips: seq<string>, x: string)
    ensures multiset(Unresolved(cfg, reader, ips))[x]
         == if Classify(cfg, reader, x).Missing? then multiset(ips)[x] else 0
    ensures x in Unresolved(cfg, reader, ips) <==> x in ips && Classify(cfg, reader, x).Missing?
  {
    if |ips| > 0 {
      var prefix := ips[..|ips| - 1];
      var last := ips[|ips| - 1];
      UnresolvedCounts(cfg, reader, prefix, x);
      assert ips == prefix + [last];
      AppendUnresolved(cfg, reader, prefix, last);
    }
  }

  /** An excluded address is nowhere in the result: not in the unknown list, not a group
      key in ip_address mode, and not among any group's addresses in the attribute modes.
      (In the attribute modes keys are place names, which an excluded string may equal.) */
  lemma ExcludedAbsent(cfg: Config, reader: Reader, ips: seq<string>, ip: string)
    requires ip in cfg.excluded
    ensures ip !in Unresolved(cfg, reader, ips)
    ensures cfg.groupBy == IpAddress ==> !HasKey(FromPairs(Contributions(cfg, reader, ips)), ip)
    ensures cfg.groupBy != IpAddress ==>
      forall k :: ip !in Get(FromPairs(Contributions(cfg, reader, ips)), k)
  {
    UnresolvedCounts(cfg, reader, ips, ip);
    var cs := Contributions(cfg, reader, ips);
    if cfg.groupBy == IpAddress {
      FromPairsKeys(cs);
      if HasKey(FromPairs(cs), ip) {
        assert ip in KeysOf(FromPairs(cs));
        var j :| 0 <= j < |cs| && cs[j].key == ip;
        ContributionOrigin(cfg, reader, ips, cs[j]);
        assert false;
      }
    } else {
      forall k
        ensures ip !in Get(FromPairs(cs), k)
      {
        FromPairsGet(cs, k);
        if ip in Collect(cs, k) {
          CollectOrigin(cs, k, ip);
          var g :| g in cs && g.key == k && ip in g.values;
          ContributionOrigin(cfg, reader, ips, g);
          assert false;
        }
      }
    }
  }

  /** Collect over the contributions in the attribute modes. */
  lemma {:induction false} AttributeCollect(cfg: Config, reader: Reader, ips: seq<string>, k: string)
    requires cfg.groupBy != IpAddress
    ensures Collect(Contributions(cfg, reader, ips), k) == KeptUnder(cfg, reader, ips, k)
    ensures TotalSize(Contributions(cfg, reader, ips)) == |Kept(cfg, reader, ips)|
  {
    if |ips| > 0 {
      var prefix := ips[..|ips| - 1];
      var last := ips[|ips| - 1];
      AttributeCollect(cfg, reader, prefix, k);
      assert ips == prefix + [last];
      AppendContribution(cfg, reader, prefix, last);
      AppendKept(cfg, reader, prefix, last, k);
      var d := Classify(cfg, reader, last);
      if d.Grouped? {
        AttributeValues(cfg, reader, last);
        CollectAppend(Contributions(cfg, reader, prefix), d.entry, k);
        TotalSizeAppend(Contributions(cfg, reader, prefix), [d.entry]);
        assert TotalSize([d.entry]) == 1;
      } else {
        assert Contributions(cfg, reader, ips) == Contributions(cfg, reader, prefix);
        assert Kept(cfg, reader, ips) == Kept(cfg, reader, prefix);
        assert KeptUnder(cfg, reader, ips, k) == KeptUnder(cfg, reader, prefix, k);
      }
    }
  }

  /** Attribute modes (country, state/region, city): the group under k lists exactly the
      kept addresses whose key is k, once per occurrence and in input order. */
  lemma AttributeModeGroups(cfg: Config, reader: Reader, ips: seq<string>, k: string)
    requires cfg.groupBy != IpAddress
    ensures Get(FromPairs(Contributions(cfg, reader, ips)), k) == KeptUnder(cfg, reader, ips, k)
  {
    AttributeCollect(cfg, reader, ips, k);
    FromPairsGet(Contributions(cfg, reader, ips), k);
  }

  /** Attribute modes: the group lengths add up to the number of kept addresses. */
  lemma AttributeModeTotal(cfg: Config, reader: Reader, ips: seq<string>)
    requires cfg.groupBy != IpAddress
    ensures TotalSize(FromPairs(Contributions(cfg, reader, ips))) == |Kept(cfg, reader, ips)|
  {
    AttributeCollect(cfg, reader, ips, "");
    FromPairsSize(Contributions(cfg, reader, ips));
  }

  /** n copies of block, one after another. */
  function Repeat(block: seq<string>, n: nat): seq<string> {
    if n == 0 then [] else Repeat(block, n - 1) + block
  }

  lemma {:induction false} RepeatShape(block: seq<string>, n: nat)
    requires n >= 1
    ensures |Repeat(block, n)| == n * |block|
    ensures Repeat(block, n)[..|block|] == block
  {
    if n > 1 {
      RepeatShape(block, n - 1);
      assert Repeat(block, n)[..|block|] == Repeat(block, n - 1)[..|block|];
    }
  }

  /** One more address in ip_address mode adds lines under its own key only. */
  lemma AddressCollectStep(cfg: Config, reader: Reader, ips: seq<string>, k: string)
    requires cfg.groupBy == IpAddress
    requires Classify(cfg, reader, k).Grouped?
    requires |ips| > 0
    ensures Collect(Contributions(cfg, reader, ips), k)
         == Collect(Contributions(cfg, reader, ips[..|ips| - 1]), k)
            + (if ips[|ips| - 1] == k then Classify(cfg, reader, k).entry.values else [])
  {
    var cs := Contributions(cfg, reader, ips[..|ips| - 1]);
    var last := ips[|ips| - 1];
    var d := Classify(cfg, reader, last);
    if d.Grouped? {
      assert Contributions(cfg, reader, ips) == cs + [d.entry];
      AddressKey(cfg, reader, last);
      CollectAppend(cs, d.entry, k);
    } else {
      assert Contributions(cfg, reader, ips) == cs;
    }
  }

  /** The last element adds one to its own count. */
  lemma CountLast(s: seq<string>, k: string)
    requires |s| > 0
    ensures multiset(s)[k] == multiset(s[..|s| - 1])[k] + (if s[|s| - 1] == k then 1 else 0)
  {
    assert s == s[..|s| - 1] + [s[|s| - 1]];
    assert multiset(s) == multiset(s[..|s| - 1]) + multiset{s[|s| - 1]};
  }

  /** Collect over the contributions in ip_address mode, for a kept address k. */
  lemma {:induction false} AddressCollectKept(cfg: Config, reader: Reader, ips: seq<string>, k: string)
    requires cfg.groupBy == IpAddress
    requires Classify(cfg, reader, k).Grouped?
    ensures Collect(Contributions(cfg, reader, ips), k)
         == Repeat(Classify(cfg, reader, k).entry.values, multiset(ips)[k])
  {
    if |ips| > 0 {
      var prefix := ips[..|ips| - 1];
      var block := Classify(cfg, reader, k).entry.values;
      var n := multiset(prefix)[k];
      AddressCollectKept(cfg, reader, prefix, k);
      AddressCollectStep(cfg, reader, ips, k);
      CountLast(ips, k);
      if ips[|ips| - 1] == k {
        assert Repeat(block, n + 1) == Repeat(block, n) + block;
      }
    }
  }

  /** Collect over the contributions in ip_address mode, for an address that is not kept. */
  lemma {:induction false} AddressCollectOther(cfg: Config, reader: Reader, ips: seq<string>, k: string)
    requires cfg.groupBy == IpAddress
    requires !Classify(cfg, reader, k).Grouped?
    ensures Collect(Contributions(cfg, reader, ips), k) == []
  {
    if |ips| > 0 {
      var prefix := ips[..|ips| - 1];
      var last := ips[|ips| - 1];
      var cs := Contributions(cfg, reader, prefix);
      AddressCollectOther(cfg, reader, prefix, k);
      assert ips == prefix + [last];
      AppendContribution(cfg, reader, prefix, last);
      var d := Classify(cfg, reader, last);
      if d.Grouped? {
        AddressKey(cfg, reader, last);
        CollectAppend(cs, d.entry, k);
      } else {
        assert Contributions(cfg, reader, ips) == cs;
      }
    }
  }

  /** In ip_address mode every kept address contributes five lines. */
  lemma {:induction false} AddressSize(cfg: Config, reader: Reader, ips: seq<string>)
    requires cfg.groupBy == IpAddress
    ensures TotalSize(Contributions(cfg, reader, ips)) == 5 * |Kept(cfg, reader, ips)|
  {
    if |ips| > 0 {
      var prefix := ips[..|ips| - 1];
      var last := ips[|ips| - 1];
      AddressSize(cfg, reader, prefix);
      assert ips == prefix + [last];
      AppendContribution(cfg, reader, prefix, last);
      AppendKept(cfg, reader, prefix, last, "");
      var d := Classify(cfg, reader, last);
      if d.Grouped? {
        AddressKey(cfg, reader, last);
        TotalSizeAppend(Contributions(cfg, reader, prefix), [d.entry]);
        assert TotalSize([d.entry]) == 5;
      } else {
        assert Contributions(cfg, reader, ips) == Contributions(cfg, reader, prefix);
        assert Kept(cfg, reader, ips) == Kept(cfg, reader, prefix);
      }
    }
  }

  /** ip_address mode: the group of an address holds its 5-line detail block once per
      kept occurrence (a repeated address gives 10 lines, and so on), and the lines add
      up to five per kept address. */
  lemma AddressModeGroups(cfg: Config, reader: Reader, ips: seq<string>, k: string)
    requires cfg.groupBy == IpAddress
    ensures Get(FromPairs(Contributions(cfg, reader, ips)), k)
         == if Classify(cfg, reader, k).Grouped?
            then Repeat(Classify(cfg, reader, k).entry.values, multiset(ips)[k])
            else []
    ensures TotalSize(FromPairs(Contributions(cfg, reader, ips))) == 5 * |Kept(cfg, reader, ips)|
  {
    if Classify(cfg, reader, k).Grouped? {
      AddressCollectKept(cfg, reader, ips, k);
    } else {
      AddressCollectOther(cfg, reader, ips, k);
    }
    AddressSize(cfg, reader, ips);
    FromPairsGet(Contributions(cfg, reader, ips), k);
    FromPairsSize(Contributions(cfg, reader, ips));
  }

  /** Every key of the merged groups belongs to a kept address of the input. */
  lemma GroupKeyOrigin(cfg: Config, reader: Reader, ips: seq<string>)
    requires cfg.groupBy == IpAddress
    ensures forall g :: g in FromPairs(Contributions(cfg, reader, ips)) ==>
      g.key in ips && Classify(cfg, reader, g.key).Grouped?
  {
    var cs := Contributions(cfg, reader, ips);
    var m := FromPairs(cs);
    FromPairsKeys(cs);
    forall g | g in m
      ensures g.key in ips && Classify(cfg, reader, g.key).Grouped?
    {
      var i :| 0 <= i < |m| && m[i] == g;
      assert KeysOf(m)[i] == g.key;
      assert g.key in KeysOf(cs);
      var j :| 0 <= j < |cs| && KeysOf(cs)[j] == g.key;
      ContributionOrigin(cfg, reader, ips, cs[j]);
      var x :| x in ips && Classify(cfg, reader, x) == Grouped(cs[j]);
      AddressKey(cfg, reader, x);
    }
  }

  /** ip_address mode: the group of an address holds 5 lines per occurrence of it. */
  lemma AddressModeGroupSize(cfg: Config, reader: Reader, ips: seq<string>)
    requires cfg.groupBy == IpAddress
    ensures forall g :: g in FromPairs(Contributions(cfg, reader, ips)) ==>
      multiset(ips)[g.key] >= 1 && |g.values| == 5 * multiset(ips)[g.key]
  {
    var m := FromPairs(Contributions(cfg, reader, ips));
    GroupKeyOrigin(cfg, reader, ips);
    FromPairsDistinct(Contributions(cfg, reader, ips));
    forall g | g in m
      ensures multiset(ips)[g.key] >= 1 && |g.values| == 5 * multiset(ips)[g.key]
    {
      var i :| 0 <= i < |m| && m[i] == g;
      GetMember(m, i);
      AddressModeGroups(cfg, reader, ips, g.key);
      var block := Classify(cfg, reader, g.key).entry.values;
      AddressKey(cfg, reader, g.key);
      RepeatShape(block, multiset(ips)[g.key]);
    }
  }

  /** ip_address mode: every group is keyed by a found address and starts with that
      address's detail block, so its element 2 is the "Country:" line of the record. */
  lemma AddressModeGroupShape(cfg: Config, reader: Reader, ips: seq<string>)
    requires cfg.groupBy == IpAddress
    ensures forall g :: g in FromPairs(Contributions(cfg, reader, ips)) ==>
      && reader(g.key).Record?
      && |g.values| >= 5
      && g.values[..5] == DetailBlock(reader(g.key).record, Normalise(reader(g.key).record))
      && g.values[2] == CountryLabel + Normalise(reader(g.key).record).CountryFull()
  {
    var m := FromPairs(Contributions(cfg, reader, ips));
    GroupKeyOrigin(cfg, reader, ips);
    FromPairsDistinct(Contributions(cfg, reader, ips));
    forall g | g in m
      ensures reader(g.key).Record? && |g.values| >= 5
      ensures g.values[..5] == DetailBlock(reader(g.key).record, Normalise(reader(g.key).record))
      ensures g.values[2] == CountryLabel + Normalise(reader(g.key).record).CountryFull()
    {
      var i :| 0 <= i < |m| && m[i] == g;
      var x := g.key;
      GetMember(m, i);
      AddressModeGroups(cfg, reader, ips, x);
      var rec := reader(x).record;
      var block := DetailBlock(rec, Normalise(rec));
      assert Classify(cfg, reader, x).entry.values == block;
      assert multiset(ips)[x] >= 1;
      DetailBlockLayout(rec, Normalise(rec));
      RepeatShape(block, multiset(ips)[x]);
      assert g.values[2] == block[2];
    }
  }

  /** An address is among the kept addresses under k exactly when it occurs in the input,
      is kept, and has key k. */
  lemma {:induction false} KeptUnderMember(cfg: Config, reader: Reader, ips: seq<string>, k: string, x: string)
    ensures x in KeptUnder(cfg, reader, ips, k) <==>
      x in ips && Classify(cfg, reader, x).Grouped? && Classify(cfg, reader, x).entry.key == k
  {
    if |ips| > 0 {
      var prefix := ips[..|ips| - 1];
      var last := ips[|ips| - 1];
      KeptUnderMember(cfg, reader, prefix, k, x);
      assert ips == prefix + [last];
    }
  }

  /** Attribute modes: an address is listed in some group exactly when it occurs in the
      input and is kept. */
  lemma AttributeModeMembership(cfg: Config, reader: Reader, ips: seq<string>, x: string)
    requires cfg.groupBy != IpAddress
    ensures (exists k :: x in Get(FromPairs(Contributions(cfg, reader, ips)), k))
        <==> x in ips && Classify(cfg, reader, x).Grouped?
  {
    var m := FromPairs(Contributions(cfg, reader, ips));
    if exists k :: x in Get(m, k) {
      var k :| x in Get(m, k);
      AttributeModeGroups(cfg, reader, ips, k);
      KeptUnderMember(cfg, reader, ips, k, x);
    }
    if x in ips && Classify(cfg, reader, x).Grouped? {
      var k := Classify(cfg, reader, x).entry.key;
      AttributeModeGroups(cfg, reader, ips, k);
      KeptUnderMember(cfg, reader, ips, k, x);
      assert x in Get(m, k);
    }
  }

  /** ip_address mode: an address is a group key exactly when it occurs in the input and
      is kept. */
  lemma AddressModeMembership(cfg: Config, reader: Reader, ips: seq<string>, x: string)
    requires cfg.groupBy == IpAddress
    ensures HasKey(FromPairs(Contributions(cfg, reader, ips)), x)
        <==> x in ips && Classify(cfg, reader, x).Grouped?
  {
    var m := FromPairs(Contributions(cfg, reader, ips));
    if HasKey(m, x) {
      GroupKeyOrigin(cfg, reader, ips);
      var i :| 0 <= i < |m| && m[i].key == x;
      assert m[i] in m;
    }
    if x in ips && Classify(cfg, reader, x).Grouped? {
      AddressModeGroups(cfg, reader, ips, x);
      assert multiset(ips)[x] >= 1;
      RepeatShape(Classify(cfg, reader, x).entry.values, multiset(ips)[x]);
    }
  }

  /** With no search pattern, every address that is neither excluded nor fatal lands in
      exactly one of the two buckets: the unknown list or a group (attribute modes). */
  lemma AttributeModePartition(cfg: Config, reader: Reader, ips: seq<string>, x: string)
    requires cfg.groupBy != IpAddress && cfg.search.None?
    requires x in ips && x !in cfg.excluded && !reader(x).Raised?
    ensures x in Unresolved(cfg, reader, ips)
        <==> !exists k :: x in Get(FromPairs(Contributions(cfg, reader, ips)), k)
  {
    UnresolvedCounts(cfg, reader, ips, x);
    AttributeModeMembership(cfg, reader, ips, x);
  }

  /** The same for ip_address mode, where being in a group means being a group key. */
  lemma AddressModePartition(cfg: Config, reader: Reader, ips: seq<string>, x: string)
    requires cfg.groupBy == IpAddress && cfg.search.None?
    requires x in ips && x !in cfg.excluded && !reader(x).Raised?
    ensures x in Unresolved(cfg, reader, ips) <==> !HasKey(FromPairs(Contributions(cfg, reader, ips)), x)
  {
    UnresolvedCounts(cfg, reader, ips, x);
    AddressModeMembership(cfg, reader, ips, x);
  }

  /** A found address that the search pattern rejects is in neither bucket, so with a
      pattern the two buckets do not cover the input. */
  lemma DiscardedNowhere(cfg: Config, reader: Reader, ips: seq<string>, x: string)
    requires Classify(cfg, reader, x).Discarded?
    ensures x !in Unresolved(cfg, reader, ips)
    ensures cfg.groupBy == IpAddress ==> !HasKey(FromPairs(Contributions(cfg, reader, ips)), x)
    ensures cfg.groupBy != IpAddress ==> !exists k :: x in Get(FromPairs(Contributions(cfg, reader, ips)), k)
  {
    UnresolvedCounts(cfg, reader, ips, x);
    if cfg.groupBy == IpAddress {
      AddressModeMembership(cfg, reader, ips, x);
    } else {
      AttributeModeMembership(cfg, reader, ips, x);
    }
  }
}
