/** The order of the report: `sorted(..., key=..., reverse=True)` over the groups, a stable
    sort that puts the largest key first and keeps ties in insertion order. */
module GroupOrder {
  import opened Multimap
  import opened TextOrder
  import opened Aggregate

  /** What groups are compared by: their length in the attribute modes, their element 2
      (a string, compared as Python compares strings) in ip_address mode. */
  datatype SortKey = Size(n: nat) | Line(text: string)

  /** The strict order on sort keys. A run only ever compares keys of one kind; putting
      sizes below lines merely makes the order total. */
  predicate KeyLess(a: SortKey, b: SortKey) {
    match (a, b)
    case (Size(m), Size(n)) => m < n
    case (Line(s), Line(t)) => StrLess(s, t)
    case (Size(_), Line(_)) => true
    case (Line(_), Size(_)) => false
  }

  lemma KeyLessIrreflexive(a: SortKey)
    ensures !KeyLess(a, a)
  {
    if a.Line? {
      StrLessIrreflexive(a.text);
    }
  }

  lemma KeyLessTransitive(a: SortKey, b: SortKey, c: SortKey)
    requires KeyLess(a, b) && KeyLess(b, c)
    ensures KeyLess(a, c)
  {
    if a.Line? && b.Line? && c.Line? {
      StrLessTransitive(a.text, b.text, c.text);
    }
  }

  /** Element 2 exists wherever it will be read. */
  predicate Indexable(g: Group, mode: GroupBy) {
    mode == IpAddress ==> |g.values| > 2
  }

  predicate AllIndexable(gs: seq<Group>, mode: GroupBy) {
    forall i :: 0 <= i < |gs| ==> Indexable(gs[i], mode)
  }

  /** The key the sort reads from one (key, lines) item. */
  function KeyOf(g: Group, mode: GroupBy): SortKey
    requires Indexable(g, mode)
  {
    if mode == IpAddress then Line(g.values[2]) else Size(|g.values|)
  }

  /** No group is followed by one with a larger key. */
  predicate SortedDesc(gs: seq<Group>, mode: GroupBy)
    requires AllIndexable(gs, mode)
  {
    forall i, j :: 0 <= i < j < |gs| ==> !KeyLess(KeyOf(gs[i], mode), KeyOf(gs[j], mode))
  }

  /** The groups of gs whose sort key is key, in their order in gs. */
  function WithKey(gs: seq<Group>, mode: GroupBy, key: SortKey): seq<Group>
    requires AllIndexable(gs, mode)
  {
    if |gs| == 0 then []
    else (if KeyOf(gs[0], mode) == key then [gs[0]] else []) + WithKey(gs[1..], mode, key)
  }

  /** Puts x into gs after every group whose key is not smaller than x's. */
  function InsertDesc(x: Group, gs: seq<Group>, mode: GroupBy): (r: seq<Group>)
    requires Indexable(x, mode) && AllIndexable(gs, mode)
    ensures AllIndexable(r, mode)
  {
    if |gs| == 0 then [x]
    else if KeyLess(KeyOf(gs[0], mode), KeyOf(x, mode)) then [x] + gs
    else
      var rest := InsertDesc(x, gs[1..], mode);
      assert forall i :: 1 <= i < |gs| ==> gs[1..][i - 1] == gs[i];
      [gs[0]] + rest
  }

  /** Stable descending insertion sort: each group in turn is placed after the groups
      already placed whose key is not smaller. */
  function SortGroups(gs: seq<Group>, mode: GroupBy): (r: seq<Group>)
    requires AllIndexable(gs, mode)
    ensures AllIndexable(r, mode)
  {
    if |gs| == 0 then []
    else
      var prefix := gs[..|gs| - 1];
      InsertDesc(gs[|gs| - 1], SortGroups(prefix, mode), mode)
  }

  /** InsertDesc adds x and loses nothing. */
  lemma {:induction false} InsertDescPermutes(x: Group, gs: seq<Group>, mode: GroupBy)
    requires Indexable(x, mode) && AllIndexable(gs, mode)
    ensures multiset(InsertDesc(x, gs, mode)) == multiset(gs) + multiset{x}
  {
    if |gs| > 0 && !KeyLess(KeyOf(gs[0], mode), KeyOf(x, mode)) {
      InsertDescPermutes(x, gs[1..], mode);
      assert gs == [gs[0]] + gs[1..];
    }
  }

  /** The sorted groups are a permutation of the input groups. */
  lemma {:induction false} SortGroupsPermutes(gs: seq<Group>, mode: GroupBy)
    requires AllIndexable(gs, mode)
    ensures multiset(SortGroups(gs, mode)) == multiset(gs)
  {
    if |gs| > 0 {
      var prefix := gs[..|gs| - 1];
      SortGroupsPermutes(prefix, mode);
      InsertDescPermutes(gs[|gs| - 1], SortGroups(prefix, mode), mode);
      assert gs == prefix + [gs[|gs| - 1]];
    }
  }

  /** Every group of InsertDesc(x, gs) is x or a group of gs. */
  lemma InsertDescFrom(x: Group, gs: seq<Group>, mode: GroupBy, y: Group)
    requires Indexable(x, mode) && AllIndexable(gs, mode)
    requires y in InsertDesc(x, gs, mode)
    ensures y == x || y in gs
  {
    InsertDescPermutes(x, gs, mode);
    assert y in multiset(InsertDesc(x, gs, mode));
  }

  /** The head of a sorted sequence has a key no smaller than any later group's. */
  lemma SortedHead(gs: seq<Group>, mode: GroupBy, y: Group)
    requires AllIndexable(gs, mode) && SortedDesc(gs, mode) && |gs| > 0
    requires y in gs[1..]
    ensures Indexable(y, mode) && !KeyLess(KeyOf(gs[0], mode), KeyOf(y, mode))
  {
    var k :| 0 <= k < |gs[1..]| && gs[1..][k] == y;
    assert gs[k + 1] == y;
  }

  /** A group no smaller than every group of a sorted sequence can go in front of it. */
  lemma SortedCons(h: Group, rest: seq<Group>, mode: GroupBy)
    requires Indexable(h, mode) && AllIndexable(rest, mode) && SortedDesc(rest, mode)
    requires forall j :: 0 <= j < |rest| ==> !KeyLess(KeyOf(h, mode), KeyOf(rest[j], mode))
    ensures AllIndexable([h] + rest, mode) && SortedDesc([h] + rest, mode)
  {
    var r := [h] + rest;
    forall i, j | 0 <= i < j < |r|
      ensures !KeyLess(KeyOf(r[i], mode), KeyOf(r[j], mode))
    {
      assert r[j] == rest[j - 1];
      if i > 0 {
        assert r[i] == rest[i - 1];
      }
    }
  }

  lemma {:induction false} InsertDescSorted(x: Group, gs: seq<Group>, mode: GroupBy)
    requires Indexable(x, mode) && AllIndexable(gs, mode)
    requires SortedDesc(gs, mode)
    ensures SortedDesc(InsertDesc(x, gs, mode), mode)
  {
    if |gs| == 0 {
      assert InsertDesc(x, gs, mode) == [x];
    } else if KeyLess(KeyOf(gs[0], mode), KeyOf(x, mode)) {
      assert InsertDesc(x, gs, mode) == [x] + gs;
      forall j | 0 <= j < |gs|
        ensures !KeyLess(KeyOf(x, mode), KeyOf(gs[j], mode))
      {
        if KeyLess(KeyOf(x, mode), KeyOf(gs[j], mode)) {
          KeyLessTransitive(KeyOf(gs[0], mode), KeyOf(x, mode), KeyOf(gs[j], mode));
          if j == 0 {
            KeyLessIrreflexive(KeyOf(gs[0], mode));
          }
          assert false;
        }
      }
      SortedCons(x, gs, mode);
    } else {
      var rest := InsertDesc(x, gs[1..], mode);
      assert InsertDesc(x, gs, mode) == [gs[0]] + rest;
      SortedTail(gs, mode);
      InsertDescSorted(x, gs[1..], mode);
      forall j | 0 <= j < |rest|
        ensures !KeyLess(KeyOf(gs[0], mode), KeyOf(rest[j], mode))
      {
        InsertDescFrom(x, gs[1..], mode, rest[j]);
        if rest[j] != x {
          SortedHead(gs, mode, rest[j]);
        }
      }
      SortedCons(gs[0], rest, mode);
    }
  }

  lemma {:induction false} SortGroupsSorted(gs: seq<Group>, mode: GroupBy)
    requires AllIndexable(gs, mode)
    ensures SortedDesc(SortGroups(gs, mode), mode)
  {
    if |gs| > 0 {
      var prefix := gs[..|gs| - 1];
      SortGroupsSorted(prefix, mode);
      InsertDescSorted(gs[|gs| - 1], SortGroups(prefix, mode), mode);
    }
  }

  lemma {:induction false} WithKeyAppend(a: seq<Group>, b: seq<Group>, mode: GroupBy, key: SortKey)
    requires AllIndexable(a, mode) && AllIndexable(b, mode)
    ensures AllIndexable(a + b, mode)
    ensures WithKey(a + b, mode, key) == WithKey(a, mode, key) + WithKey(b, mode, key)
  {
    if |a| == 0 {
      assert a + b == b;
    } else {
      WithKeyAppend(a[1..], b, mode, key);
      assert (a + b)[0] == a[0];
      assert (a + b)[1..] == a[1..] + b;
      var head := if KeyOf(a[0], mode) == key then [a[0]] else [];
      assert WithKey(a + b, mode, key) == head + WithKey(a[1..] + b, mode, key);
      assert WithKey(a, mode, key) == head + WithKey(a[1..], mode, key);
    }
  }

  /** A sequence with no group of that key yields nothing for it. */
  lemma {:induction false} WithKeyNone(gs: seq<Group>, mode: GroupBy, key: SortKey)
    requires AllIndexable(gs, mode)
    requires forall i :: 0 <= i < |gs| ==> KeyOf(gs[i], mode) != key
    ensures WithKey(gs, mode, key) == []
  {
    if |gs| > 0 {
      WithKeyNone(gs[1..], mode, key);
    }
  }

  lemma SortedTail(gs: seq<Group>, mode: GroupBy)
    requires AllIndexable(gs, mode) && SortedDesc(gs, mode) && |gs| > 0
    ensures AllIndexable(gs[1..], mode) && SortedDesc(gs[1..], mode)
  {
    forall i, j | 0 <= i < j < |gs| - 1
      ensures !KeyLess(KeyOf(gs[1..][i], mode), KeyOf(gs[1..][j], mode))
    {
      assert gs[1..][i] == gs[i + 1] && gs[1..][j] == gs[j + 1];
    }
  }

  /** A group whose key exceeds the head of a sorted sequence has no equal-key group in it. */
  lemma InsertAtFrontStable(x: Group, gs: seq<Group>, mode: GroupBy, key: SortKey)
    requires Indexable(x, mode) && AllIndexable(gs, mode)
    requires SortedDesc(gs, mode)
    requires |gs| > 0 && KeyLess(KeyOf(gs[0], mode), KeyOf(x, mode))
    ensures AllIndexable([x] + gs, mode)
    ensures WithKey([x] + gs, mode, key)
         == WithKey(gs, mode, key) + (if KeyOf(x, mode) == key then [x] else [])
  {
    var r := [x] + gs;
    assert r[1..] == gs;
    if KeyOf(x, mode) == key {
      forall i | 0 <= i < |gs|
        ensures KeyOf(gs[i], mode) != key
      {
        if i == 0 {
          KeyLessIrreflexive(key);
        }
      }
      WithKeyNone(gs, mode, key);
    }
  }

  /** Inserting x into a sorted sequence puts it after every group with an equal key. */
  lemma {:induction false} InsertDescStable(x: Group, gs: seq<Group>, mode: GroupBy, key: SortKey)
    requires Indexable(x, mode) && AllIndexable(gs, mode)
    requires SortedDesc(gs, mode)
    ensures WithKey(InsertDesc(x, gs, mode), mode, key)
         == WithKey(gs, mode, key) + (if KeyOf(x, mode) == key then [x] else [])
  {
    if |gs| == 0 {
      assert InsertDesc(x, gs, mode) == [x];
    } else if KeyLess(KeyOf(gs[0], mode), KeyOf(x, mode)) {
      assert InsertDesc(x, gs, mode) == [x] + gs;
      InsertAtFrontStable(x, gs, mode, key);
    } else {
      SortedTail(gs, mode);
      InsertDescStable(x, gs[1..], mode, key);
      InsertBehindStable(x, gs, mode, key);
    }
  }

  /** The step of InsertDescStable where x goes behind the head of gs. */
  lemma InsertBehindStable(x: Group, gs: seq<Group>, mode: GroupBy, key: SortKey)
    requires Indexable(x, mode) && AllIndexable(gs, mode)
    requires |gs| > 0 && !KeyLess(KeyOf(gs[0], mode), KeyOf(x, mode))
    requires WithKey(InsertDesc(x, gs[1..], mode), mode, key)
          == WithKey(gs[1..], mode, key) + (if KeyOf(x, mode) == key then [x] else [])
    ensures WithKey(InsertDesc(x, gs, mode), mode, key)
         == WithKey(gs, mode, key) + (if KeyOf(x, mode) == key then [x] else [])
  {
    var r := InsertDesc(x, gs, mode);
    var rest := InsertDesc(x, gs[1..], mode);
    assert r == [gs[0]] + rest;
    assert r[0] == gs[0];
    assert r[1..] == rest;
    var head := if KeyOf(gs[0], mode) == key then [gs[0]] else [];
    var tail := if KeyOf(x, mode) == key then [x] else [];
    assert WithKey(r, mode, key) == head + WithKey(rest, mode, key);
    assert WithKey(gs, mode, key) == head + WithKey(gs[1..], mode, key);
    assert head + (WithKey(gs[1..], mode, key) + tail) == (head + WithKey(gs[1..], mode, key)) + tail;
  }

  /** Groups with equal keys keep their relative order (Python's sort is stable, also
      with reverse=True). */
  lemma {:induction false} SortGroupsStable(gs: seq<Group>, mode: GroupBy, key: SortKey)
    requires AllIndexable(gs, mode)
    ensures WithKey(SortGroups(gs, mode), mode, key) == WithKey(gs, mode, key)
  {
    if |gs| > 0 {
      var prefix := gs[..|gs| - 1];
      var last := gs[|gs| - 1];
      assert gs == prefix + [last];
      WithKeyAppend(prefix, [last], mode, key);
      assert WithKey([last], mode, key) == if KeyOf(last, mode) == key then [last] else [];
      SortGroupsStable(prefix, mode, key);
      SortGroupsSorted(prefix, mode);
      InsertDescStable(last, SortGroups(prefix, mode), mode, key);
    }
  }

  /** Inserting a group with a new key keeps the keys distinct. */
  lemma {:induction false} InsertDescDistinct(x: Group, gs: seq<Group>, mode: GroupBy)
    requires Indexable(x, mode) && AllIndexable(gs, mode)
    requires DistinctKeys(gs) && !HasKey(gs, x.key)
    ensures DistinctKeys(InsertDesc(x, gs, mode))
  {
    var r := InsertDesc(x, gs, mode);
    if |gs| > 0 && !KeyLess(KeyOf(gs[0], mode), KeyOf(x, mode)) {
      var rest := InsertDesc(x, gs[1..], mode);
      InsertDescDistinct(x, gs[1..], mode);
      forall j | 0 <= j < |rest|
        ensures rest[j].key != gs[0].key
      {
        InsertDescFrom(x, gs[1..], mode, rest[j]);
        if rest[j] != x {
          var k :| 0 <= k < |gs[1..]| && gs[1..][k] == rest[j];
          assert gs[k + 1] == rest[j];
        }
      }
      assert r == [gs[0]] + rest;
      assert r[1..] == rest;
    }
  }

  /** Sorting a dictionary's items keeps each key once. */
  lemma {:induction false} SortGroupsDistinct(gs: seq<Group>, mode: GroupBy)
    requires AllIndexable(gs, mode)
    requires DistinctKeys(gs)
    ensures DistinctKeys(SortGroups(gs, mode))
  {
    if |gs| > 0 {
      var prefix := gs[..|gs| - 1];
      var last := gs[|gs| - 1];
      var sorted := SortGroups(prefix, mode);
      SortGroupsDistinct(prefix, mode);
      SortGroupsPermutes(prefix, mode);
      forall j | 0 <= j < |sorted|
        ensures sorted[j].key != last.key
      {
        assert sorted[j] in multiset(prefix);
        var i :| 0 <= i < |prefix| && prefix[i] == sorted[j];
        assert gs[i] == prefix[i];
      }
      InsertDescDistinct(last, sorted, mode);
    }
  }
}
