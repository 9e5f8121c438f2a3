/** An insertion-ordered multimap from keys to lists of lines: the `defaultdict(list)`
    that get_records fills, read back in insertion order as a `dict`. */
module Multimap {

  /** One entry: a key and the lines accumulated under it, oldest first. */
  datatype Group = Group(key: string, values: seq<string>)

  function KeysOf(m: seq<Group>): (ks: seq<string>)
    ensures |ks| == |m|
    ensures forall i :: 0 <= i < |m| ==> ks[i] == m[i].key
  {
    seq(|m|, i requires 0 <= i < |m| => m[i].key)
  }

  predicate Distinct(ks: seq<string>) {
    forall i, j :: 0 <= i < j < |ks| ==> ks[i] != ks[j]
  }

  /** A dictionary holds each key once. */
  predicate DistinctKeys(m: seq<Group>) {
    forall i, j :: 0 <= i < j < |m| ==> m[i].key != m[j].key
  }

  /** Some entry of m has key k. */
  predicate HasKey(m: seq<Group>, k: string) {
    exists i :: 0 <= i < |m| && m[i].key == k
  }

  /** The lines under k; as with a `defaultdict(list)`, an absent key reads as empty. */
  function Get(m: seq<Group>, k: string): (vs: seq<string>)
    ensures !HasKey(m, k) ==> vs == []
  {
    if |m| == 0 then []
    else if m[0].key == k then m[0].values
    else Get(m[1..], k)
  }

  /** Number of lines over all entries (the sum of the group lengths). */
  function TotalSize(m: seq<Group>): nat {
    if |m| == 0 then 0 else |m[0].values| + TotalSize(m[1..])
  }

  /** `d[k].append(...)` / `d[k].extend(vs)` on a defaultdict: vs goes after the lines
      already under k, and a new key takes the last place in insertion order. */
  function Insert(m: seq<Group>, k: string, vs: seq<string>): (r: seq<Group>)
    ensures |r| == if HasKey(m, k) then |m| else |m| + 1
  {
    if |m| == 0 then [Group(k, vs)]
    else if m[0].key == k then [Group(k, m[0].values + vs)] + m[1..]
    else [m[0]] + Insert(m[1..], k, vs)
  }

  lemma KeysOfCons(m: seq<Group>)
    requires |m| > 0
    ensures KeysOf(m) == [m[0].key] + KeysOf(m[1..])
  {
    var l, r := KeysOf(m), [m[0].key] + KeysOf(m[1..]);
    forall i | 0 <= i < |l|
      ensures l[i] == r[i]
    {
      if i > 0 {
        assert m[1..][i - 1] == m[i];
      }
    }
  }

  lemma HasKeyCons(m: seq<Group>, k: string)
    requires |m| > 0
    ensures HasKey(m, k) <==> m[0].key == k || HasKey(m[1..], k)
  {
    if HasKey(m, k) && m[0].key != k {
      var i :| 0 <= i < |m| && m[i].key == k;
      assert m[1..][i - 1] == m[i];
    }
    if HasKey(m[1..], k) {
      var i :| 0 <= i < |m[1..]| && m[1..][i].key == k;
      assert m[i + 1] == m[1..][i];
    }
  }

  /** Appending under an existing key leaves the key order alone; a new key goes last. */
  lemma {:induction false} InsertKeys(m: seq<Group>, k: string, vs: seq<string>)
    ensures KeysOf(Insert(m, k, vs)) == if HasKey(m, k) then KeysOf(m) else KeysOf(m) + [k]
  {
    var r := Insert(m, k, vs);
    if |m| == 0 {
      assert !HasKey(m, k);
    } else {
      HasKeyCons(m, k);
      KeysOfCons(r);
      KeysOfCons(m);
      if m[0].key == k {
        assert r[1..] == m[1..];
      } else {
        var rest := Insert(m[1..], k, vs);
        InsertKeys(m[1..], k, vs);
        assert r[1..] == rest;
      }
    }
  }

  /** Appending under a key keeps every key held once. */
  lemma InsertDistinct(m: seq<Group>, k: string, vs: seq<string>)
    requires DistinctKeys(m)
    ensures DistinctKeys(Insert(m, k, vs))
  {
    var r := Insert(m, k, vs);
    InsertKeys(m, k, vs);
    forall i, j | 0 <= i < j < |r|
      ensures r[i].key != r[j].key
    {
      assert KeysOf(r)[i] == r[i].key && KeysOf(r)[j] == r[j].key;
      if !HasKey(m, k) && j == |m| {
        assert KeysOf(r)[i] == m[i].key;
      }
    }
  }

  /** After Insert(m, k, vs), k reads as its old lines followed by vs and every other key
      reads as before. */
  lemma {:induction false} InsertGet(m: seq<Group>, k: string, vs: seq<string>, k': string)
    ensures Get(Insert(m, k, vs), k') == Get(m, k') + (if k' == k then vs else [])
  {
    var r := Insert(m, k, vs);
    if |m| == 0 {
      assert Get(m, k') == [];
    } else if m[0].key == k {
      assert r[1..] == m[1..];
    } else {
      InsertGet(m[1..], k, vs, k');
      assert r[1..] == Insert(m[1..], k, vs);
    }
  }

  /** Insert(m, k, vs) holds |vs| more lines than m. */
  lemma {:induction false} InsertSize(m: seq<Group>, k: string, vs: seq<string>)
    ensures TotalSize(Insert(m, k, vs)) == TotalSize(m) + |vs|
  {
    var r := Insert(m, k, vs);
    if |m| > 0 && m[0].key == k {
      assert r[1..] == m[1..];
    } else if |m| > 0 {
      InsertSize(m[1..], k, vs);
      assert r[1..] == Insert(m[1..], k, vs);
    }
  }

  /** The lines of every pair of cs whose key is k, concatenated in order. */
  function Collect(cs: seq<Group>, k: string): seq<string> {
    if |cs| == 0 then []
    else Collect(cs[..|cs| - 1], k) + (if cs[|cs| - 1].key == k then cs[|cs| - 1].values else [])
  }

  /** One more pair adds its lines at the end of its own key and nowhere else. */
  lemma CollectAppend(cs: seq<Group>, g: Group, k: string)
    ensures Collect(cs + [g], k) == Collect(cs, k) + (if g.key == k then g.values else [])
  {
    assert (cs + [g])[..|cs|] == cs;
  }

  /** Every line read under k was written by a pair with key k. */
  lemma {:induction false} CollectOrigin(cs: seq<Group>, k: string, x: string)
    requires x in Collect(cs, k)
    ensures exists g :: g in cs && g.key == k && x in g.values
  {
    var prefix := cs[..|cs| - 1];
    var last := cs[|cs| - 1];
    if x in Collect(prefix, k) {
      CollectOrigin(prefix, k, x);
      var g :| g in prefix && g.key == k && x in g.values;
      assert g in cs;
    } else {
      assert last in cs;
    }
  }

  /** The keys of ks in order of first appearance, each once. */
  function Dedup(ks: seq<string>): (r: seq<string>)
    ensures Distinct(r)
    ensures forall x :: x in r <==> x in ks
  {
    if |ks| == 0 then []
    else
      var d := Dedup(ks[..|ks| - 1]);
      var last := ks[|ks| - 1];
      assert ks == ks[..|ks| - 1] + [last];
      if last in d then d else d + [last]
  }

  /** The multimap obtained by inserting the pairs of cs one after another. */
  function FromPairs(cs: seq<Group>): seq<Group> {
    if |cs| == 0 then []
    else
      var last := cs[|cs| - 1];
      Insert(FromPairs(cs[..|cs| - 1]), last.key, last.values)
  }

  /** Merging pairs by key gives a dictionary: every key is held once. */
  lemma {:induction false} FromPairsDistinct(cs: seq<Group>)
    ensures DistinctKeys(FromPairs(cs))
  {
    if |cs| > 0 {
      var last := cs[|cs| - 1];
      FromPairsDistinct(cs[..|cs| - 1]);
      InsertDistinct(FromPairs(cs[..|cs| - 1]), last.key, last.values);
    }
  }

  lemma KeysOfSnoc(m: seq<Group>, g: Group)
    ensures KeysOf(m + [g]) == KeysOf(m) + [g.key]
  {
    var l, r := KeysOf(m + [g]), KeysOf(m) + [g.key];
    assert |l| == |r|;
    forall i | 0 <= i < |l|
      ensures l[i] == r[i]
    {
      if i < |m| {
        assert (m + [g])[i] == m[i];
      }
    }
  }

  lemma HasKeyKeys(m: seq<Group>, k: string)
    ensures HasKey(m, k) <==> k in KeysOf(m)
  {
    if k in KeysOf(m) {
      var i :| 0 <= i < |m| && KeysOf(m)[i] == k;
      assert m[i].key == k;
    }
  }

  lemma DedupSnoc(ks: seq<string>, k: string)
    ensures Dedup(ks + [k]) == if k in Dedup(ks) then Dedup(ks) else Dedup(ks) + [k]
  {
    assert (ks + [k])[..|ks|] == ks;
  }

  lemma InsertKeysDedup(m: seq<Group>, ks: seq<string>, k: string, vs: seq<string>)
    requires KeysOf(m) == Dedup(ks)
    ensures KeysOf(Insert(m, k, vs)) == Dedup(ks + [k])
  {
    InsertKeys(m, k, vs);
    DedupSnoc(ks, k);
    HasKeyKeys(m, k);
  }

  /** Merging pairs by key keeps each key once, in order of first appearance. */
  lemma {:induction false} FromPairsKeys(cs: seq<Group>)
    ensures KeysOf(FromPairs(cs)) == Dedup(KeysOf(cs))
  {
    if |cs| > 0 {
      var prefix := cs[..|cs| - 1];
      var last := cs[|cs| - 1];
      FromPairsKeys(prefix);
      assert cs == prefix + [last];
      KeysOfSnoc(prefix, last);
      InsertKeysDedup(FromPairs(prefix), KeysOf(prefix), last.key, last.values);
    }
  }

  /** Merging pairs by key loses and invents no line: the lines under a key are exactly
      the lines of the pairs with that key, in input order. */
  lemma {:induction false} FromPairsGet(cs: seq<Group>, k: string)
    ensures Get(FromPairs(cs), k) == Collect(cs, k)
  {
    if |cs| > 0 {
      var prefix := cs[..|cs| - 1];
      var last := cs[|cs| - 1];
      FromPairsGet(prefix, k);
      InsertGet(FromPairs(prefix), last.key, last.values, k);
    }
  }

  /** Merging pairs by key keeps the total number of lines. */
  lemma {:induction false} FromPairsSize(cs: seq<Group>)
    ensures TotalSize(FromPairs(cs)) == TotalSize(cs)
  {
    if |cs| > 0 {
      var prefix := cs[..|cs| - 1];
      var last := cs[|cs| - 1];
      FromPairsSize(prefix);
      assert cs == prefix + [last];
      TotalSizeAppend(prefix, [last]);
      InsertSize(FromPairs(prefix), last.key, last.values);
    }
  }

  /** Adding one more pair to cs is one more Insert. */
  lemma FromPairsSnoc(cs: seq<Group>, g: Group)
    ensures FromPairs(cs + [g]) == Insert(FromPairs(cs), g.key, g.values)
  {
    assert (cs + [g])[..|cs|] == cs;
  }

  lemma {:induction false} TotalSizeAppend(a: seq<Group>, b: seq<Group>)
    ensures TotalSize(a + b) == TotalSize(a) + TotalSize(b)
  {
    if |a| > 0 {
      assert (a + b)[0] == a[0];
      assert (a + b)[1..] == a[1..] + b;
      TotalSizeAppend(a[1..], b);
    } else {
      assert a + b == b;
    }
  }

  /** With keys held once, reading the key of an entry yields that entry's lines. */
  lemma {:induction false} GetMember(m: seq<Group>, i: nat)
    requires DistinctKeys(m)
    requires i < |m|
    ensures Get(m, m[i].key) == m[i].values
  {
    if i > 0 {
      assert KeysOf(m)[0] != KeysOf(m)[i];
      assert KeysOf(m[1..]) == KeysOf(m)[1..];
      GetMember(m[1..], i - 1);
    }
  }

  /** Two dictionaries holding the same entries in any order answer every read alike. */
  lemma SameEntriesSameGet(a: seq<Group>, b: seq<Group>)
    requires DistinctKeys(a) && DistinctKeys(b)
    requires multiset(a) == multiset(b)
    ensures forall k :: Get(a, k) == Get(b, k)
  {
    forall k
      ensures Get(a, k) == Get(b, k)
    {
      if i :| 0 <= i < |a| && a[i].key == k {
        assert a[i] in multiset(b);
        var j :| 0 <= j < |b| && b[j] == a[i];
        GetMember(a, i);
        GetMember(b, j);
      } else {
        forall j | 0 <= j < |b|
          ensures b[j].key != k
        {
          assert b[j] in multiset(a);
        }
      }
    }
  }
}
