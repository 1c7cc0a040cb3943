/** The `TreeMap<String, String>` the signer fills: a map kept in ascending key
    order (`String.compareTo`), where a later `put` of a key overwrites its value. */
module SortedMaps {
  import opened JavaText

  type Entry = (JString, JString)

  /** Ascending by `compareTo`; in particular no key occurs twice. */
  ghost predicate StrictlySorted(ks: seq<JString>) {
    forall i, j | 0 <= i < j < |ks| :: Less(ks[i], ks[j])
  }

  /** `ks` lists exactly the keys of `m`. */
  ghost predicate ListsKeys(ks: seq<JString>, m: map<JString, JString>) {
    forall k :: k in ks <==> k in m
  }

  /** The entries of a Java `Map` have distinct keys. */
  ghost predicate DistinctKeys(es: seq<Entry>) {
    forall i, j | 0 <= i < j < |es| :: es[i].0 != es[j].0
  }

  /** The map holding the entries `es`, put one after another (`putAll`). */
  function MapOf(es: seq<Entry>): (m: map<JString, JString>)
    ensures forall k :: k in m <==> exists i | 0 <= i < |es| :: es[i].0 == k
    decreases |es|
  {
    if es == [] then map[]
    else
      var last := es[|es| - 1];
      var m := MapOf(es[..|es| - 1])[last.0 := last.1];
      assert forall i | 0 <= i < |es| - 1 :: es[..|es| - 1][i] == es[i];
      m
  }

  /** Putting the entries of a Java `Map` loses none of them. */
  lemma {:induction false} MapOfDistinct(es: seq<Entry>)
    requires DistinctKeys(es)
    ensures forall i | 0 <= i < |es| :: es[i].0 in MapOf(es) && MapOf(es)[es[i].0] == es[i].1
    decreases |es|
  {
    if es != [] {
      var init := es[..|es| - 1];
      MapOfDistinct(init);
      forall i | 0 <= i < |es| - 1
        ensures MapOf(es)[es[i].0] == es[i].1
      {
        assert init[i] == es[i];
        assert es[i].0 != es[|es| - 1].0;
      }
    }
  }

  /** Two Java maps with the same entries, in whatever iteration order, fill
      a map with the same contents. */
  lemma MapOfSameEntries(es1: seq<Entry>, es2: seq<Entry>)
    requires DistinctKeys(es1) && DistinctKeys(es2)
    requires forall e :: e in es1 <==> e in es2
    ensures MapOf(es1) == MapOf(es2)
  {
    MapOfDistinct(es1);
    MapOfDistinct(es2);
    var m1, m2 := MapOf(es1), MapOf(es2);
    forall k | k in m1
      ensures k in m2 && m1[k] == m2[k]
    {
      var i :| 0 <= i < |es1| && es1[i].0 == k;
      assert es1[i] in es2;
    }
    forall k | k in m2
      ensures k in m1
    {
      var j :| 0 <= j < |es2| && es2[j].0 == k;
      assert es2[j] in es1;
    }
  }

  /** `ks` with `k` inserted at its place in the order (unchanged when present). */
  function Insert(ks: seq<JString>, k: JString): seq<JString>
    decreases |ks|
  {
    if ks == [] then [k]
    else if ks[0] == k then ks
    else if Less(k, ks[0]) then [k] + ks
    else [ks[0]] + Insert(ks[1..], k)
  }

  lemma {:induction false} InsertSorted(ks: seq<JString>, k: JString)
    requires StrictlySorted(ks)
    ensures StrictlySorted(Insert(ks, k))
    ensures forall x :: x in Insert(ks, k) <==> x in ks || x == k
    decreases |ks|
  {
    if ks != [] && ks[0] != k {
      if Less(k, ks[0]) {
        forall j | 0 <= j < |ks|
          ensures Less(k, ks[j])
        {
          if j > 0 {
            LessTransitive(k, ks[0], ks[j]);
          }
        }
        var r := [k] + ks;
        assert forall j | 1 <= j < |r| :: r[j] == ks[j - 1];
      } else {
        LessTotal(k, ks[0]);
        InsertSorted(ks[1..], k);
        var r := Insert(ks[1..], k);
        forall x | x in r
          ensures Less(ks[0], x)
        {
          if x != k {
            var j :| 0 <= j < |ks[1..]| && ks[1..][j] == x;
            assert ks[j + 1] == x;
          }
        }
        assert Insert(ks, k) == [ks[0]] + r;
      }
    }
  }

  /** A set of keys has exactly one ascending listing: two strictly sorted
      sequences with the same elements are equal. */
  lemma {:induction false} SortedUnique(a: seq<JString>, b: seq<JString>)
    requires StrictlySorted(a) && StrictlySorted(b)
    requires forall k :: k in a <==> k in b
    ensures a == b
    decreases |a|
  {
    assert b != [] ==> b[0] in b;
    if a != [] {
      assert a[0] in b;
      assert b != [] && b[0] in a;
      if a[0] != b[0] {
        var i :| 0 <= i < |a| && a[i] == b[0];
        var j :| 0 <= j < |b| && b[j] == a[0];
        LessAsymmetric(a[0], a[i]);
        assert false;
      }
      assert a == [a[0]] + a[1..] && b == [b[0]] + b[1..];
      forall k
        ensures k in a[1..] <==> k in b[1..]
      {
        assert k in a <==> k == a[0] || k in a[1..];
        assert k in b <==> k == b[0] || k in b[1..];
        if k in a[1..] {
          var i :| 0 <= i < |a[1..]| && a[1..][i] == k;
          assert Less(a[0], a[i + 1]);
          LessIrreflexive(a[0]);
        }
        if k in b[1..] {
          var j :| 0 <= j < |b[1..]| && b[1..][j] == k;
          assert Less(b[0], b[j + 1]);
          LessIrreflexive(b[0]);
        }
      }
      SortedUnique(a[1..], b[1..]);
      assert a == [a[0]] + a[1..] && b == [b[0]] + b[1..];
    }
  }

  lemma {:induction false} SortedListingExists(s: set<JString>)
    ensures exists ks :: StrictlySorted(ks) && forall k :: k in ks <==> k in s
    decreases s
  {
    if s == {} {
      assert StrictlySorted([]);
    } else {
      var x :| x in s;
      SortedListingExists(s - {x});
      var ks :| StrictlySorted(ks) && forall k :: k in ks <==> k in s - {x};
      InsertSorted(ks, x);
      var r := Insert(ks, x);
      assert StrictlySorted(r) && forall k :: k in r <==> k in s;
    }
  }

  /** The keys of `m` in the order a `TreeMap` iterates them. */
  ghost function SortedKeys(m: map<JString, JString>): (ks: seq<JString>)
    ensures StrictlySorted(ks) && ListsKeys(ks, m)
  {
    SortedListingExists(m.Keys);
    var ks :| StrictlySorted(ks) && forall k :: k in ks <==> k in m.Keys;
    ks
  }

  /** A `TreeMap<String, String>`: `keys` is the iteration order and
      `values` the mapping. */
  class TreeMap {
    var keys: seq<JString>
    var values: map<JString, JString>

    ghost predicate Valid()
      reads this
    {
      StrictlySorted(keys) && ListsKeys(keys, values)
    }

    /** `new TreeMap<>(m)`: a sorted copy of the entries of `m`. */
    constructor (es: seq<Entry>)
      ensures Valid()
      ensures values == MapOf(es)
      ensures keys == SortedKeys(values)
    {
      keys := [];
      values := map[];
      new;
      var i := 0;
      while i < |es|
        invariant 0 <= i <= |es|
        invariant Valid()
        invariant values == MapOf(es[..i])
      {
        Put(es[i].0, es[i].1);
        assert es[..i + 1][..i] == es[..i];
        i := i + 1;
      }
      assert es[..i] == es;
      SortedUnique(keys, SortedKeys(values));
    }

    /** `put(k, v)`: `k` now maps to `v`, every other entry is unchanged,
        and the keys stay in ascending order. */
    method Put(k: JString, v: JString)
      requires Valid()
      modifies this
      ensures Valid()
      ensures values == old(values)[k := v]
      ensures keys == SortedKeys(values)
    {
      var i := 0;
      while i < |keys| && Less(keys[i], k)
        invariant 0 <= i <= |keys|
        invariant forall j | 0 <= j < i :: Less(keys[j], k)
      {
        i := i + 1;
      }
      if i == |keys| || keys[i] != k {
        if i < |keys| {
          LessTotal(k, keys[i]);
          forall j | i <= j < |keys|
            ensures Less(k, keys[j])
          {
            if j > i {
              LessTransitive(k, keys[i], keys[j]);
            }
          }
        }
        keys := keys[..i] + [k] + keys[i..];
      }
      values := values[k := v];
      SortedUnique(keys, SortedKeys(values));
    }
  }
}
