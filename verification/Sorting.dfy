/** Sorting keyed entries by the byte-wise order of their keys, and looking them up. */
module Sorting {
  import opened Basics

  datatype Entry<V> = Entry(key: Bytes, value: V)

  predicate DistinctKeys<V>(s: seq<Entry<V>>) {
    forall i, j | 0 <= i < j < |s| :: s[i].key != s[j].key
  }

  ghost predicate HasKey<V>(s: seq<Entry<V>>, key: Bytes) {
    exists i :: 0 <= i < |s| && s[i].key == key
  }

  ghost predicate SortedByKey<V>(s: seq<Entry<V>>) {
    forall i, j | 0 <= i < j < |s| :: Less(s[i].key, s[j].key)
  }

  /** Value of the first entry that carries `key`. */
  function Lookup<V>(s: seq<Entry<V>>, key: Bytes): (r: Option<V>)
    ensures r.Some? <==> HasKey(s, key)
    ensures r.Some? ==> Entry(key, r.value) in s
  {
    if s == [] then None
    else if s[0].key == key then Some(s[0].value)
    else
      assert forall i | 1 <= i < |s| :: s[i] == s[1..][i - 1];
      Lookup(s[1..], key)
  }

  function Insert<V>(x: Entry<V>, s: seq<Entry<V>>): (r: seq<Entry<V>>)
    ensures |r| == |s| + 1
  {
    if s == [] || Less(x.key, s[0].key) then [x] + s
    else [s[0]] + Insert(x, s[1..])
  }

  function Sort<V>(s: seq<Entry<V>>): (r: seq<Entry<V>>)
    ensures |r| == |s|
  {
    if s == [] then [] else Insert(s[0], Sort(s[1..]))
  }

  lemma {:induction false} InsertMultiset<V>(x: Entry<V>, s: seq<Entry<V>>)
    ensures multiset(Insert(x, s)) == multiset(s) + multiset{x}
  {
    if s == [] || Less(x.key, s[0].key) {
    } else {
      InsertMultiset(x, s[1..]);
      assert s == [s[0]] + s[1..];
    }
  }

  lemma {:induction false} SortMultiset<V>(s: seq<Entry<V>>)
    ensures multiset(Sort(s)) == multiset(s)
  {
    if s != [] {
      SortMultiset(s[1..]);
      InsertMultiset(s[0], Sort(s[1..]));
      assert s == [s[0]] + s[1..];
    }
  }

  lemma SameMultisetMember<V>(a: seq<Entry<V>>, b: seq<Entry<V>>, e: Entry<V>)
    requires multiset(a) == multiset(b) && e in a
    ensures e in b
  {
    assert e in multiset(a);
  }

  lemma SortElements<V>(s: seq<Entry<V>>)
    ensures forall e :: e in Sort(s) <==> e in s
  {
    SortMultiset(s);
    forall e
      ensures e in Sort(s) <==> e in s
    {
      if e in s { SameMultisetMember(s, Sort(s), e); }
      if e in Sort(s) { SameMultisetMember(Sort(s), s, e); }
    }
  }

  lemma {:induction false} InsertSorted<V>(x: Entry<V>, s: seq<Entry<V>>)
    requires SortedByKey(s) && !HasKey(s, x.key)
    ensures SortedByKey(Insert(x, s))
  {
    if s == [] {
    } else if Less(x.key, s[0].key) {
      forall j | 0 < j < |s|
        ensures Less(x.key, s[j].key)
      {
        LessTransitive(x.key, s[0].key, s[j].key);
      }
    } else {
      var tail := s[1..];
      assert forall i | 0 <= i < |tail| :: tail[i] == s[i + 1];
      InsertSorted(x, tail);
      LessTotal(x.key, s[0].key);
      var r := Insert(x, tail);
      InsertMultiset(x, tail);
      assert multiset(tail + [x]) == multiset(tail) + multiset{x};
      forall j | 0 <= j < |r|
        ensures Less(s[0].key, r[j].key)
      {
        SameMultisetMember(r, tail + [x], r[j]);
      }
    }
  }

  lemma {:induction false} SortSorted<V>(s: seq<Entry<V>>)
    requires DistinctKeys(s)
    ensures SortedByKey(Sort(s))
  {
    if s != [] {
      var tail := s[1..];
      assert forall i | 0 <= i < |tail| :: tail[i] == s[i + 1];
      SortSorted(tail);
      SortMultiset(tail);
      forall i | 0 <= i < |Sort(tail)|
        ensures Sort(tail)[i].key != s[0].key
      {
        SameMultisetMember(Sort(tail), tail, Sort(tail)[i]);
      }
      InsertSorted(s[0], Sort(tail));
    }
  }

  lemma SortedDistinct<V>(s: seq<Entry<V>>)
    requires SortedByKey(s)
    ensures DistinctKeys(s)
  {
    forall i, j | 0 <= i < j < |s|
      ensures s[i].key != s[j].key
    {
      LessIrreflexive(s[i].key);
    }
  }

  lemma SortDistinct<V>(s: seq<Entry<V>>)
    requires DistinctKeys(s)
    ensures DistinctKeys(Sort(s))
  {
    SortSorted(s);
    SortedDistinct(Sort(s));
  }

  lemma SortedHeads<V>(a: seq<Entry<V>>, b: seq<Entry<V>>)
    requires SortedByKey(a) && SortedByKey(b) && a != [] && b != []
    requires a[0] in b && b[0] in a
    ensures a[0] == b[0]
  {
    LessIrreflexive(a[0].key);
    if Less(a[0].key, b[0].key) && Less(b[0].key, a[0].key) {
      LessTransitive(a[0].key, b[0].key, a[0].key);
    }
  }

  lemma FirstElement<V>(s: seq<Entry<V>>) returns (e: Entry<V>)
    requires s != []
    ensures e in s
  {
    e := s[0];
  }

  /** A sorted sequence is determined by the elements it holds. */
  lemma {:induction false} SortedUnique<V>(a: seq<Entry<V>>, b: seq<Entry<V>>)
    requires SortedByKey(a) && SortedByKey(b)
    requires forall e :: e in a <==> e in b
    ensures a == b
  {
    if a == [] {
      if b != [] { var _ := FirstElement(b); }
    } else {
      assert a[0] in b && b[0] in a;
      SortedHeads(a, b);
      LessIrreflexive(a[0].key);
      forall e
        ensures e in a[1..] <==> e in b[1..]
      {
        if e in a[1..] {
          assert e in a && e.key != a[0].key;
        }
        if e in b[1..] {
          assert e in b && e.key != b[0].key;
        }
      }
      SortedUnique(a[1..], b[1..]);
      assert a == [a[0]] + a[1..];
      assert b == [b[0]] + b[1..];
    }
  }

  /** The original's order of entries does not matter once they are sorted. */
  lemma SortCanonical<V>(a: seq<Entry<V>>, b: seq<Entry<V>>)
    requires DistinctKeys(a) && DistinctKeys(b)
    ensures Sort(a) == Sort(b) <==> (forall e :: e in a <==> e in b)
  {
    SortElements(a);
    SortElements(b);
    SortSorted(a);
    SortSorted(b);
    if forall e :: e in a <==> e in b {
      SortedUnique(Sort(a), Sort(b));
    }
  }

  ghost function Elements<V>(s: seq<Entry<V>>): set<Entry<V>> {
    set e | e in s
  }

  lemma {:induction false} DistinctCount<V>(s: seq<Entry<V>>)
    requires DistinctKeys(s)
    ensures |Elements(s)| == |s|
  {
    if s != [] {
      DistinctCount(s[1..]);
      assert Elements(s) == {s[0]} + Elements(s[1..]);
      assert s[0] !in s[1..];
    }
  }

  lemma SubsetCount<T>(a: set<T>, b: set<T>)
    requires a <= b && |a| == |b|
    ensures a == b
  {
    assert b == a + (b - a);
    assert |b| == |a| + |b - a|;
  }

  /** Equally many distinct entries, all of them shared, are the same entries. */
  lemma SameElements<V>(a: seq<Entry<V>>, b: seq<Entry<V>>)
    requires DistinctKeys(a) && DistinctKeys(b) && |a| == |b|
    requires forall e :: e in a ==> e in b
    ensures forall e :: e in a <==> e in b
  {
    DistinctCount(a);
    DistinctCount(b);
    SubsetCount(Elements(a), Elements(b));
    assert forall e :: e in b ==> e in Elements(a);
  }

  /** Lookup sees only which entries are there, not where. */
  lemma LookupSameElements<V>(a: seq<Entry<V>>, b: seq<Entry<V>>, key: Bytes)
    requires DistinctKeys(a) && DistinctKeys(b)
    requires forall e :: e in a <==> e in b
    ensures Lookup(a, key) == Lookup(b, key)
  {
  }

  lemma LookupSort<V>(s: seq<Entry<V>>, key: Bytes)
    requires DistinctKeys(s)
    ensures Lookup(Sort(s), key) == Lookup(s, key)
  {
    SortElements(s);
    SortDistinct(s);
    LookupSameElements(Sort(s), s, key);
  }
}
