/** Canonical bytes: object keys sorted at every level, arrays left alone, printed
    without white space. Equal bytes mean equal documents up to the order of keys. */
module Canonical {
  import opened Basics
  import opened Sorting
  import opened Json

  function Canon(v: Json): Json
    decreases v, 0
  {
    match v
    case Arr(items) => Arr(CanonItems(items))
    case Obj(members) => Obj(Sort(CanonMembers(members)))
    case _ => v
  }

  function CanonItems(items: seq<Json>): (r: seq<Json>)
    ensures |r| == |items|
    ensures forall i | 0 <= i < |r| :: r[i] == Canon(items[i])
    decreases items, 0
  {
    if items == [] then [] else [Canon(items[0])] + CanonItems(items[1..])
  }

  function CanonMembers(members: Members): (r: Members)
    ensures |r| == |members|
    ensures forall i | 0 <= i < |r| :: r[i].key == members[i].key && r[i].value == Canon(members[i].value)
    decreases members, 0
  {
    if members == [] then []
    else [Entry(members[0].key, Canon(members[0].value))] + CanonMembers(members[1..])
  }

  function CanonicalBytes(v: Json): Bytes {
    Print(Canon(v))
  }

  /** No object of the value repeats a key. */
  ghost predicate WellFormed(v: Json)
    decreases v
  {
    match v
    case Arr(items) => forall i | 0 <= i < |items| :: WellFormed(items[i])
    case Obj(members) =>
      && DistinctKeys(members)
      && forall i | 0 <= i < |members| :: WellFormed(members[i].value)
    case _ => true
  }

  /** Equality up to reordering the members of objects, at every level. */
  ghost predicate Equivalent(a: Json, b: Json)
    decreases a
  {
    if a.Arr? && b.Arr? then
      && |a.items| == |b.items|
      && forall i | 0 <= i < |a.items| :: Equivalent(a.items[i], b.items[i])
    else if a.Obj? && b.Obj? then
      && |a.members| == |b.members|
      && forall i | 0 <= i < |a.members| ::
           exists j :: 0 <= j < |b.members|
             && a.members[i].key == b.members[j].key
             && Equivalent(a.members[i].value, b.members[j].value)
    else a == b
  }

  lemma {:induction false} CanonEquivalent(a: Json, b: Json)
    requires WellFormed(a) && WellFormed(b)
    ensures Canon(a) == Canon(b) <==> Equivalent(a, b)
    decreases a, 1
  {
    if a.Arr? && b.Arr? {
      if |a.items| == |b.items| {
        forall i | 0 <= i < |a.items|
          ensures Canon(a.items[i]) == Canon(b.items[i]) <==> Equivalent(a.items[i], b.items[i])
        {
          CanonEquivalent(a.items[i], b.items[i]);
        }
        assert CanonItems(a.items) == CanonItems(b.items) <==>
          forall i | 0 <= i < |a.items| :: CanonItems(a.items)[i] == CanonItems(b.items)[i];
      } else {
        assert |CanonItems(a.items)| != |CanonItems(b.items)|;
      }
    } else if a.Obj? && b.Obj? {
      var ca, cb := CanonMembers(a.members), CanonMembers(b.members);
      SortCanonical(ca, cb);
      if Canon(a) == Canon(b) {
        assert |ca| == |Sort(ca)| == |Sort(cb)| == |cb|;
        EquivalentMembers(a, b);
      }
      if Equivalent(a, b) {
        SameCanonMembers(a, b);
      }
    }
  }

  lemma {:induction false} EquivalentMembers(a: Json, b: Json)
    requires WellFormed(a) && WellFormed(b) && a.Obj? && b.Obj?
    requires |a.members| == |b.members|
    requires forall e :: e in CanonMembers(a.members) <==> e in CanonMembers(b.members)
    ensures Equivalent(a, b)
    decreases a, 0
  {
    var ca, cb := CanonMembers(a.members), CanonMembers(b.members);
    forall i | 0 <= i < |a.members|
      ensures exists j :: 0 <= j < |b.members|
                && a.members[i].key == b.members[j].key
                && Equivalent(a.members[i].value, b.members[j].value)
    {
      assert ca[i] in ca;
      var j :| 0 <= j < |cb| && cb[j] == ca[i];
      CanonEquivalent(a.members[i].value, b.members[j].value);
    }
  }

  lemma {:induction false} SameCanonMembers(a: Json, b: Json)
    requires WellFormed(a) && WellFormed(b) && a.Obj? && b.Obj?
    requires Equivalent(a, b)
    ensures forall e :: e in CanonMembers(a.members) <==> e in CanonMembers(b.members)
    decreases a, 0
  {
    var ca, cb := CanonMembers(a.members), CanonMembers(b.members);
    forall e | e in ca
      ensures e in cb
    {
      var i :| 0 <= i < |ca| && ca[i] == e;
      var j :| 0 <= j < |b.members|
        && a.members[i].key == b.members[j].key
        && Equivalent(a.members[i].value, b.members[j].value);
      CanonEquivalent(a.members[i].value, b.members[j].value);
      assert cb[j] == e;
    }
    SameElements(ca, cb);
  }

  /** Canonical bytes identify a document exactly up to the order of its keys. */
  lemma CanonicalBytesInjective(a: Json, b: Json)
    requires WellFormed(a) && WellFormed(b)
    ensures CanonicalBytes(a) == CanonicalBytes(b) <==> Equivalent(a, b)
  {
    ParseUndoesPrint(Canon(a));
    ParseUndoesPrint(Canon(b));
    CanonEquivalent(a, b);
  }

  /** The parser reads canonical bytes back as the sorted document. */
  lemma ParseCanonical(v: Json)
    ensures Parse(CanonicalBytes(v)) == Some(Canon(v))
  {
    ParseUndoesPrint(Canon(v));
  }

  // ----- size --------------------------------------------------------------------------

  /** Total printed length of the members, one separator each. */
  function MembersSize(members: Members): nat {
    if members == [] then 0 else 1 + |PrintMember(members[0])| + MembersSize(members[1..])
  }

  lemma {:induction false} MembersSizeIsLength(members: Members)
    ensures |PrintMembers(members)| == MembersSize(members)
  {
    if members != [] { MembersSizeIsLength(members[1..]); }
  }

  lemma {:induction false} MembersSizeConcat(a: Members, b: Members)
    ensures MembersSize(a + b) == MembersSize(a) + MembersSize(b)
  {
    if a == [] {
      assert a + b == b;
    } else {
      assert (a + b)[1..] == a[1..] + b;
      MembersSizeConcat(a[1..], b);
    }
  }

  lemma {:induction false} MembersSizeInsert(m: Entry<Json>, s: Members)
    ensures MembersSize(Insert(m, s)) == 1 + |PrintMember(m)| + MembersSize(s)
  {
    if s == [] || Less(m.key, s[0].key) {
      assert ([m] + s)[1..] == s;
    } else {
      MembersSizeInsert(m, s[1..]);
      assert ([s[0]] + Insert(m, s[1..]))[1..] == Insert(m, s[1..]);
    }
  }

  lemma {:induction false} MembersSizeSort(s: Members)
    ensures MembersSize(Sort(s)) == MembersSize(s)
  {
    if s != [] {
      MembersSizeSort(s[1..]);
      MembersSizeInsert(s[0], Sort(s[1..]));
    }
  }

  /** Sorting moves members around but neither adds nor removes an octet. */
  lemma ObjectSize(members: Members)
    requires members != []
    ensures |CanonicalBytes(Obj(members))| == 1 + MembersSize(CanonMembers(members))
  {
    var sorted := Sort(CanonMembers(members));
    MembersSizeSort(CanonMembers(members));
    MembersSizeIsLength(sorted[1..]);
  }

  lemma {:induction false} CanonMembersConcat(a: Members, b: Members)
    ensures CanonMembers(a + b) == CanonMembers(a) + CanonMembers(b)
  {
  }

  /** Adding one member to a non-empty object costs a comma, the quoted key, a colon
      and the canonical value, wherever the key sorts. */
  lemma ObjectSizeAfterInsert(members: Members, m: Entry<Json>)
    requires members != []
    ensures |CanonicalBytes(Obj(members + [m]))| ==
      |CanonicalBytes(Obj(members))| + 1 + |Quote(m.key)| + 1 + |CanonicalBytes(m.value)|
  {
    ObjectSize(members);
    ObjectSize(members + [m]);
    CanonMembersConcat(members, [m]);
    MembersSizeConcat(CanonMembers(members), CanonMembers([m]));
    var one := CanonMembers([m]);
    assert one == [Entry(m.key, Canon(m.value))];
    assert one[1..] == [];
    assert MembersSize(one) == 1 + |PrintMember(one[0])|;
  }

  // ----- the imperative form -----------------------------------------------------------

  /** Sorting as the original does it: the keys of each object are put in order, then a
      fresh map is filled with the recursively sorted values. */
  method SortKeysRecursively(v: Json) returns (r: Json)
    ensures r == Canon(v)
    decreases v
  {
    match v
    case Arr(items) =>
      var done: seq<Json> := [];
      for i := 0 to |items|
        invariant |done| == i
        invariant forall k | 0 <= k < i :: done[k] == Canon(items[k])
      {
        var item := SortKeysRecursively(items[i]);
        done := done + [item];
      }
      assert done == CanonItems(items);
      r := Arr(done);
    case Obj(members) =>
      var sorted: Members := [];
      var i := |members|;
      assert CanonMembers(members)[i..] == [];
      while i > 0
        invariant 0 <= i <= |members|
        invariant sorted == Sort(CanonMembers(members)[i..])
      {
        i := i - 1;
        var value := SortKeysRecursively(members[i].value);
        ghost var rest := CanonMembers(members)[i..];
        assert rest[0] == Entry(members[i].key, value);
        assert rest[1..] == CanonMembers(members)[i + 1..];
        sorted := Insert(Entry(members[i].key, value), sorted);
      }
      r := Obj(sorted);
    case _ => r := v;
  }
}
