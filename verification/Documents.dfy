/** Building JSON objects by conditional insertion, and reading them back strictly:
    no unknown key, no repeated key, every required key present with its type. */
module Documents {
  import opened Basics
  import opened Sorting
  import opened Json
  import opened Canonical

  /** The possible members of an object in insertion order; an absent one is skipped. */
  type Slots = seq<Entry<Option<Json>>>

  function Build(slots: Slots): (members: Members)
    ensures forall i | 0 <= i < |members| :: Entry(members[i].key, Some(members[i].value)) in slots
  {
    if slots == [] then []
    else
      var rest := Build(slots[1..]);
      match slots[0].value
      case None => rest
      case Some(v) => [Entry(slots[0].key, v)] + rest
  }

  function OptStr(o: Option<Bytes>): Option<Json> {
    if o.Some? then Some(Str(o.value)) else None
  }

  function OptNum(o: Option<int>): Option<Json> {
    if o.Some? then Some(Num(o.value)) else None
  }

  function CanonOption(o: Option<Json>): Option<Json> {
    if o.Some? then Some(Canon(o.value)) else None
  }

  // ----- reading -----------------------------------------------------------------------

  /** The members of an object that repeats no key and has none but the `known` ones. */
  function StrictMembers(v: Json, known: seq<Bytes>): (r: Option<Members>)
    ensures r.Some? ==> v == Obj(r.value)
  {
    if v.Obj? && DistinctKeys(v.members) && KeysKnown(v.members, known)
    then Some(v.members)
    else None
  }

  function ReadStr(members: Members, key: Bytes): Option<Bytes> {
    match Lookup<Json>(members, key)
    case Some(Str(s)) => Some(s)
    case _ => None
  }

  /** An unsigned number below `limit`. */
  function ReadNum(members: Members, key: Bytes, limit: int): Option<int> {
    match Lookup<Json>(members, key)
    case Some(Num(n)) => if 0 <= n < limit then Some(n) else None
    case _ => None
  }

  /** An optional string: an absent key and a null both mean that there is none. The
      outer option is the verdict, the inner one the value. */
  function ReadOptStr(members: Members, key: Bytes): Option<Option<Bytes>> {
    match Lookup<Json>(members, key)
    case None => Some(None)
    case Some(Null) => Some(None)
    case Some(Str(s)) => Some(Some(s))
    case _ => None
  }

  function ReadOptU64(members: Members, key: Bytes): Option<Option<U64>> {
    match Lookup<Json>(members, key)
    case None => Some(None)
    case Some(Null) => Some(None)
    case Some(Num(n)) => if 0 <= n < U64_LIMIT then Some(Some(n)) else None
    case _ => None
  }

  function Strings(items: seq<Json>): (r: Option<seq<Bytes>>)
    ensures r.Some? ==> |r.value| == |items| && forall i | 0 <= i < |items| :: items[i] == Str(r.value[i])
  {
    if items == [] then Some([])
    else
      match (items[0], Strings(items[1..]))
      case (Str(s), Some(rest)) => Some([s] + rest)
      case _ => None
  }

  function ReadStrings(members: Members, key: Bytes): Option<seq<Bytes>> {
    match Lookup<Json>(members, key)
    case Some(Arr(items)) => Strings(items)
    case _ => None
  }

  function StrArray(texts: seq<Bytes>): (v: Json)
    ensures v.Arr? && |v.items| == |texts|
    ensures forall i | 0 <= i < |texts| :: v.items[i] == Str(texts[i])
  {
    Arr(seq(|texts|, i requires 0 <= i < |texts| => Str(texts[i])))
  }

  // ----- building and then reading ------------------------------------------------------

  lemma {:induction false} StringsOfArray(items: seq<Json>, texts: seq<Bytes>)
    requires |items| == |texts|
    requires forall i | 0 <= i < |items| :: items[i] == Str(texts[i])
    ensures Strings(items) == Some(texts)
  {
    if items != [] {
      StringsOfArray(items[1..], texts[1..]);
      assert texts == [texts[0]] + texts[1..];
    }
  }

  lemma CanonStrArray(texts: seq<Bytes>)
    ensures Canon(StrArray(texts)).Arr?
    ensures Strings(Canon(StrArray(texts)).items) == Some(texts)
    ensures WellFormed(StrArray(texts))
  {
    StringsOfArray(Canon(StrArray(texts)).items, texts);
  }

  lemma BuildKeys(slots: Slots, key: Bytes)
    requires forall i | 0 <= i < |slots| :: slots[i].key != key
    ensures !HasKey(Build(slots), key)
  {
  }

  lemma {:induction false} BuildDistinct(slots: Slots)
    requires DistinctKeys(slots)
    ensures DistinctKeys(Build(slots))
  {
    if slots != [] {
      BuildDistinct(slots[1..]);
      BuildKeys(slots[1..], slots[0].key);
    }
  }

  lemma {:induction false} BuildLookup(slots: Slots, i: int)
    requires DistinctKeys(slots) && 0 <= i < |slots|
    ensures Lookup(Build(slots), slots[i].key) == slots[i].value
  {
    var members := Build(slots);
    if i == 0 {
      BuildKeys(slots[1..], slots[0].key);
    } else {
      BuildLookup(slots[1..], i - 1);
      assert slots[0].value.Some? ==> members[1..] == Build(slots[1..]);
    }
  }

  lemma {:induction false} LookupCanonMembers(members: Members, key: Bytes)
    ensures Lookup(CanonMembers(members), key) == CanonOption(Lookup(members, key))
  {
    if members != [] {
      LookupCanonMembers(members[1..], key);
      assert CanonMembers(members)[1..] == CanonMembers(members[1..]);
    }
  }

  lemma LookupCanon(members: Members, key: Bytes)
    requires DistinctKeys(members)
    ensures Lookup(Canon(Obj(members)).members, key) == CanonOption(Lookup(members, key))
  {
    LookupSort(CanonMembers(members), key);
    LookupCanonMembers(members, key);
  }

  predicate KeysKnown<V>(members: seq<Entry<V>>, known: seq<Bytes>) {
    forall i | 0 <= i < |members| :: members[i].key in known
  }

  lemma SortKnown(members: Members, known: seq<Bytes>)
    requires KeysKnown(members, known)
    ensures KeysKnown(Sort(members), known)
  {
    SortMultiset(members);
    forall i | 0 <= i < |Sort(members)|
      ensures Sort(members)[i].key in known
    {
      SameMultisetMember(Sort(members), members, Sort(members)[i]);
    }
  }

  lemma {:induction false} BuildKnown(slots: Slots, known: seq<Bytes>)
    requires KeysKnown(slots, known)
    ensures KeysKnown(Build(slots), known)
  {
  }

  lemma BuildStrict(slots: Slots, known: seq<Bytes>)
    requires DistinctKeys(slots) && KeysKnown(slots, known)
    ensures StrictMembers(Canon(Obj(Build(slots))), known).Some?
  {
    var canon := CanonMembers(Build(slots));
    BuildDistinct(slots);
    BuildKnown(slots, known);
    SortDistinct(canon);
    SortKnown(canon, known);
  }

  /** Any object built from slots and then canonicalised reads back strictly, each key
      giving the canonical form of the value that was put there. */
  lemma ReadBack(slots: Slots, known: seq<Bytes>)
    requires DistinctKeys(slots) && KeysKnown(slots, known)
    ensures StrictMembers(Canon(Obj(Build(slots))), known).Some?
    ensures forall i | 0 <= i < |slots| ::
      Lookup(Canon(Obj(Build(slots))).members, slots[i].key) == CanonOption(slots[i].value)
  {
    BuildStrict(slots, known);
    BuildDistinct(slots);
    forall i | 0 <= i < |slots|
      ensures Lookup(Canon(Obj(Build(slots))).members, slots[i].key) == CanonOption(slots[i].value)
    {
      BuildLookup(slots, i);
      LookupCanon(Build(slots), slots[i].key);
    }
  }

  // ----- what the reader needs to know of an object built from slots --------------------

  ghost predicate Holds(v: Json, slots: Slots, known: seq<Bytes>) {
    && v.Obj?
    && StrictMembers(v, known) == Some(v.members)
    && forall i | 0 <= i < |slots| :: Lookup(v.members, slots[i].key) == CanonOption(slots[i].value)
  }

  lemma BuildHolds(slots: Slots, known: seq<Bytes>) returns (v: Json)
    requires DistinctKeys(slots) && KeysKnown(slots, known)
    ensures v == Canon(Obj(Build(slots)))
    ensures Holds(v, slots, known)
  {
    v := Canon(Obj(Build(slots)));
    ReadBack(slots, known);
  }

  lemma HeldValue(v: Json, slots: Slots, known: seq<Bytes>, i: int)
    requires Holds(v, slots, known) && 0 <= i < |slots|
    ensures Lookup(v.members, slots[i].key) == CanonOption(slots[i].value)
  {
  }

  lemma HeldStr(v: Json, slots: Slots, known: seq<Bytes>, i: int, s: Bytes)
    requires Holds(v, slots, known) && 0 <= i < |slots| && slots[i].value == Some(Str(s))
    ensures ReadStr(v.members, slots[i].key) == Some(s)
  {
  }

  lemma HeldNum(v: Json, slots: Slots, known: seq<Bytes>, i: int, n: int, limit: int)
    requires Holds(v, slots, known) && 0 <= i < |slots| && slots[i].value == Some(Num(n))
    requires 0 <= n < limit
    ensures ReadNum(v.members, slots[i].key, limit) == Some(n)
  {
  }

  lemma HeldOptStr(v: Json, slots: Slots, known: seq<Bytes>, i: int, o: Option<Bytes>)
    requires Holds(v, slots, known) && 0 <= i < |slots| && slots[i].value == OptStr(o)
    ensures ReadOptStr(v.members, slots[i].key) == Some(o)
  {
  }

  lemma HeldOptU64(v: Json, slots: Slots, known: seq<Bytes>, i: int, o: Option<U64>)
    requires Holds(v, slots, known) && 0 <= i < |slots| && slots[i].value == OptNum(o)
    ensures ReadOptU64(v.members, slots[i].key) == Some(o)
  {
  }

  lemma HeldStrings(v: Json, slots: Slots, known: seq<Bytes>, i: int, texts: seq<Bytes>)
    requires Holds(v, slots, known) && 0 <= i < |slots| && slots[i].value == Some(StrArray(texts))
    ensures ReadStrings(v.members, slots[i].key) == Some(texts)
  {
    CanonStrArray(texts);
  }
}
