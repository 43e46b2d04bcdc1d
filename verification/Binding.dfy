/** The two fingerprints of `decision-binding/v1`: of a request, and of a policy corpus. */
module Binding {
  import opened Basics
  import opened Integers
  import opened Sorting
  import opened Json
  import opened Canonical

  const SUITE_V1: Bytes := "decision-binding/v1"
  const NUL: Bytes := [0 as char]

  // ----- requests ------------------------------------------------------------------------

  const REQUEST_PREFIX: Bytes := SUITE_V1 + "/request" + NUL

  function RequestMessage(request: Json): Bytes {
    REQUEST_PREFIX + CanonicalBytes(request)
  }

  /** The hashed message identifies a request exactly up to the order of its keys. */
  lemma RequestMessageInjective(a: Json, b: Json)
    requires WellFormed(a) && WellFormed(b)
    ensures RequestMessage(a) == RequestMessage(b) <==> Equivalent(a, b)
  {
    CanonicalBytesInjective(a, b);
    var n := |REQUEST_PREFIX|;
    assert RequestMessage(a)[n..] == CanonicalBytes(a);
    assert RequestMessage(b)[n..] == CanonicalBytes(b);
  }

  // ----- big-endian lengths ----------------------------------------------------------------

  lemma EightOctets(n: nat)
    requires n < U64_LIMIT
    ensures BigEndianValue(BigEndian(n, 8)) == n
  {
    assert Power256(4) == 0x1_0000_0000;
    assert Power256(8) == U64_LIMIT;
    BigEndianRoundTrip(n, 8);
  }

  /** An octet string preceded by its length on eight octets. */
  function Prefixed(s: Bytes): Bytes {
    BigEndian(|s|, 8) + s
  }

  /** A length-prefixed string can be taken off the front in one way only. */
  lemma PrefixedUnique(a: Bytes, b: Bytes, x: Bytes, y: Bytes)
    requires |a| < U64_LIMIT && |b| < U64_LIMIT
    requires Prefixed(a) + x == Prefixed(b) + y
    ensures a == b && x == y
  {
    var left, right := Prefixed(a) + x, Prefixed(b) + y;
    assert left[..8] == BigEndian(|a|, 8) && right[..8] == BigEndian(|b|, 8);
    EightOctets(|a|);
    EightOctets(|b|);
    var n := 8 + |a|;
    assert left[8..n] == a && right[8..n] == b;
    assert left[n..] == x && right[n..] == y;
  }

  // ----- the corpus ------------------------------------------------------------------------

  /** A policy file: its relative path and its contents. */
  type CorpusFile = Entry<Bytes>

  datatype CorpusError = InvalidPath(path: Bytes) | InvalidEncoding(path: Bytes)

  const BYTE_ORDER_MARK: Bytes := [0xEF as char, 0xBB as char, 0xBF as char]

  function FileError(f: CorpusFile): Option<CorpusError> {
    if '\\' in f.key || "/" <= f.key then Some(InvalidPath(f.key))
    else if BYTE_ORDER_MARK <= f.value then Some(InvalidEncoding(f.key))
    else None
  }

  /** Relative, and without a backslash anywhere. */
  predicate GoodPath(path: Bytes) {
    (forall i | 0 <= i < |path| :: path[i] != '\\') && (path != "" ==> path[0] != '/')
  }

  /** Starts with the three octets of a byte order mark. */
  predicate Marked(contents: Bytes) {
    |contents| >= 3 && contents[0] as int == 0xEF && contents[1] as int == 0xBB && contents[2] as int == 0xBF
  }

  function FilesMessage(files: seq<CorpusFile>): Bytes {
    if files == [] then ""
    else Prefixed(files[0].key) + (Prefixed(files[0].value) + FilesMessage(files[1..]))
  }

  const CORPUS_PREFIX: Bytes := SUITE_V1 + "/policy-corpus" + NUL + "cedar-policy="

  function AfterVersion(schema: Bytes, files: seq<CorpusFile>): Bytes {
    Prefixed(schema) + (BigEndian(|files|, 8) + FilesMessage(Sort(files)))
  }

  /** The message whose hash is the fingerprint of the corpus. */
  function CorpusMessage(schema: Bytes, version: Bytes, files: seq<CorpusFile>): Bytes {
    CORPUS_PREFIX + (version + NUL + AfterVersion(schema, files))
  }

  /** What fits in memory: every length can be written on eight octets. */
  predicate Addressable(schema: Bytes, files: seq<CorpusFile>) {
    && |schema| < U64_LIMIT && |files| < U64_LIMIT
    && forall i | 0 <= i < |files| :: |files[i].key| < U64_LIMIT && |files[i].value| < U64_LIMIT
  }

  predicate NulFree(s: Bytes) {
    (0 as char) !in s
  }

  /** How the hashed messages begin, to the octet. */
  lemma RequestBegins(request: Json)
    ensures RequestMessage(request) == "decision-binding/v1/request" + [0 as char] + CanonicalBytes(request)
  {
  }

  lemma CorpusBegins(schema: Bytes, version: Bytes, files: seq<CorpusFile>)
    ensures CorpusMessage(schema, version, files) ==
      "decision-binding/v1/policy-corpus" + [0 as char] + "cedar-policy=" + (version + [0 as char] + AfterVersion(schema, files))
  {
    var suite: Bytes := "decision-binding/v1/policy-corpus";
    assert SUITE_V1 + "/policy-corpus" == suite;
    assert CORPUS_PREFIX == suite + [0 as char] + "cedar-policy=";
  }

  // ----- unique decoding ---------------------------------------------------------------------

  lemma {:induction false} FilesMessageInjective(a: seq<CorpusFile>, b: seq<CorpusFile>)
    requires |a| == |b| && FilesMessage(a) == FilesMessage(b)
    requires forall i | 0 <= i < |a| :: |a[i].key| < U64_LIMIT && |a[i].value| < U64_LIMIT
    requires forall i | 0 <= i < |b| :: |b[i].key| < U64_LIMIT && |b[i].value| < U64_LIMIT
    ensures a == b
  {
    if a != [] {
      var restA := Prefixed(a[0].value) + FilesMessage(a[1..]);
      var restB := Prefixed(b[0].value) + FilesMessage(b[1..]);
      PrefixedUnique(a[0].key, b[0].key, restA, restB);
      PrefixedUnique(a[0].value, b[0].value, FilesMessage(a[1..]), FilesMessage(b[1..]));
      FilesMessageInjective(a[1..], b[1..]);
      assert a == [a[0]] + a[1..] && b == [b[0]] + b[1..];
    }
  }

  /** The first NUL ends a NUL-free text. */
  lemma NulEnds(a: Bytes, b: Bytes, x: Bytes, y: Bytes)
    requires NulFree(a) && NulFree(b) && a + NUL + x == b + NUL + y
    ensures a == b && x == y
  {
    var left, right := a + NUL + x, b + NUL + y;
    assert left[|a|] == 0 as char && right[|b|] == 0 as char;
    assert left[..|a|] == a && right[..|b|] == b;
    assert left[|a| + 1..] == x && right[|b| + 1..] == y;
  }

  lemma SortAddressable(files: seq<CorpusFile>)
    requires Addressable("", files)
    ensures Addressable("", Sort(files))
  {
    SortElements(files);
    var sorted := Sort(files);
    forall i | 0 <= i < |sorted|
      ensures |sorted[i].key| < U64_LIMIT && |sorted[i].value| < U64_LIMIT
    {
      assert sorted[i] in sorted;
    }
  }

  lemma AfterVersionInjective(s: Bytes, a: seq<CorpusFile>, t: Bytes, b: seq<CorpusFile>)
    requires Addressable(s, a) && Addressable(t, b) && AfterVersion(s, a) == AfterVersion(t, b)
    ensures s == t && Sort(a) == Sort(b)
  {
    var restA := BigEndian(|a|, 8) + FilesMessage(Sort(a));
    var restB := BigEndian(|b|, 8) + FilesMessage(Sort(b));
    PrefixedUnique(s, t, restA, restB);
    assert restA[..8] == BigEndian(|a|, 8) && restB[..8] == BigEndian(|b|, 8);
    EightOctets(|a|);
    EightOctets(|b|);
    assert restA[8..] == FilesMessage(Sort(a)) && restB[8..] == FilesMessage(Sort(b));
    SortAddressable(a);
    SortAddressable(b);
    FilesMessageInjective(Sort(a), Sort(b));
  }

  /** The binding is canonical: two corpora with distinct paths have the same message if
      and only if they have the same schema, the same engine version and the same set of
      files, in whatever order these are given. */
  lemma CorpusMessageCanonical(s: Bytes, v: Bytes, a: seq<CorpusFile>, t: Bytes, w: Bytes, b: seq<CorpusFile>)
    requires Addressable(s, a) && Addressable(t, b) && DistinctKeys(a) && DistinctKeys(b)
    requires NulFree(v) && NulFree(w)
    ensures CorpusMessage(s, v, a) == CorpusMessage(t, w, b) <==>
      s == t && v == w && forall f :: f in a <==> f in b
  {
    SortCanonical(a, b);
    if CorpusMessage(s, v, a) == CorpusMessage(t, w, b) {
      var n := |CORPUS_PREFIX|;
      assert CorpusMessage(s, v, a)[n..] == v + NUL + AfterVersion(s, a);
      assert CorpusMessage(t, w, b)[n..] == w + NUL + AfterVersion(t, b);
      NulEnds(v, w, AfterVersion(s, a), AfterVersion(t, b));
      AfterVersionInjective(s, a, t, b);
    } else if s == t && v == w && forall f :: f in a <==> f in b {
      SameCount(a, b);
    }
  }

  lemma SameCount(a: seq<CorpusFile>, b: seq<CorpusFile>)
    requires Sort(a) == Sort(b)
    ensures |a| == |b|
  {
  }

  /** The engine version is the one part without a length: were it allowed to contain a
      NUL, two different corpora would share a message. */
  lemma NulInVersionIsAmbiguous()
    ensures
      var zeros: Bytes := seq(9, _ => 0 as char);
      CorpusMessage(zeros, "4", []) == CorpusMessage("", "4" + NUL + BigEndian(9, 8), [])
  {
  }

  // ----- the imperative form -----------------------------------------------------------------

  lemma {:induction false} FilesMessageAppend(files: seq<CorpusFile>, f: CorpusFile)
    ensures FilesMessage(files + [f]) == FilesMessage(files) + (Prefixed(f.key) + Prefixed(f.value))
  {
    if files == [] {
      assert files + [f] == [f] && [f][1..] == [];
    } else {
      assert (files + [f])[1..] == files[1..] + [f];
      FilesMessageAppend(files[1..], f);
    }
  }

  /** Validates the files in order, sorts references to them by path, then fills the
      message buffer. The first offending file in input order is the one reported. */
  method BindPolicyCorpus(c: Crypto, schema: Bytes, version: Bytes, files: seq<CorpusFile>)
    returns (r: Result<Digest, CorpusError>)
    ensures r.Ok? <==> forall i | 0 <= i < |files| :: GoodPath(files[i].key) && !Marked(files[i].value)
    ensures r.Ok? ==> r.value == c.sha256(CorpusMessage(schema, version, files))
    ensures r.Err? ==> exists i ::
      && 0 <= i < |files|
      && (r.error == InvalidPath(files[i].key) <==> !GoodPath(files[i].key))
      && (r.error == InvalidEncoding(files[i].key) <==> GoodPath(files[i].key) && Marked(files[i].value))
      && (!GoodPath(files[i].key) || Marked(files[i].value))
      && forall k | 0 <= k < i :: GoodPath(files[k].key) && !Marked(files[k].value)
  {
    for i := 0 to |files|
      invariant forall k | 0 <= k < i :: GoodPath(files[k].key) && !Marked(files[k].value)
    {
      var error := FileError(files[i]);
      if error.Some? { return Err(error.value); }
    }

    var sorted := SortByPath(files);

    var message := SUITE_V1 + "/policy-corpus" + NUL;
    message := message + ("cedar-policy=" + version + NUL);
    message := message + BigEndian(|schema|, 8);
    message := message + schema;
    message := message + BigEndian(|sorted|, 8);
    CorpusHeader(schema, version, files, message);
    message := WriteFiles(message, sorted);
    r := Ok(c.sha256(message));
  }

  lemma CorpusHeader(schema: Bytes, version: Bytes, files: seq<CorpusFile>, header: Bytes)
    requires header ==
      SUITE_V1 + "/policy-corpus" + NUL + ("cedar-policy=" + version + NUL) + BigEndian(|schema|, 8) + schema
      + BigEndian(|files|, 8)
    ensures header + FilesMessage(Sort(files)) == CorpusMessage(schema, version, files)
  {
    var suite: Bytes := SUITE_V1 + "/policy-corpus" + NUL;
    var engine: Bytes := "cedar-policy=";
    Regroup(suite, engine, version, NUL, BigEndian(|schema|, 8), schema, BigEndian(|files|, 8), FilesMessage(Sort(files)));
  }

  lemma Regroup(a: Bytes, b: Bytes, c: Bytes, d: Bytes, e: Bytes, f: Bytes, g: Bytes, h: Bytes)
    ensures a + (b + c + d) + e + f + g + h == a + b + (c + d + (e + f + (g + h)))
  {
  }

  lemma Regroup4(a: Bytes, b: Bytes, c: Bytes, d: Bytes, e: Bytes)
    ensures a + b + c + d + e == a + (b + c + (d + e))
  {
  }

  lemma Associate(a: Bytes, b: Bytes, c: Bytes)
    ensures a + b + c == a + (b + c)
  {
  }

  method WriteFiles(header: Bytes, sorted: seq<CorpusFile>) returns (message: Bytes)
    ensures message == header + FilesMessage(sorted)
  {
    message := header;
    for i := 0 to |sorted|
      invariant message == header + FilesMessage(sorted[..i])
    {
      assert sorted[..i + 1] == sorted[..i] + [sorted[i]];
      FilesMessageAppend(sorted[..i], sorted[i]);
      ghost var before := message;
      message := message + BigEndian(|sorted[i].key|, 8);
      message := message + sorted[i].key;
      message := message + BigEndian(|sorted[i].value|, 8);
      message := message + sorted[i].value;
      Regroup4(before, BigEndian(|sorted[i].key|, 8), sorted[i].key, BigEndian(|sorted[i].value|, 8), sorted[i].value);
      Associate(header, FilesMessage(sorted[..i]), Prefixed(sorted[i].key) + Prefixed(sorted[i].value));
    }
    assert sorted[..|sorted|] == sorted;
  }

  /** Sorting by insertion from the right. */
  method SortByPath(files: seq<CorpusFile>) returns (sorted: seq<CorpusFile>)
    ensures sorted == Sort(files)
  {
    sorted := [];
    var i := |files|;
    while i > 0
      invariant 0 <= i <= |files|
      invariant sorted == Sort(files[i..])
    {
      i := i - 1;
      assert files[i..][1..] == files[i + 1..];
      sorted := Insert(files[i], sorted);
    }
    assert files[0..] == files;
  }
}
