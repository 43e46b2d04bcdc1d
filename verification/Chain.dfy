/** The one-pass check of an interleaved multi-domain chain. */
module Chain {
  import opened Basics

  const CHAIN_ROOT: Digest := ZERO_DIGEST

  datatype ChainEntry = ChainEntry(authorityDomain: Bytes, sequence: U64, prevHash: Digest, sealed: Bytes)

  datatype ChainError =
    | Empty
    | InvalidRoot(domain: Bytes)
    | FirstSequenceNotZero(domain: Bytes, found: U64)
    | SequenceGap(domain: Bytes, previous: U64, found: U64)
    | BrokenLink(domain: Bytes, index: nat)

  // ----- the simple specification --------------------------------------------------------

  /** The entries of one domain, in the order of the log. */
  function Project(log: seq<ChainEntry>, domain: Bytes): (r: seq<ChainEntry>)
    ensures |r| <= |log|
  {
    if log == [] then []
    else
      var front := Project(log[..|log| - 1], domain);
      var last := log[|log| - 1];
      if last.authorityDomain == domain then front + [last] else front
  }

  /** A single-domain chain: numbered from 0, first link to the root, every other link
      to the hash of the sealed bytes just before. */
  predicate Linked(c: Crypto, chain: seq<ChainEntry>) {
    forall i | 0 <= i < |chain| :: LinkAt(c, chain, i)
  }

  predicate LinkAt(c: Crypto, chain: seq<ChainEntry>, i: nat)
    requires i < |chain|
  {
    && chain[i].sequence == i
    && chain[i].prevHash == (if i == 0 then CHAIN_ROOT else c.sha256(chain[i - 1].sealed))
  }

  predicate DomainLinked(c: Crypto, log: seq<ChainEntry>, domain: Bytes) {
    Linked(c, Project(log, domain))
  }

  ghost predicate AllLinked(c: Crypto, log: seq<ChainEntry>) {
    forall domain :: DomainLinked(c, log, domain)
  }

  ghost predicate ChainAccepted(c: Crypto, log: seq<ChainEntry>) {
    log != [] && AllLinked(c, log)
  }

  /** Why `e` does not continue the chain `before` of its domain, if it does not. */
  function LinkError(c: Crypto, before: seq<ChainEntry>, e: ChainEntry, index: nat): Option<ChainError> {
    if before == [] then
      if e.prevHash != CHAIN_ROOT then Some(InvalidRoot(e.authorityDomain))
      else if e.sequence != 0 then Some(FirstSequenceNotZero(e.authorityDomain, e.sequence))
      else None
    else
      var last := before[|before| - 1];
      if e.sequence != last.sequence + 1 then Some(SequenceGap(e.authorityDomain, last.sequence, e.sequence))
      else if e.prevHash != c.sha256(last.sealed) then Some(BrokenLink(e.authorityDomain, index))
      else None
  }

  /** The log is sound up to `index`, where it breaks with the given error. */
  ghost predicate BreaksAt(c: Crypto, log: seq<ChainEntry>, index: int, error: ChainError) {
    && 0 <= index < |log|
    && AllLinked(c, log[..index])
    && LinkError(c, Project(log[..index], log[index].authorityDomain), log[index], index) == Some(error)
  }

  // ----- what each error means ---------------------------------------------------------------

  /** The entry at `i` is the first of the log that does not continue its domain, and `before`
      is that domain up to there. */
  ghost predicate FirstBreak(c: Crypto, log: seq<ChainEntry>, domain: Bytes, i: nat, before: seq<ChainEntry>) {
    && i < |log| && AllLinked(c, log[..i])
    && log[i].authorityDomain == domain && before == Project(log[..i], domain)
  }

  /** The entry is the first of its domain and does not name the root of all chains. */
  ghost predicate WrongRoot(c: Crypto, log: seq<ChainEntry>, domain: Bytes, i: nat) {
    FirstBreak(c, log, domain, i, []) && log[i].prevHash != seq(32, _ => 0 as char)
  }

  /** It names the root but does not count from 0. */
  ghost predicate WrongStart(c: Crypto, log: seq<ChainEntry>, domain: Bytes, found: int, i: nat) {
    && FirstBreak(c, log, domain, i, []) && log[i].prevHash == seq(32, _ => 0 as char)
    && log[i].sequence == found && found != 0
  }

  /** It does not count on from the last entry of its domain. */
  ghost predicate Gap(c: Crypto, log: seq<ChainEntry>, domain: Bytes, previous: int, found: int, i: nat) {
    exists before: seq<ChainEntry> ::
      && FirstBreak(c, log, domain, i, before) && before != []
      && before[|before| - 1].sequence == previous && log[i].sequence == found && found != previous + 1
  }

  /** It counts on, but names another predecessor. */
  ghost predicate WrongLink(c: Crypto, log: seq<ChainEntry>, domain: Bytes, i: nat) {
    exists before: seq<ChainEntry> ::
      && FirstBreak(c, log, domain, i, before) && before != []
      && log[i].sequence == before[|before| - 1].sequence + 1
      && log[i].prevHash != c.sha256(before[|before| - 1].sealed)
  }

  /** What an error says of the log. */
  ghost predicate Explains(c: Crypto, log: seq<ChainEntry>, error: ChainError) {
    match error
    case Empty => log == []
    case InvalidRoot(domain) => exists i :: WrongRoot(c, log, domain, i)
    case FirstSequenceNotZero(domain, found) => exists i :: WrongStart(c, log, domain, found, i)
    case SequenceGap(domain, previous, found) => exists i :: Gap(c, log, domain, previous, found, i)
    case BrokenLink(domain, i) => WrongLink(c, log, domain, i)
  }

  lemma BreakExplains(c: Crypto, log: seq<ChainEntry>, i: int, error: ChainError)
    requires BreaksAt(c, log, i, error)
    ensures Explains(c, log, error)
  {
    var domain := log[i].authorityDomain;
    var before := Project(log[..i], domain);
    assert FirstBreak(c, log, domain, i, before);
    match error
    case InvalidRoot(_) => assert WrongRoot(c, log, domain, i);
    case FirstSequenceNotZero(_, found) => assert WrongStart(c, log, domain, found, i);
    case SequenceGap(_, previous, found) => assert Gap(c, log, domain, previous, found, i);
    case BrokenLink(_, _) => assert WrongLink(c, log, domain, i);
  }

  /** No two positions can be the first break. */
  lemma FirstBreakUnique(c: Crypto, log: seq<ChainEntry>, i: int, error: ChainError, j: int, other: ChainError)
    requires BreaksAt(c, log, i, error) && BreaksAt(c, log, j, other)
    ensures i == j && error == other
  {
    if i < j { NotLinkedBehind(c, log, i, error, j); }
    if j < i { NotLinkedBehind(c, log, j, other, i); }
  }

  lemma NotLinkedBehind(c: Crypto, log: seq<ChainEntry>, i: int, error: ChainError, j: int)
    requires BreaksAt(c, log, i, error) && i < j <= |log|
    ensures !AllLinked(c, log[..j])
  {
    var upTo := log[..j];
    assert upTo[..i] == log[..i] && upTo[i] == log[i];
    Broken(c, upTo, i, error);
  }

  lemma {:induction false} ProjectMembers(log: seq<ChainEntry>, domain: Bytes)
    ensures forall e | e in Project(log, domain) :: e in log && e.authorityDomain == domain
  {
    if log != [] {
      var n := |log| - 1;
      ProjectMembers(log[..n], domain);
      assert log == log[..n] + [log[n]];
    }
  }

  lemma ProjectStep(log: seq<ChainEntry>, i: int, domain: Bytes)
    requires 0 <= i < |log|
    ensures Project(log[..i + 1], domain) ==
      Project(log[..i], domain) + (if log[i].authorityDomain == domain then [log[i]] else [])
  {
    assert log[..i + 1][..i] == log[..i];
  }

  lemma {:induction false} ProjectPrefix(log: seq<ChainEntry>, i: int, domain: Bytes)
    requires 0 <= i <= |log|
    ensures Project(log[..i], domain) <= Project(log, domain)
    decreases |log| - i
  {
    if i == |log| {
      assert log[..i] == log;
    } else {
      ProjectStep(log, i, domain);
      ProjectPrefix(log, i + 1, domain);
    }
  }

  lemma LinkedPrefix(c: Crypto, a: seq<ChainEntry>, b: seq<ChainEntry>)
    requires a <= b && Linked(c, b)
    ensures Linked(c, a)
  {
    forall i | 0 <= i < |a|
      ensures LinkAt(c, a, i)
    {
      assert LinkAt(c, b, i);
    }
  }

  lemma LastSequence(c: Crypto, chain: seq<ChainEntry>)
    requires Linked(c, chain) && chain != []
    ensures chain[|chain| - 1].sequence == |chain| - 1
  {
    assert LinkAt(c, chain, |chain| - 1);
  }

  lemma LinkExtend(c: Crypto, before: seq<ChainEntry>, e: ChainEntry, index: nat)
    requires Linked(c, before)
    ensures Linked(c, before + [e]) <==> LinkError(c, before, e, index).None?
  {
    var after := before + [e];
    var n := |before|;
    assert after[n] == e && (n > 0 ==> after[n - 1] == before[n - 1]);
    assert n > 0 ==> LinkAt(c, before, n - 1);
    if Linked(c, after) {
      assert LinkAt(c, after, n);
    }
    if LinkError(c, before, e, index).None? {
      forall i | 0 <= i < |after|
        ensures LinkAt(c, after, i)
      {
        if i < n { assert LinkAt(c, before, i); }
      }
    }
  }

  /** One more entry keeps every domain linked exactly when it has no link error. */
  lemma LinkStep(c: Crypto, log: seq<ChainEntry>, i: int)
    requires 0 <= i < |log| && AllLinked(c, log[..i])
    ensures AllLinked(c, log[..i + 1]) <==>
      LinkError(c, Project(log[..i], log[i].authorityDomain), log[i], i).None?
  {
    var d := log[i].authorityDomain;
    assert DomainLinked(c, log[..i], d);
    LinkExtend(c, Project(log[..i], d), log[i], i);
    ProjectStep(log, i, d);
    var upTo := log[..i + 1];
    if DomainLinked(c, upTo, d) {
      forall domain
        ensures DomainLinked(c, upTo, domain)
      {
        ProjectStep(log, i, domain);
        assert DomainLinked(c, log[..i], domain);
        assert domain != d ==> Project(upTo, domain) == Project(log[..i], domain);
      }
    }
  }

  /** A break found on the way is a break of the whole log. */
  lemma Broken(c: Crypto, log: seq<ChainEntry>, i: int, error: ChainError)
    requires 0 <= i < |log| && AllLinked(c, log[..i])
    requires LinkError(c, Project(log[..i], log[i].authorityDomain), log[i], i) == Some(error)
    ensures BreaksAt(c, log, i, error) && !AllLinked(c, log)
  {
    LinkStep(c, log, i);
    var domain :| !DomainLinked(c, log[..i + 1], domain);
    ProjectPrefix(log, i + 1, domain);
    if DomainLinked(c, log, domain) {
      LinkedPrefix(c, Project(log[..i + 1], domain), Project(log, domain));
    }
  }

  lemma Reported(c: Crypto, log: seq<ChainEntry>, i: int, error: ChainError)
    requires 0 <= i < |log| && AllLinked(c, log[..i])
    requires LinkError(c, Project(log[..i], log[i].authorityDomain), log[i], i) == Some(error)
    ensures BreaksAt(c, log, i, error) && !AllLinked(c, log) && Explains(c, log, error)
  {
    Broken(c, log, i, error);
    BreakExplains(c, log, i, error);
  }

  // ----- the one-pass check ----------------------------------------------------------------

  type Tracker = map<Bytes, (U64, Bytes)>

  predicate Tracked(tracker: Tracker, log: seq<ChainEntry>, domain: Bytes) {
    var chain := Project(log, domain);
    if chain == [] then domain !in tracker
    else
      var last := chain[|chain| - 1];
      domain in tracker && tracker[domain] == (last.sequence, last.sealed)
  }

  ghost predicate Tracks(tracker: Tracker, log: seq<ChainEntry>) {
    forall domain :: Tracked(tracker, log, domain)
  }

  lemma TrackStep(tracker: Tracker, log: seq<ChainEntry>, i: int)
    requires 0 <= i < |log| && Tracks(tracker, log[..i])
    ensures Tracks(tracker[log[i].authorityDomain := (log[i].sequence, log[i].sealed)], log[..i + 1])
  {
    var after := tracker[log[i].authorityDomain := (log[i].sequence, log[i].sealed)];
    var upTo := log[..i + 1];
    forall domain
      ensures Tracked(after, upTo, domain)
    {
      ProjectStep(log, i, domain);
      assert Tracked(tracker, log[..i], domain);
    }
  }

  /** Walks the log once, remembering for each domain the last sequence and sealed
      bytes. It succeeds exactly on the accepted logs, and on a break it reports the
      first one. A slice never has 2^64 entries, so the successor cannot overflow. */
  method VerifyChain(c: Crypto, entries: seq<ChainEntry>) returns (r: Result<(), ChainError>)
    requires |entries| < U64_LIMIT
    ensures r.Ok? <==> ChainAccepted(c, entries)
    ensures r == Err(Empty) <==> entries == []
    ensures r.Err? ==> Explains(c, entries, r.error)
    ensures r.Err? && entries != [] ==> exists index :: BreaksAt(c, entries, index, r.error)
  {
    if entries == [] { return Err(Empty); }
    var lastByDomain: Tracker := map[];
    var i := 0;
    while i < |entries|
      invariant 0 <= i <= |entries|
      invariant AllLinked(c, entries[..i])
      invariant Tracks(lastByDomain, entries[..i])
    {
      var entry := entries[i];
      ghost var before := Project(entries[..i], entry.authorityDomain);
      assert DomainLinked(c, entries[..i], entry.authorityDomain);
      assert Tracked(lastByDomain, entries[..i], entry.authorityDomain);
      if entry.authorityDomain !in lastByDomain {
        if entry.prevHash != CHAIN_ROOT {
          r := Err(InvalidRoot(entry.authorityDomain));
          Reported(c, entries, i, r.error);
          return;
        }
        if entry.sequence != 0 {
          r := Err(FirstSequenceNotZero(entry.authorityDomain, entry.sequence));
          Reported(c, entries, i, r.error);
          return;
        }
      } else {
        var (prevSequence, prevSealed) := lastByDomain[entry.authorityDomain];
        LastSequence(c, before);
        var next: U64 := prevSequence + 1;
        if entry.sequence != next {
          r := Err(SequenceGap(entry.authorityDomain, prevSequence, entry.sequence));
          Reported(c, entries, i, r.error);
          return;
        }
        if entry.prevHash != c.sha256(prevSealed) {
          r := Err(BrokenLink(entry.authorityDomain, i));
          Reported(c, entries, i, r.error);
          return;
        }
      }
      LinkStep(c, entries, i);
      TrackStep(lastByDomain, entries, i);
      lastByDomain := lastByDomain[entry.authorityDomain := (entry.sequence, entry.sealed)];
      i := i + 1;
    }
    assert entries[..i] == entries;
    r := Ok(());
  }
}
