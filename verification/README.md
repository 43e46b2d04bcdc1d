# A verified model of biscuits-shield

biscuits-shield issues short-lived credentials on cryptographically proved identities. This
project models its protocols in Dafny and proves what they are for.

**The audit log** (`Json`, `Canonical`, `Documents`, `AuditDocument`, `AuditSeal`, `Chain`,
`AuditLog`, `AuditTrail`, `Tamper`). Collectors and identity providers write sealed, hash-chained
events to one table, with nothing but two uniqueness constraints between them. The model goes from
the JSON printer and parser, over sealing and verification, the size guard and the one-pass chain
check, to a state machine of any number of writers. The end result: every log that any
interleaving, crash or failed insert can leave behind passes the whole audit, in every listing that
keeps each domain's order; and two accepted logs that share one sealed event share its whole
history, or a hash collision lies at a known position.

**Messages that mean one thing** (`Canonical`, `Integers`, `Binding`, `DecisionSeal`,
`IdentityAssertion`, `DomainSeparation`). Equal bytes imply equal content for canonical JSON, for the
length-prefixed policy corpus and for every signed message, and no message of one kind is ever a
message of another.

**Time** (`Calendar`, `Rfc3339`, `Instants`, `AssertionProofs`, `PolicyEngine`). The calendar
conversions are inverse bijections, text order is time order, and so an assertion issued at `t` for
`k` seconds is accepted at `u` exactly when `t <= u < t + k`; a decision that was sealed always
verifies.

**At most once, and nothing lost** (`IdentityStore`, `WebAuthn`, `Authentication`, `Counters`,
`Revocation`, `Deployment`, `Emission`, `EmissionRuns`, `AccessBroker`, `BrokerRuns`, `Pool`,
`Quorum`, `Der`). One assertion per challenge, one lease request per decision and life of the issuer,
counters that only grow, sessions that are accounted for and never shared, quorums of independent
holders.

**And what should happen does** (`Collector`, `ProviderWrites`, `Logins`, `BrokerRuns`, and the
contracts of the single calls). A call that nothing disturbs succeeds exactly under stated conditions,
with a stated result, and every refusal is the one of the first check that fails.

## How it is modelled

- An octet is a `char`; byte buffers and UTF-8 strings are both `Bytes`.
- SHA-256 and signature verification are arbitrary functions (`Crypto`). A device with a published
  key answers with a genuine 64-octet signature or not at all; ECDSA being randomised, two calls may
  get different answers. No property of the hash is assumed: results that would need collision
  resistance exhibit the collision instead.
- An SQL statement, and a section under a mutex, is one atomic step. A protocol is a function
  `Apply` from a state and an action to a state, where an action that does not fit changes nothing,
  so that a statement about every action sequence is one about every interleaving, with any step
  failing or any participant stopping (`Abandon`, `Abort`) anywhere.
- Where the source updates objects or walks loops, there is a class or a method beside the function,
  proved to compute it (`EventStore`, `Store`, `SessionPool`, `ConsumedDecisions`, `Issuer`,
  `VerifyChain`, `BindPolicyCorpus`, `DecodeEcPoint`, `VerifyQuorum`, ...).
- Each protocol takes the services it calls as function values. `AuditTrail.ServicesAreHonest`
  shows that the real sealing and verification have the one property the log needs of them.

## Where the code and its documentation differ

The model follows the code; each item names the input that shows the difference and the exact
condition.

- `crates/zs-hsm/src/pool.rs:1-10` says that sessions die only on a session error; `sign_digest`
  drops its session when the key lookup fails and opens no other (line 168).
  `Pool.MissingKeyDrainsPool` drains a pool of any size, and `Pool.StepCauses` says exactly which
  steps lose a session. `public_key` gives its session back in the same situation.
- `crates/zs-hsm/src/pool.rs:294` says that the decoder refuses any other form; it ignores octets
  behind the content (`Der.TailIsIgnored`). `Der.DecodeEcPoint` states exactly what it accepts.
- The counter update demands strict progress of every authenticator
  (`apps/identity-provider/src/store.rs:198-206`), the ceremony only of those known to count, and
  against a row read earlier (`crates/zs-webauthn/src/authentication.rs:135-138`). Two kinds of
  requests pass the one and fail the other: those of an authenticator that does not count
  (`Counters.CounterlessExample`) and those overtaken by another request
  (`Counters.OvertakenRun`). `Counters.AdvanceExact` says exactly when a request gets through, and
  `Counters.NeverLetIn` who never does.
- `crates/zs-crypto/src/common.rs:48-49` announces numeric ranges in time stamps; only digits and
  separators are checked. `Instants.AcceptedButNoInstant` is a stamp that denotes nothing,
  `Instants.DenotesIffOnCalendar` says exactly which ones denote an instant, and
  `AssertionProofs.WindowOnCalendar` that comparing those as strings is comparing instants, which
  fails for others (`Instants.RawOrderFails`).
- Audit events have a size guard at sealing so that nothing sealed is too large to verify; identity
  assertions have none (`crates/zs-crypto/src/identity_assertion.rs:128-151`).
  `AssertionProofs.SealedSizeExact` gives their size in advance, `AssertionProofs.GenuineAccepted` the
  condition on it, and `AssertionProofs.LongDomainNeverVerifies` the assertions that can never be
  verified.
- A decision is sealed with a negative lifetime counted as zero
  (`apps/policy-engine/src/lib.rs:171-175`), and the lease is requested with the lifetime as it stands
  (`apps/credential-issuer/internal/issuer/issuer.go:97-102`). `Emission.NegativeTtlPasses` shows both
  at once, `Emission.LeaseTtlIsSignedTtl` gives the exact condition under which they agree.
- A decision is marked as used before its verb is looked at
  (`apps/credential-issuer/internal/issuer/issuer.go:74-85`): `EmissionRuns.UnknownVerbUsesUp`.
- `apps/credential-issuer/internal/issuer/consumed_decisions.go:8-10` says that seeing a decision a
  second time must always fail; the marks are in memory. `EmissionRuns.AtMostOneLeaseRequest` says
  that a second request can only follow a restart, `EmissionRuns.RestartForgets` that it then does.
- `apps/admin-api/internal/httpapi/handler.go:429` lets only callers at AAL3 initiate a critical
  operation; `apps/identity-provider/src/httpapi.rs:370-373` issues AAL1 and AAL2.
  `Deployment.NoAnswerInitiatesQuorum` and `Deployment.CannotInitiate` are what follows.

## Model

| member | source | states |
|---|---|---|
| Json.ParseUndoesPrint | crates/zs-crypto/src/common.rs:164-167 | printing loses nothing: parsing the printed text of any float-free value gives that value back |
| Json.EscapeIsShortest | crates/zs-crypto/src/common.rs:164-167 | a character is written as itself unless it must be escaped, and then in its shortest form |
| Canonical.CanonicalBytesInjective | crates/zs-crypto/src/common.rs:164-191 | canonical bytes are equal if and only if the documents differ by nothing but the order of keys, at any depth |
| Canonical.SortKeysRecursively | crates/zs-crypto/src/common.rs:169-191 | the recursive loop produces the canonical form: sorted keys, values kept, arrays in their order |
| Canonical.ObjectSizeAfterInsert | crates/zs-crypto/src/audit_seal.rs:770-773 | one more member costs a comma, its quoted key, a colon and its canonical value, wherever it sorts |
| Documents.ReadBack | crates/zs-crypto/src/audit_seal.rs:455-512 | any object built by conditional insertion is read back strictly, absent members included |
| Basics.HexRoundTrip | crates/zs-crypto/src/common.rs:127-139 | decoding undoes encoding |
| Basics.HexDecodes | crates/zs-crypto/src/common.rs:127-139 | a text decodes to given octets if and only if it consists of hexadecimal digits and its lower-case form is their encoding |
| Fields.UuidExact | crates/zs-crypto/src/common.rs:85-124 | an identifier is five groups of 8, 4, 4, 4 and 12 hexadecimal digits with dashes between them, the third starting with a 7 where version 7 is required |
| Fields.TimestampExact | crates/zs-crypto/src/common.rs:53-72 | a time stamp is four digits of year and two each of month, day, hour, minute and second, with the separators of RFC 3339 |
| AssertionProofs.WritableExact | crates/zs-crypto/src/common.rs:19-45 | the bounded texts are those of printable ASCII that are not empty, not too long and print as themselves |
| AuditRoundTrip.DocumentReadBack | crates/zs-crypto/src/audit_seal.rs:523-540 | a signed audit document is read back as itself, with every pattern of absent optional fields |
| AuditSeal.BuildersAgree | crates/zs-crypto/src/audit_seal.rs:776-881 | the builder from typed fields and the builder from the wire produce the same document |
| AuditSeal.FindKeyExact | crates/zs-crypto/src/audit_seal.rs:594-599 | the key found is the first one published under the identifier; none is found exactly when none is published |
| AuditSeal.CheckComponentsLoop | crates/zs-crypto/src/audit_seal.rs:594-607 | the loop over signature components returns the verdict over all of them, or the first that cannot be resolved |
| AuditSealProofs.SealedSizeExact | crates/zs-crypto/src/audit_seal.rs:757-774 | the measured overhead is exact: the sealed length is the unsigned length plus it, for every 64-octet signature |
| AuditSealProofs.SizeGuardExact | crates/zs-crypto/src/audit_seal.rs:745-755 | sealing succeeds exactly when the sealed form fits, so nothing sealed is ever refused as too large |
| AuditSealProofs.SealThenVerify | crates/zs-crypto/src/audit_seal.rs:312-342 | whatever is sealed verifies under the matching key, suite and domain, and its six reported fields are those that were sealed |
| AuditSealProofs.VerifyExact | crates/zs-crypto/src/audit_seal.rs:523-629 | verification accepts exactly the canonical encodings, within the size limit, of documents with the contract's texts, one component that signs them by the first key published under its identifier, the expected domain and a link of 32 octets |
| AuditSealProofs.VerifyReports | crates/zs-crypto/src/audit_seal.rs:609-629 | of such a document it reports the event id, sequence, time, domain, type and link that the document carries |
| AuditSealProofs.VerifyRefuses | crates/zs-crypto/src/audit_seal.rs:523-629 | a canonical document is refused for its size, its version, suite, texts or number of components, its key, its signature, its domain or its link, each exactly when that is the first to fail |
| AuditSealProofs.RewritingRefused | crates/zs-crypto/src/audit_seal.rs:576-590 | bytes that can be read are refused as not canonical exactly when their form is right and they are not the canonical writing of what they say |
| AuditSealProofs.SealExact | crates/zs-crypto/src/audit_seal.rs:312-342 | sealing succeeds exactly for an event whose type calls for the decision it carries or does not, with at most 16 reasons, of at most 8192 octets once sealed, when the device answers; otherwise it names the first condition that fails |
| AuditSealProofs.SignedMessageInjective | crates/zs-crypto/src/audit_seal.rs:887-893 | two events with the same signed message are the same event |
| SealerGate.GateExact | apps/audit-sealer/src/lib.rs:68-186 | the gate lets a request through as given fields exactly when the request says those fields: nothing dropped, defaulted or altered |
| SealerGate.GateRefuses | apps/audit-sealer/src/lib.rs:68-186 | every other request is refused with the reason of the first check that fails, in the order type, outcome, link, time, actor, target, context, decision, event id, sequence, stamp, domain |
| Chain.VerifyChain | crates/zs-audit/src/chain.rs:63-106 | the one pass succeeds if and only if the log is not empty and each domain on its own is numbered from 0 and linked from the root; an error names an entry before which all is linked, and what is wrong with it: the root, the first number, the two numbers of a gap, or the position of a link that is not the hash of its predecessor; the successor never overflows |
| Chain.FirstBreakUnique | crates/zs-audit/src/chain.rs:70-103 | a log has at most one first break, and it breaks for one reason |
| Tamper.TruncationIsAccepted | crates/zs-audit/src/chain.rs:58-62 | the stated limit: any non-empty beginning of an accepted log is accepted |
| Tamper.SameEndSameHistory | crates/zs-audit/src/chain.rs:83-97 | logs that share a sealed event agree entry by entry on that domain up to it, or hold two different events with the same hash at one position |
| Tamper.TamperEvidence | crates/zs-crypto/src/audit_seal.rs:613-629 | the same with entries extracted by the real verification, by two auditors who may trust different keys |
| Tamper.GenuineHistory | apps/audit-collector/internal/collector/collector.go:60-133 | an accepted log that contains the last event of a domain of a reachable log has the genuine history up to it, or exhibits a collision |
| Tamper.GenuineLogHistory | apps/identity-provider/src/httpapi.rs:421-497 | the same with the real sealing and verification, read with any other set of keys |
| AuditStore.MaxRowIsHighest | apps/audit-collector/internal/store/store.go:46-70 | the head query yields a row of the domain of highest sequence, and none exactly when there is no row |
| AuditStore.EventStore.ChainHead | apps/audit-collector/internal/store/store.go:46-70 | the scan computes the next sequence and the last sealed bytes of the domain |
| AuditStore.EventStore.Append | apps/audit-collector/internal/store/store.go:90-104 | an insert adds one row at the end, or on a conflict of position or event id changes nothing |
| AuditLog.HeadOf | apps/identity-provider/src/store.rs:226-250 | in a sound table the head read gives the number of rows and the hash of the last one |
| AuditLog.PhaseSurvives | apps/audit-collector/internal/collector/collector.go:61-73 | what a writer has read stays true of a prefix of its domain while others append |
| AuditLog.FreePositionIsNext | deploy/migrations/002_audit_events.sql:31-35 | the uniqueness constraint leaves a stale writer no free position but the next one |
| AuditLog.NextIsFree | apps/audit-collector/internal/collector/collector.go:108-127 | without a concurrent writer, only the event id can clash |
| AuditLog.InsertExact | deploy/migrations/002_audit_events.sql:31-35 | an insert adds the row exactly if no row has its position or its event id, and ends the write either way |
| AuditLog.SoundApply | apps/identity-provider/src/httpapi.rs:421-497 | each step of each writer keeps the table numbered, linked and verifiable, and every other writer's snapshot usable |
| AuditLog.EveryRunIsSound | apps/audit-collector/internal/collector/collector.go:60-133 | so does every interleaving of any number of writers |
| AuditLog.EveryRunIsAccepted | apps/audit-collector/internal/collector/collector.go:60-133 | for any services that verify what they seal, every listing of every reachable table passes the audit |
| AuditTrail.ServicesAreHonest | crates/zs-crypto/src/audit_seal.rs:312-342 | the real gate, sealing and verification are such services |
| AuditTrail.SealWithExact | crates/zs-crypto/src/audit_seal.rs:312-342 | the real sealing answers exactly for such an event, when the device holds the key published under its identifier and signs |
| AuditTrail.EveryLogIsAccepted | apps/identity-provider/src/httpapi.rs:421-497 | every reachable log, in every listing that keeps each domain's order, has sequences 0..n-1 with n-1 at most 2^53-1, rows that verify and agree with their columns, and a chain that the check accepts |
| Collector.Record | apps/audit-collector/internal/collector/collector.go:60-133 | when nothing is out of reach, an undisturbed call is the four protocol steps in a row; it accepts exactly when the position can be read, the gate and the device agree, the event id is new and the insert goes through, refuses exactly when the gate does, and otherwise fails and changes nothing |
| ProviderWrites.WriteExact | apps/identity-provider/src/httpapi.rs:421-497 | an undisturbed write of the identity provider appends exactly the draft at the next position, linked to the last row, if and only if that position is at most 2^53-1, the domain can be written, sealing answers and the event id is new; otherwise the table stays as it is |
| Calendar.CivilRoundTrip | apps/policy-engine/src/lib.rs:243-265 | every day number yields a valid proleptic Gregorian date, which leads back to it |
| Calendar.DateRoundTrip | apps/policy-engine/src/lib.rs:257-265 | and every valid date leads to a day number that leads back to it |
| Calendar.OrderAgrees | apps/identity-provider/src/lib.rs:145-157 | later days are later dates |
| Rfc3339.FormatOrder | apps/identity-provider/src/lib.rs:133-143 | for years 0 to 9999, byte order of the texts is the order of the instants |
| Rfc3339.TimestampAccepts | crates/zs-crypto/src/common.rs:53-72 | of formatted instants, exactly those from -62167219200 to 253402300799 are accepted as time stamps |
| Instants.DenotesIffOnCalendar | crates/zs-crypto/src/common.rs:53-72 | an accepted time stamp denotes an instant if and only if its date is on the calendar and its hour, minute and second are in range; the instant is the one read from it |
| Instants.AcceptedButNoInstant | crates/zs-crypto/src/common.rs:48-49 | a time stamp that is accepted and denotes no instant |
| Instants.RawOrder | apps/policy-engine/src/lib.rs:220-241 | between time stamps on the calendar, comparing the strings is comparing the seconds read from them |
| Instants.RawOrderFails | apps/policy-engine/src/lib.rs:220-241 | off the calendar it is not: 30 February and 1 March |
| Rfc3339.SecondsRoundTrip | apps/policy-engine/src/lib.rs:210-241 | reading the text of an instant gives the instant back |
| IdentityAssertion.VerifyExact | crates/zs-crypto/src/identity_assertion.rs:310-396 | verification accepts exactly the canonical, signed, small enough assertions for the expected domain, inside their window |
| IdentityAssertion.VerifyRefuses | crates/zs-crypto/src/identity_assertion.rs:310-396 | a canonical assertion is refused for its size, version, suite, number of components, key, signature, domain or window, each exactly when that is the first to fail |
| IdentityAssertion.RewritingRefused | crates/zs-crypto/src/identity_assertion.rs:310-396 | bytes that can be read are refused as not canonical exactly when their form is right and they are not the canonical writing of what they say |
| IdentityAssertion.VerifyReports | crates/zs-crypto/src/identity_assertion.rs:387-396 | of an accepted assertion it reports the seven texts that the assertion carries |
| IdentityAssertion.GenuineVerifies | crates/zs-crypto/src/identity_assertion.rs:128-151 | a genuine assertion is accepted exactly when it fits, is meant for the domain and is in its window, and then says what was sealed |
| IdentityAssertion.AcceptedReadsAsSealed | crates/zs-crypto/src/identity_assertion.rs:387-396 | whoever accepts a sealed assertion, with whatever keys and policy, reads what was sealed |
| AssertionProofs.SealedSizeExact | crates/zs-crypto/src/identity_assertion.rs:405-427 | the length of a sealed assertion is 454 plus the lengths of its subject, method and audience and the escaped lengths of its domain and key identifier |
| AssertionProofs.GenuineAccepted | crates/zs-crypto/src/identity_assertion.rs:310-396 | a genuine assertion is accepted exactly when that sum is at most 4096, it is meant for the domain and it is in its window |
| AssertionProofs.OrdinaryFits | crates/zs-crypto/src/identity_assertion.rs:315-317 | a valid authority domain and a key identifier of at most 128 plain characters always fit |
| AssertionProofs.LongDomainNeverVerifies | crates/zs-crypto/src/identity_assertion.rs:128-151 | an assertion sealed for a domain of 4096 characters is refused as too large by every verifier |
| AssertionProofs.AssertionWindow | crates/zs-crypto/src/identity_assertion.rs:382-385 | issued at t for ttl seconds, accepted at u exactly when it fits and t <= u < t + ttl |
| AssertionProofs.WindowOnCalendar | crates/zs-crypto/src/identity_assertion.rs:382-385 | for stamps on the calendar, the window check on raw strings is one on instants |
| IdentityAssertion.SignedMessageInjective | crates/zs-crypto/src/identity_assertion.rs:445-451 | two sets of claims with the same signed message are the same |
| DecisionSeal.SignedMessageInjective | crates/zs-crypto/src/decision_seal.rs:201-219 | two decisions with the same signed message agree in every component |
| DecisionSeal.MessageSays | crates/zs-crypto/src/decision_seal.rs:198-219 | the signed message is the suite, a NUL and a text that reads back as each component under its name in the contract |
| PolicyEngine.Decide | apps/policy-engine/src/lib.rs:66-99 | the call fails exactly for a clock outside the years 0 to 9999 or a silent device, changes only stamp and signature, returns the device's signature of the sealed fields, and what it returns verifies |
| PolicyEngine.VerifyDecisionExact | apps/policy-engine/src/lib.rs:101-150 | a decision is valid if and only if it is there, stamped in the years 0 to 9999, and carries a signature of what it says at that second by the first key published under the identifier it names; every other one is refused for its own reason |
| PolicyEngine.SignatureScope | apps/policy-engine/src/lib.rs:157-179 | two stamped decisions share a signed message if and only if they agree on the sealed parts and the second of issue |
| PolicyEngine.VerdictIgnoresNegativeTtl | apps/policy-engine/src/lib.rs:171-175 | the verdict depends on the lifetime only as it was sealed |
| Binding.RequestMessageInjective | crates/zs-crypto/src/decision_binding.rs:49-57 | the hashed request message identifies the request up to key order, both ways |
| Binding.CorpusMessageCanonical | crates/zs-crypto/src/decision_binding.rs:99-121 | for distinct paths and NUL-free versions, corpus messages are equal if and only if schema, version and set of files are, whatever the input order |
| Binding.NulInVersionIsAmbiguous | crates/zs-crypto/src/decision_binding.rs:104-108 | with a NUL in the version, two different corpora share a message |
| Binding.BindPolicyCorpus | crates/zs-crypto/src/decision_binding.rs:83-122 | the loops hash exactly the corpus message if every path is relative and free of backslashes and no file starts with a byte order mark, and otherwise report the first file in input order that is refused, and why |
| DomainSeparation.KindsSeparate | crates/zs-crypto/src/audit_seal.rs:884-893 | messages of two different kinds among the five are never equal |
| DomainSeparation.MessagesSeparate | crates/zs-crypto/src/decision_seal.rs:198-219 | messages are equal if and only if kind and content are the same |
| DomainSeparation.SignedBeginnings | crates/zs-crypto/src/audit_seal.rs:884-893 | what is signed for an event or an assertion begins, to the octet, with the name of its suite and a NUL |
| Binding.RequestBegins | crates/zs-crypto/src/decision_binding.rs:49-57 | and so does what is hashed for a request |
| Binding.CorpusBegins | crates/zs-crypto/src/decision_binding.rs:99-108 | and for a corpus, where the engine and its version follow |
| WebAuthn.ParseUndoesWrite | crates/zs-webauthn/src/authentication.rs:198-212 | the parser recovers hash, flags and counter from what an authenticator writes, with any extensions behind |
| WebAuthn.WriteUndoesParse | crates/zs-webauthn/src/authentication.rs:198-212 | and every text that parses is the writing of what it parses to, whose counter fits in 32 bits |
| WebAuthn.CeremonyOnWrittenData | crates/zs-webauthn/src/authentication.rs:101-182 | on written data the ceremony succeeds exactly under its seven guards and reports the written counter |
| WebAuthn.CeremonyOnOctets | crates/zs-webauthn/src/authentication.rs:101-182 | on the octets of an answer, whatever the other flags and extensions: it demands bit 0 (user present), gives the second level exactly on bit 2 (user verified), names the method after the registered kind, and refuses for the first guard that fails |
| WebAuthn.ShortDataRefused | crates/zs-webauthn/src/authentication.rs:198-201 | data shorter than 37 octets, and only that, is malformed |
| IdentityStore.Store.ConsumeChallenge | apps/identity-provider/src/store.rs:85-104 | a challenge is handed out exactly if it is there, of the kind, unused and unexpired, and never again |
| IdentityStore.Store.AdvanceSignCount | apps/identity-provider/src/store.rs:193-207 | the counter moves exactly on strict progress, and no value up to it is accepted again |
| IdentityStore.CeremonyThenAdvance | apps/identity-provider/src/store.rs:190-207 | a successful ceremony, against whatever row, is followed by a successful update exactly when the counter in the octets of the request exceeds the one stored at the time of the update |
| Counters.AdvanceExact | apps/identity-provider/src/httpapi.rs:346-366 | in the running provider, a request past its ceremony commits exactly under that condition, and otherwise ends there |
| Counters.CounterlessExample | apps/identity-provider/src/store.rs:198-206 | an authenticator that does not count: its ceremony succeeds and its update fails |
| Counters.OvertakenRun | apps/identity-provider/src/httpapi.rs:346-366 | a run in which two requests of one credential pass the ceremony and the one with the lower counter is turned away |
| Counters.OvertakenExample | apps/identity-provider/src/httpapi.rs:346-366 | the same with the real ceremony and the counters 4, 6 and 5 |
| Counters.NeverLetIn | apps/identity-provider/src/httpapi.rs:296-415 | if no proof for a credential carries a counter above the registered one, no run commits an update or returns an assertion for it |
| AuthenticationProofs.ChallengesApply | apps/identity-provider/src/httpapi.rs:307-344 | each step keeps every challenge in use spent and with a single user |
| AuthenticationProofs.CountersApply | apps/identity-provider/src/httpapi.rs:346-366 | each step keeps accepted counters strictly increasing per credential and remembered by the store |
| AuthenticationProofs.EvidenceApply | apps/identity-provider/src/httpapi.rs:368-414 | each step keeps every request and every answer backed by its counter update, its seal and its audit row |
| AuthenticationProofs.ProofsApply | apps/identity-provider/src/httpapi.rs:316-344 | each step keeps every verified request and every update backed by a ceremony against the registered subject and key |
| AuthenticationProofs.EveryAssertionIsAccountedFor | apps/identity-provider/src/httpapi.rs:296-415 | over every interleaving: one assertion per challenge, one proved counter update each, strictly increasing counters per credential in commit order, and a persisted audit event with the assertion's event id and digest |
| Logins.LoginExact | apps/identity-provider/src/httpapi.rs:296-415 | an undisturbed request is answered, with exactly the assertion of its ceremony, if and only if its challenge is fresh, its ceremony succeeds against the registered credential, its counter exceeds the stored one, its claims can be written and sealed, and its audit event can be written |
| Logins.EventSays | apps/identity-provider/src/httpapi.rs:402-410 | the event that covers an assertion names its subject as the human who authenticated, and its digest as the target |
| Logins.IssuedIsFresh | apps/identity-provider/src/store.rs:85-104 | a challenge issued for an authentication can be used until it expires |
| Logins.SpentElsewhere | apps/identity-provider/src/store.rs:85-104 | a challenge of another kind is spent only by its own kind, under the same conditions |
| Revocation.NoCeremonyAfterRevocation | crates/zs-webauthn/src/authentication.rs:104-109 | from a revocation on, in every run, no request for that credential passes its ceremony, and only those that had passed it before can still commit a counter |
| Revocation.RealCeremonyRefusesRevoked | crates/zs-webauthn/src/authentication.rs:104-109 | the real ceremony refuses every revoked authenticator, whatever it is sent |
| Deployment.EveryAnswerIsGood | apps/identity-provider/src/httpapi.rs:296-415 | with the real ceremony, sealing, clock format and log: every returned assertion says what its ceremony established, is accepted by the real verification exactly in its window, and its audit row is accepted by the real verification |
| Deployment.NotCountingNeverLetIn | apps/identity-provider/src/store.rs:193-207 | with the real ceremony, a credential whose counter never exceeds the registered one never obtains an assertion |
| Deployment.IssueExact | crates/zs-crypto/src/identity_assertion.rs:128-151 | the real sealing of an assertion answers exactly when the device holds the key published under its identifier and signs the message of the claims |
| Deployment.AnswerExact | apps/identity-provider/src/lib.rs:36-80 | the verification service names a subject, level and method exactly if the bytes are, within the limit, the canonical writing of an acceptable assertion that says so; it refuses everything else |
| Deployment.NoAnswerInitiatesQuorum | apps/admin-api/internal/httpapi/handler.go:426-431 | no assertion that the provider returns in any run can initiate a critical operation |
| EmissionRuns.AtMostOneLeaseRequest | apps/credential-issuer/internal/issuer/issuer.go:53-129 | over every interleaving of calls and restarts, every lease request is for a verified ALLOW and with its lifetime, and a second one for a decision hash only follows a restart |
| EmissionRuns.RestartForgets | apps/credential-issuer/internal/issuer/consumed_decisions.go:5-19 | after a restart, every decision that can be emitted is emitted again |
| EmissionRuns.UnknownVerbUsesUp | apps/credential-issuer/internal/issuer/issuer.go:74-85 | a verb without an engine uses a decision up: until a restart no run requests a lease for it |
| Emission.ConsumedDecisions.MarkConsumed | apps/credential-issuer/internal/issuer/consumed_decisions.go:25-36 | says whether the hash was marked, and marks it for good |
| Emission.Issuer.Emit | apps/credential-issuer/internal/issuer/issuer.go:53-129 | exactly when a lease is requested, with which path and lifetime, and for every outcome its reason, what is marked and what is left as it was |
| Emission.LeaseTtlIsSignedTtl | apps/credential-issuer/internal/issuer/issuer.go:95-102 | the lifetime asked for is the signed one exactly when it is not negative |
| Emission.NegativeTtlPasses | apps/credential-issuer/internal/issuer/issuer.go:95-102 | a decision sealed with no lifetime verifies with a negative one, which is then asked for |
| AccessBroker.VerifiedApprovalsExact | apps/access-broker/internal/broker/broker.go:38-58 | exactly the approvals backed by a valid assertion are passed on |
| AccessBroker.VerifiedApprovalsConcat | apps/access-broker/internal/broker/broker.go:38-58 | in their order, each as often as it was presented |
| AccessBroker.OneApproval | apps/access-broker/internal/broker/broker.go:38-58 | an approval is passed on under the subject of its assertion, at the declared time |
| AccessBroker.AuthLevelExact | apps/access-broker/internal/broker/broker.go:121-135 | only three texts mean a level |
| AccessBroker.Decide | apps/access-broker/internal/broker/broker.go:30-119 | exactly when the policy engine is consulted, and that it sees the request as it was made, the broker's clock and the verified approvals, no more |
| AccessBroker.CanAskExact | apps/access-broker/internal/broker/broker.go:30-66 | the policy engine can be asked exactly for a complete request of a valid requester, every approval answered and one of them valid |
| AccessBroker.CreateAccessRequest | apps/access-broker/internal/httpapi/handler.go:41-155 | for a valid requester whose question gets an ALLOW, a lease is returned exactly if the decision verifies, was not used, names the verb with an engine and the engine answers; it is then that lease; every other case has its own answer |
| BrokerRuns.EveryLeaseIsEarned | apps/access-broker/internal/httpapi/handler.go:41-155 | over every interleaving of access requests, other clients and restarts of the issuer, a lease is only returned to a verified requester, for a verified ALLOW made about that requester on at least one verified approval, and no lease request is handed out twice |
| BrokerRuns.UndisturbedVisit | apps/access-broker/internal/httpapi/handler.go:41-155 | a visit that nothing disturbs and that earns its lease gets it, for one new lease request with the decision's path and lifetime |
| BrokerRuns.CollectExact | apps/access-broker/internal/httpapi/handler.go:130-154 | a visit waits for its emission to finish, and then takes exactly the lease that came of it |
| Pool.EveryRunIsSound | crates/zs-hsm/src/pool.rs:112-157 | over every run of concurrent callers, idle + held + being replaced + lost is the pool size, and no session is in two places |
| Pool.StepCauses | crates/zs-hsm/src/pool.rs:161-235 | exactly which step of which caller loses a session, to which cause, and exactly when a caller is turned away: from an empty queue, with no time left |
| Pool.QuietPool | crates/zs-hsm/src/pool.rs:139-157 | once all callers have left, the pool is full but for what was lost |
| Pool.DeadForever | crates/zs-hsm/src/pool.rs:146-157 | a pool that lost all its sessions never serves again |
| Pool.MissingKeyDrainsPool | crates/zs-hsm/src/pool.rs:167-168 | as many signing calls for a missing key as there are sessions drain a pool of any size for good |
| Pool.Acquire | crates/zs-hsm/src/pool.rs:112-133 | the waiting loop takes the front session of the first queue that it finds not empty, and gives up only in front of an empty one, after a timeout or when no time is left for another wait |
| Pool.AttemptServes | crates/zs-hsm/src/pool.rs:112-133 | a caller in front of a queue that is not empty gets the session that has waited longest, whatever its clock says |
| Pool.AttemptWaits | crates/zs-hsm/src/pool.rs:112-133 | in front of an empty queue a caller waits as it is until its time is over, and then leaves nothing behind |
| Pool.SessionPool.SignDigest | crates/zs-hsm/src/pool.rs:161-183 | a call is its steps in a row, and costs a session exactly on a failed lookup or a failed replacement |
| Pool.SessionPool.ReadPublicKey | crates/zs-hsm/src/pool.rs:185-213 | the same for reading a key, where a failed lookup costs nothing; it succeeds exactly when the attribute is there and decodes, and returns its content |
| Der.DecodeEcPoint | crates/zs-hsm/src/pool.rs:295-316 | returns a content exactly when the input starts with one of its encodings, short or on 1 to 4 length octets, minimal or not; never out of bounds |
| Der.PointEncodes | crates/zs-hsm/src/pool.rs:295-316 | the usual header of an uncompressed point, octets 4 and 65, is one of them |
| Der.TailIsIgnored | crates/zs-hsm/src/pool.rs:313-315 | an encoding with anything behind it decodes to its content and to nothing else |
| Quorum.VerifyQuorum | apps/admin-api/internal/quorum/quorum.go:54-88 | the listed subjects are exactly the distinct holders of valid assertions, without repetition, and the threshold is held against their number |
| Quorum.OnlyValidOnesCount | apps/admin-api/internal/quorum/quorum.go:64-77 | order, repetition and invalid assertions do not change who counts |
| Quorum.HoldersIncluded | apps/admin-api/internal/quorum/quorum.go:64-77 | more assertions never lose a holder |
| Base64.DecodeUndoesEncode | apps/admin-api/internal/httpapi/handler.go:401-409 | decoding undoes the canonical encoding |
| Base64.AlphabetExact | apps/admin-api/internal/httpapi/handler.go:401-409 | the symbols are those of the standard alphabet of RFC 4648 |
| Quorum.OneHeaderPerAssertion | apps/admin-api/internal/httpapi/handler.go:401-409 | of callers that pass, equal headers and equal assertions are the same |
| Quorum.CallerExact | apps/admin-api/internal/httpapi/handler.go:391-440 | a caller passes exactly with the canonical header of an assertion that is valid at AAL3 for a named subject and method, and is otherwise refused with the status and reason of the first check that fails |
| Quorum.PublishQuorum | apps/admin-api/internal/httpapi/handler.go:185-289 | exactly when a quorum is published, with which holders, and that it is reached exactly when the holders other than the initiator number at least the threshold, itself at least 2; and exactly when each refusal is given |
| Quorum.OutcomeDependsOnValidOnes | apps/admin-api/internal/httpapi/handler.go:211-214 | requests with the same valid assertions have the same outcome if and only if both or neither have at most 64, each answered |
| Quorum.ReorderingChangesNothing | apps/admin-api/internal/quorum/quorum.go:64-77 | reordering never changes the outcome |
| Quorum.RepetitionMattersWhenFull | apps/admin-api/internal/httpapi/handler.go:211-214 | repeating an assertion changes the outcome exactly when the list was full |
| Quorum.TwoIndependentHolders | apps/admin-api/internal/httpapi/handler.go:498-517 | a quorum needs two different holders who are not the initiator |

## Left out

- UTF-8: strings are octet strings, so that the refusal of invalid UTF-8 by the JSON reader, by database columns and by message decoding is not captured; neither is the sorting of keys above U+FFFF, on which the original itself departs from section 3.2.3 of RFC 8785.
- The JSON reader's liberties outside canonical text: numbers beyond 64 bits read as floating point, its depth limit, arrays accepted in place of objects. They matter only for input that is refused as not canonical in any case; which of two errors is then reported may differ.
- Floating-point numbers: canonical printing refuses them by an assertion, and the model's values have none.
- SHA-256, ECDSA, key parsing, PKCS#11, client data and CBOR parsing are arbitrary functions or answers.
- Event identifiers are compared as text. The table compares them as UUIDs; the writers generate lower-case ones.
- The audit table's descriptive columns (type, actor, target, outcome, context, time): nothing is ever checked against them.
- Binding.BindPolicyCorpus: with two files of the same path the original's unstable sort may hash either order; the model takes the input order.
- Der.DecodeEcPoint: lengths are unbounded integers, as on a 64-bit machine; an overflow of the end position on a 32-bit machine is not captured.
- Calendar.CivilRoundTrip: integers are unbounded; seconds near the limits of 64 bits are not captured.
- Quorum.PublishQuorum: the octets that the generated binding makes of the header are a parameter, since its decoder is lenient; headers that it cannot decode, or that are repeated, never reach the handler.
- The verdicts of the identity service and of the policy engine's verification are functions, fixed for one call or one run; two verifications of one assertion on both sides of its expiry are two different functions.
- The request handlers of the identity provider are step functions and not methods, so that their steps can interleave; an audit event of a refused authentication is any other writer's event.
- Registration ceremonies, attestation and account recovery: guard sequences over foreign parsers. Registration appears as the insertion of an authenticator and the spending of its challenge.
- Policy evaluation (Cedar and its entity translation): any function from requests to responses.
- Network transport, timeouts, retries, audit budgets and logging; the console; configuration and start-up.
- The audit events that the broker, the issuer and the quorum handler send on a best-effort basis.
- Pool fairness and waking order: a freed session may go to any caller.
