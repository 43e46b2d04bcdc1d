/** The authentication ceremony: a guard sequence over an assertion made by a registered
    authenticator. */
module WebAuthn {
  import opened Basics
  import opened Integers

  datatype Credential = Credential(
    subjectId: Bytes,
    publicKey: Bytes,
    counterSupported: bool,
    signCount: nat,
    revoked: bool)

  /** What the client sends: all of it untrusted. */
  datatype Proof = Proof(credentialId: Bytes, clientData: Octets, authenticatorData: Octets, signature: Bytes)

  datatype Ceremony = Ceremony(origin: Bytes, rpId: Bytes)

  datatype CeremonyClaims = CeremonyClaims(subjectId: Bytes, aal2: bool, authMethod: Bytes, newSignCount: nat)

  datatype CeremonyError =
    | AuthenticatorRevoked
    | ClientData
    | MalformedAuthenticatorData
    | RpIdMismatch
    | UserNotPresent
    | SignCounterRegression
    | MalformedRegisteredKey
    | InvalidSignature

  /** Parsing of the client data, key validation and signature check are foreign code. */
  datatype Checks = Checks(
    sha256: Bytes -> Digest,
    clientData: (Bytes, Bytes, Bytes) -> bool,
    acceptsKey: Bytes -> bool,
    signature: (Bytes, Bytes, Bytes) -> bool)

  datatype AuthenticatorData = AuthenticatorData(rpIdHash: Bytes, flags: int, signCount: nat)

  /** The fixed prefix `rpIdHash(32) || flags(1) || signCount(4)`; extensions behind it are
      ignored. */
  function ParseAuthenticatorData(data: Octets): Option<AuthenticatorData> {
    if |data| < 37 then None
    else Some(AuthenticatorData(data[..32], data[32] as int, BigEndianValue(data[33..37])))
  }

  function UserPresent(flags: int): bool { flags % 2 == 1 }

  function UserVerified(flags: int): bool { flags / 4 % 2 == 1 }

  function VerifyCeremony(k: Checks, ceremony: Ceremony, challenge: Bytes, proof: Proof, credential: Credential)
    : Result<CeremonyClaims, CeremonyError>
  {
    if credential.revoked then Err(AuthenticatorRevoked)
    else if !k.clientData(proof.clientData, ceremony.origin, challenge) then Err(ClientData)
    else
      match ParseAuthenticatorData(proof.authenticatorData)
      case None => Err(MalformedAuthenticatorData)
      case Some(data) =>
        if data.rpIdHash != k.sha256(ceremony.rpId) then Err(RpIdMismatch)
        else if !UserPresent(data.flags) then Err(UserNotPresent)
        else if credential.counterSupported && data.signCount <= credential.signCount then Err(SignCounterRegression)
        else if !k.acceptsKey(credential.publicKey) then Err(MalformedRegisteredKey)
        else if !k.signature(credential.publicKey, proof.authenticatorData + k.sha256(proof.clientData), proof.signature) then
          Err(InvalidSignature)
        else
          Ok(CeremonyClaims(credential.subjectId, UserVerified(data.flags),
                    if credential.counterSupported then "webauthn/device-bound" else "webauthn/synced-or-unknown",
                    data.signCount))
  }

  /** The authenticator's own writing of its data. */
  function WriteAuthenticatorData(data: AuthenticatorData, extensions: Bytes): Bytes {
    data.rpIdHash + [(data.flags % 256) as char] + BigEndian(data.signCount, 4) + extensions
  }

  /** Parsing undoes writing, whatever extensions follow. */
  lemma ParseUndoesWrite(data: AuthenticatorData, extensions: Octets)
    requires |data.rpIdHash| == 32 && 0 <= data.flags < 256 && data.signCount < Power256(4)
    requires IsOctets(WriteAuthenticatorData(data, extensions))
    ensures ParseAuthenticatorData(WriteAuthenticatorData(data, extensions)) == Some(data)
  {
    var text := WriteAuthenticatorData(data, extensions);
    assert text[..32] == data.rpIdHash;
    assert text[33..37] == BigEndian(data.signCount, 4);
    BigEndianRoundTrip(data.signCount, 4);
  }

  /** And writing undoes parsing: every text that parses is the writing of what it parses
      to, whose counter fits in 32 bits. */
  lemma WriteUndoesParse(text: Octets)
    requires ParseAuthenticatorData(text).Some?
    ensures
      var data := ParseAuthenticatorData(text).value;
      && data.signCount < U32_LIMIT
      && WriteAuthenticatorData(data, text[37..]) == text
  {
    BigEndianBound(text[33..37]);
    BigEndianOfValue(text[33..37]);
    assert Power256(4) == U32_LIMIT;
    assert text[..32] + [text[32]] + text[33..37] + text[37..] == text;
    assert text[32] as int < 256;
  }

  /** The counter in a request, at its fixed place in the octets. */
  function CounterIn(proof: Proof): nat {
    if |proof.authenticatorData| < 37 then 0 else BigEndianValue(proof.authenticatorData[33..37])
  }

  /** What an honest authenticator's answer must satisfy, in terms of what it wrote: nothing
      of it is lost or altered by the parser, and each guard is necessary. */
  lemma CeremonyOnWrittenData(k: Checks, ceremony: Ceremony, challenge: Bytes, data: AuthenticatorData,
                              extensions: Octets, proof: Proof, credential: Credential)
    requires |data.rpIdHash| == 32 && 0 <= data.flags < 256 && data.signCount < Power256(4)
    requires proof.authenticatorData == WriteAuthenticatorData(data, extensions)
    ensures
      var r := VerifyCeremony(k, ceremony, challenge, proof, credential);
      && (r.Ok? <==>
            && !credential.revoked
            && k.clientData(proof.clientData, ceremony.origin, challenge)
            && data.rpIdHash == k.sha256(ceremony.rpId)
            && UserPresent(data.flags)
            && (credential.counterSupported ==> credential.signCount < data.signCount)
            && k.acceptsKey(credential.publicKey)
            && k.signature(credential.publicKey, proof.authenticatorData + k.sha256(proof.clientData), proof.signature))
      && (r.Ok? ==>
            && r.value.newSignCount == data.signCount && r.value.subjectId == credential.subjectId
            && r.value.aal2 == UserVerified(data.flags))
  {
    ParseUndoesWrite(data, extensions);
  }

  /** The eight bits of a flags octet, most significant first. */
  datatype Bits = Bits(b7: bool, b6: bool, b5: bool, b4: bool, b3: bool, verified: bool, b1: bool, present: bool) {
    function Octet(): (n: int)
      ensures 0 <= n < 256
    {
      Bit(b7, 128) + Bit(b6, 64) + Bit(b5, 32) + Bit(b4, 16) + Bit(b3, 8) + Bit(verified, 4) + Bit(b1, 2) + Bit(present, 1)
    }
  }

  function Bit(b: bool, weight: nat): nat {
    if b then weight else 0
  }

  lemma FlagBits(bits: Bits)
    ensures UserPresent(bits.Octet()) <==> bits.present
    ensures UserVerified(bits.Octet()) <==> bits.verified
  {
  }

  /** The ceremony on the octets of an answer (section 6.1 of WebAuthn Level 3): whatever the
      other six flags and the extensions, it demands the user present, takes the user
      verified for the second level of assurance, and refuses for the first reason that
      applies. */
  lemma CeremonyOnOctets(k: Checks, ceremony: Ceremony, challenge: Bytes, rpIdHash: Bytes, bits: Bits, signCount: nat,
                         extensions: Octets, proof: Proof, credential: Credential)
    requires |rpIdHash| == 32 && signCount < U32_LIMIT
    requires proof.authenticatorData == rpIdHash + [bits.Octet() as char] + BigEndian(signCount, 4) + extensions
    ensures
      var r := VerifyCeremony(k, ceremony, challenge, proof, credential);
      var client := k.clientData(proof.clientData, ceremony.origin, challenge);
      var site := rpIdHash == k.sha256(ceremony.rpId);
      var counts := credential.counterSupported ==> credential.signCount < signCount;
      var signed := k.signature(credential.publicKey, proof.authenticatorData + k.sha256(proof.clientData), proof.signature);
      && (r.Ok? <==>
            !credential.revoked && client && site && bits.present && counts && k.acceptsKey(credential.publicKey) && signed)
      && (r.Ok? ==>
            && (r.value.aal2 <==> bits.verified)
            && r.value.subjectId == credential.subjectId && r.value.newSignCount == signCount
            && (credential.counterSupported ==> r.value.authMethod == "webauthn/device-bound")
            && (!credential.counterSupported ==> r.value.authMethod == "webauthn/synced-or-unknown"))
      && (r == Err(AuthenticatorRevoked) <==> credential.revoked)
      && (r == Err(ClientData) <==> !credential.revoked && !client)
      && (r == Err(RpIdMismatch) <==> !credential.revoked && client && !site)
      && (r == Err(UserNotPresent) <==> !credential.revoked && client && site && !bits.present)
      && (r == Err(SignCounterRegression) <==> !credential.revoked && client && site && bits.present && !counts)
      && (r == Err(MalformedRegisteredKey) <==>
            !credential.revoked && client && site && bits.present && counts && !k.acceptsKey(credential.publicKey))
      && (r == Err(InvalidSignature) <==>
            !credential.revoked && client && site && bits.present && counts && k.acceptsKey(credential.publicKey) && !signed)
  {
    var data := AuthenticatorData(rpIdHash, bits.Octet(), signCount);
    assert Power256(4) == U32_LIMIT;
    assert proof.authenticatorData == WriteAuthenticatorData(data, extensions);
    ParseUndoesWrite(data, extensions);
    FlagBits(bits);
  }

  /** Anything shorter than the fixed prefix is malformed. */
  lemma ShortDataRefused(k: Checks, ceremony: Ceremony, challenge: Bytes, proof: Proof, credential: Credential)
    requires !credential.revoked && k.clientData(proof.clientData, ceremony.origin, challenge)
    ensures VerifyCeremony(k, ceremony, challenge, proof, credential) == Err(MalformedAuthenticatorData) <==>
      |proof.authenticatorData| < 37
  {
  }
}
