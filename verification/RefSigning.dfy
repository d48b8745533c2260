/** gitmesh-coordination: signed ref updates. */
module RefSigning {
  import opened Prelude
  import opened Text
  import opened Core
  import opened GitOid
  import opened RefModel
  import opened RepoPolicies
  import Network

  /** The bytes a device signs to authorise an update. */
  function UpdateTranscript(u: RefUpdate): Bytes {
    Ascii("gitmesh.v0.ref-update") +
    (TextField(CidText(u.repo)) +
     (TextField(u.refName) +
      (TextField(OptionalOidText(u.expectedOld)) +
       (TextField(OptionalOidText(u.newOid)) +
        ([BoolByte(u.force)] +
         (Be(u.policyEpoch, 8) +
          (TextField(u.tx) + TextField(u.signer))))))))
  }

  datatype SigningError = SignerMismatch | IdentityFailed

  /** `verify_with_identity`: who signed, if the signature is genuine. */
  function VerifyWithIdentity(id: Network.Identity, u: RefUpdate, c: Network.Certificate, signature: Network.Bytes64): Result<Actor, SigningError> {
    if u.signer != CidText(c.deviceId) then Err(SignerMismatch)
    else if !id.VerifyCertificate(c) || !id.signed(c.deviceKey, UpdateTranscript(u), signature) then Err(IdentityFailed)
    else Ok(Signed(CidText(c.accountId), CidText(c.deviceId)))
  }

  predicate Countable(u: RefUpdate) {
    Representable(u.refName) && Representable(u.tx) && Representable(u.signer)
  }

  lemma OidFieldCancel(a: Option<Oid>, x: Bytes, b: Option<Oid>, y: Bytes)
    requires TextField(OptionalOidText(a)) + x == TextField(OptionalOidText(b)) + y
    ensures a == b && x == y
  {
    hide TextField, Representable, OptionalOidText;
    OptionalTextShort(a, None);
    OptionalTextShort(b, None);
    TextFieldCancel(OptionalOidText(a), x, OptionalOidText(b), y);
    OptionalOidTextInjective(a, b);
  }

  /** A signature speaks for one update only: the signed bytes determine every field. */
  lemma UpdateTranscriptInjective(u: RefUpdate, v: RefUpdate)
    requires Countable(u) && Countable(v)
    requires UpdateTranscript(u) == UpdateTranscript(v)
    ensures u == v
  {
    hide Be, Utf8, CidText, OptionalOidText, TextField, Ascii, Representable;
    var u6, v6 := TextField(u.tx) + TextField(u.signer), TextField(v.tx) + TextField(v.signer);
    var u5, v5 := Be(u.policyEpoch, 8) + u6, Be(v.policyEpoch, 8) + v6;
    var uf: Bytes, vf: Bytes := [BoolByte(u.force)], [BoolByte(v.force)];
    var u3, v3 := TextField(OptionalOidText(u.newOid)) + (uf + u5), TextField(OptionalOidText(v.newOid)) + (vf + v5);
    var u2, v2 := TextField(OptionalOidText(u.expectedOld)) + u3, TextField(OptionalOidText(v.expectedOld)) + v3;
    var u1, v1 := TextField(u.refName) + u2, TextField(v.refName) + v2;
    LeadCancel(Ascii("gitmesh.v0.ref-update"), TextField(CidText(u.repo)) + u1, TextField(CidText(v.repo)) + v1);
    CidFieldCancel(u.repo, u1, v.repo, v1);
    TextFieldCancel(u.refName, u2, v.refName, v2);
    OidFieldCancel(u.expectedOld, u3, v.expectedOld, v3);
    OidFieldCancel(u.newOid, uf + u5, v.newOid, vf + v5);
    ConcatCancel(uf, u5, vf, v5);
    assert uf[0] == vf[0];
    ConcatCancel(Be(u.policyEpoch, 8), u6, Be(v.policyEpoch, 8), v6);
    U64BeInjective(u.policyEpoch, v.policyEpoch);
    TextFieldCancel(u.tx, TextField(u.signer), v.tx, TextField(v.signer));
    assert TextField(u.signer) + [] == TextField(u.signer) && TextField(v.signer) + [] == TextField(v.signer);
    TextFieldCancel(u.signer, [], v.signer, []);
  }

  /** Who is taken to have signed, and why others are refused: the update must name
      the certificate's device as its signer, the certificate must be of its own keys
      and certified by the account, and the device must have signed exactly this update. */
  lemma VerifyExact(id: Network.Identity, u: RefUpdate, c: Network.Certificate, signature: Network.Bytes64)
    ensures var r := VerifyWithIdentity(id, u, c, signature);
            var genuine := id.accountOf(c.accountKey) == Some(c.accountId) && id.deviceOf(c.deviceKey) == Some(c.deviceId) &&
                           id.certified(c.accountKey, c.deviceKey, c.name, c.signature) && id.signed(c.deviceKey, UpdateTranscript(u), signature);
            && (r == Err(SignerMismatch) <==> u.signer != CidText(c.deviceId))
            && (r == Err(IdentityFailed) <==> u.signer == CidText(c.deviceId) && !genuine)
            && (r == Ok(Signed(CidText(c.accountId), CidText(c.deviceId))) <==> u.signer == CidText(c.deviceId) && genuine)
            && (r.Ok? <==> u.signer == CidText(c.deviceId) && genuine)
  {
    hide UpdateTranscript, CidText;
  }
}
