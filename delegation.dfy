/** The trusted-key step: the key that must have signed the response is the
    issuer's key, or the key of the first embedded (delegated responder)
    certificate once that certificate's own signature has been checked
    against the issuer's key. */
module Delegation {
  import opened OcspTypes
  import opened AlgorithmRegistry
  import opened Encoding

  /** The two states of key trust. */
  datatype TrustedKey = IssuerKey(key: PublicKeyInfo) | DelegatedKey(key: PublicKeyInfo)

  /** The response carries a first certificate with a subject public key
      (`res.certs[0].tbsCertificate.subjectPublicKeyInfo` present). */
  predicate DelegatedCandidate(resp: BasicResponse) {
    && |resp.certs| > 0
    && resp.certs[0].tbsCertificate.Some?
    && resp.certs[0].tbsCertificate.value.subjectPublicKeyInfo.Some?
  }

  /** The certificate's signature algorithm is listed and its signature over
      its encoded to-be-signed part verifies with the issuer's key. */
  predicate SignedByIssuer(svc: Services, issuerKey: PublicKeyInfo, cert: Certificate) {
    && cert.tbsCertificate.Some?
    && LookupAlg(svc.signTable, cert.signatureAlgorithm).Some?
    && svc.sigOk(issuerKey, LookupAlg(svc.signTable, cert.signatureAlgorithm).value,
                 svc.encodeTbsCertificate(cert.tbsCertificate.value), cert.signature)
  }

  /** Chooses the key for the response signature. Only `certs[0]` is looked
      at; a delegated key is trusted only if the issuer signed its certificate. */
  function ChooseTrustedKey(svc: Services, issuerKey: PublicKeyInfo, resp: BasicResponse): (r: Step<TrustedKey>)
    ensures !DelegatedCandidate(resp) ==> r == Continue(IssuerKey(issuerKey))
    ensures DelegatedCandidate(resp) ==>
      (r.Continue? <==> SignedByIssuer(svc, issuerKey, resp.certs[0]))
      && (r.Continue? ==> r.value == DelegatedKey(resp.certs[0].tbsCertificate.value.subjectPublicKeyInfo.value))
      && (r.Stop? ==> r.outcome == (if LookupAlg(svc.signTable, resp.certs[0].signatureAlgorithm).None?
                                    then UnknownAlg else InvalidSignature))
  {
    if |resp.certs| == 0 then Continue(IssuerKey(issuerKey))
    else
      var cert := resp.certs[0];
      if cert.tbsCertificate.None? || cert.tbsCertificate.value.subjectPublicKeyInfo.None? then
        Continue(IssuerKey(issuerKey))
      else
        var tbs := cert.tbsCertificate.value;
        match LookupAlg(svc.signTable, cert.signatureAlgorithm)
        case None => Stop(UnknownAlg)
        case Some(alg) =>
          if !svc.sigOk(issuerKey, alg, svc.encodeTbsCertificate(tbs), cert.signature) then Stop(InvalidSignature)
          else Continue(DelegatedKey(tbs.subjectPublicKeyInfo.value))
  }

  /** Whatever key is chosen is either the issuer's own key, with no
      delegation offered, or a key the issuer vouched for. */
  lemma TrustedKeyIsAuthorized(svc: Services, issuerKey: PublicKeyInfo, resp: BasicResponse)
    requires ChooseTrustedKey(svc, issuerKey, resp).Continue?
    ensures var k := ChooseTrustedKey(svc, issuerKey, resp).value.key;
      || (k == issuerKey && !DelegatedCandidate(resp))
      || (&& DelegatedCandidate(resp)
          && k == resp.certs[0].tbsCertificate.value.subjectPublicKeyInfo.value
          && SignedByIssuer(svc, issuerKey, resp.certs[0]))
  {
  }

  /** Certificates after the first never influence the choice. */
  lemma OnlyFirstCertificateExamined(svc: Services, issuerKey: PublicKeyInfo, resp: BasicResponse, tail: seq<Certificate>)
    requires |resp.certs| > 0
    ensures ChooseTrustedKey(svc, issuerKey, resp)
         == ChooseTrustedKey(svc, issuerKey, resp.(certs := [resp.certs[0]] + tail))
  {
  }

  /** What the delegated-certificate step does as the code is written:
      either it returns a step, or `crypto.createVerify` is handed an
      undefined (or empty) algorithm name and throws. The throw happens
      outside the try block, so it leaves the check without any completion. */
  datatype AsWrittenStep = Returns(step: Step<TrustedKey>) | Throws

  function DelegationAsWritten(svc: Services, issuerKey: PublicKeyInfo, resp: BasicResponse): (r: AsWrittenStep)
    ensures r.Throws? <==>
      DelegatedCandidate(resp) && LookupAlg(svc.signTable, resp.certs[0].signatureAlgorithm).None?
    ensures r.Returns? && r.step.Continue? && r.step.value.DelegatedKey? ==>
      DelegatedCandidate(resp) && SignedByIssuer(svc, issuerKey, resp.certs[0])
  {
    if |resp.certs| == 0 then Returns(Continue(IssuerKey(issuerKey)))
    else
      var cert := resp.certs[0];
      if cert.tbsCertificate.None? || cert.tbsCertificate.value.subjectPublicKeyInfo.None? then
        Returns(Continue(IssuerKey(issuerKey)))
      else
        var tbs := cert.tbsCertificate.value;
        var key := Dotted(cert.signatureAlgorithm);
        if key !in svc.signTable || svc.signTable[key] == "" then Throws
        else if !svc.sigOk(issuerKey, svc.signTable[key], svc.encodeTbsCertificate(tbs), cert.signature) then
          Returns(Stop(InvalidSignature))
        else Returns(Continue(DelegatedKey(tbs.subjectPublicKeyInfo.value)))
  }

  /** The discrepancy: a delegated certificate signed with an algorithm the
      table does not list makes the code throw, so the caller's callback is
      never called, although the check promises exactly one completion. */
  lemma UnlistedDelegatedAlgorithmThrows(svc: Services, issuerKey: PublicKeyInfo, resp: BasicResponse)
    requires DelegatedCandidate(resp)
    requires LookupAlg(svc.signTable, resp.certs[0].signatureAlgorithm).None?
    ensures DelegationAsWritten(svc, issuerKey, resp) == Throws
  {
  }

  /** The corrected step agrees with the code wherever the code completes,
      and reports UnknownAlg exactly where the code would throw. */
  lemma CorrectedStepRefinesAsWritten(svc: Services, issuerKey: PublicKeyInfo, resp: BasicResponse)
    ensures DelegationAsWritten(svc, issuerKey, resp).Returns? ==>
      DelegationAsWritten(svc, issuerKey, resp).step == ChooseTrustedKey(svc, issuerKey, resp)
    ensures DelegationAsWritten(svc, issuerKey, resp).Throws? <==>
      ChooseTrustedKey(svc, issuerKey, resp) == Stop(UnknownAlg)
  {
  }
}
