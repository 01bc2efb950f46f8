/** The verification orchestrator: decode, choose the trusted key, check the
    response signature, take the first entry, match its CertID, then its
    status and freshness. The first failing check decides the outcome, and
    the single completion carries that outcome and the value that `res`
    holds at that point. */
module Verification {
  import opened OcspTypes
  import opened AlgorithmRegistry
  import opened CertIdMatcher
  import opened StatusFreshness
  import opened Delegation

  /** `req.issuer || decode(toDER(options.issuer))`: an issuer that the
      request already carries is used without decoding anything. */
  function IssuerOf(svc: Services, opts: VerifyOptions): (r: Option<IssuerCertificate>)
    ensures opts.request.issuer.Some? ==> r == opts.request.issuer
    ensures opts.request.issuer.None? ==> r == svc.decodeIssuer(opts.issuer)
    ensures r.Some? <==> opts.request.issuer.Some? || svc.decodeIssuer(opts.issuer).Some?
  {
    if opts.request.issuer.Some? then opts.request.issuer else svc.decodeIssuer(opts.issuer)
  }

  /** Reference statement of the signature requirement (RFC 6960 section 3.2
      item 2, with delegation as the code does it, without the extended key
      usage check of section 4.2.2.2): the response's
      algorithm is listed, and the encoded response data verifies under the
      issuer's key when no delegated certificate is offered, and otherwise
      under the delegated key of a certificate the issuer signed. */
  predicate SignedByAuthorizedKey(svc: Services, issuerKey: PublicKeyInfo, resp: BasicResponse) {
    var alg := LookupAlg(svc.signTable, resp.signatureAlgorithm);
    var payload := svc.encodeResponseData(resp.tbsResponseData);
    && alg.Some?
    && if DelegatedCandidate(resp) then
         && SignedByIssuer(svc, issuerKey, resp.certs[0])
         && svc.sigOk(resp.certs[0].tbsCertificate.value.subjectPublicKeyInfo.value, alg.value, payload, resp.signature)
       else
         svc.sigOk(issuerKey, alg.value, payload, resp.signature)
  }

  /** Reference statement of what an entry must satisfy: it is about the
      requested certificate, its status is good, and `now` is inside the
      window widened by `nudge`. */
  predicate EntryAcceptable(requested: CertId, entry: SingleResponse, nudge: int, now: int) {
    && entry.certId == requested
    && entry.certStatus == Good
    && entry.thisUpdate - nudge <= now
    && (entry.nextUpdate.Some? ==> now <= entry.nextUpdate.value + nudge)
  }

  /** All acceptance requirements of one decoded response. */
  predicate AcceptanceRequirements(svc: Services, requested: CertId, issuer: IssuerCertificate,
                                   resp: BasicResponse, nudge: int, now: int) {
    && SignedByAuthorizedKey(svc, issuer.subjectPublicKeyInfo, resp)
    && |resp.tbsResponseData.responses| > 0
    && EntryAcceptable(requested, resp.tbsResponseData.responses[0], nudge, now)
  }

  /** The checks on the signed envelope, in the code's order: algorithm
      lookup, trusted key, response signature, at least one entry. `None`
      means all passed. */
  function CheckSignedResponse(svc: Services, issuerKey: PublicKeyInfo, resp: BasicResponse): (r: Option<Outcome>)
    ensures r.None? <==> SignedByAuthorizedKey(svc, issuerKey, resp) && |resp.tbsResponseData.responses| > 0
    ensures r.Some? ==> r.value == UnknownAlg || r.value == InvalidSignature || r.value == MissingResponse
    ensures LookupAlg(svc.signTable, resp.signatureAlgorithm).None? ==> r == Some(UnknownAlg)
    ensures r == Some(MissingResponse) <==>
      SignedByAuthorizedKey(svc, issuerKey, resp) && |resp.tbsResponseData.responses| == 0
    ensures r == Some(UnknownAlg) <==>
      || LookupAlg(svc.signTable, resp.signatureAlgorithm).None?
      || (DelegatedCandidate(resp) && LookupAlg(svc.signTable, resp.certs[0].signatureAlgorithm).None?)
  {
    match LookupAlg(svc.signTable, resp.signatureAlgorithm)
    case None => Some(UnknownAlg)
    case Some(alg) =>
      match ChooseTrustedKey(svc, issuerKey, resp)
      case Stop(failure) => Some(failure)
      case Continue(trusted) =>
        if !svc.sigOk(trusted.key, alg, svc.encodeResponseData(resp.tbsResponseData), resp.signature) then
          Some(InvalidSignature)
        else if |resp.tbsResponseData.responses| < 1 then Some(MissingResponse)
        else None
  }

  /** The checks on the first entry: CertID, then status, then freshness. */
  function CheckEntry(requested: CertId, entry: SingleResponse, nudge: int, now: int): (r: Outcome)
    ensures r.Success? <==> EntryAcceptable(requested, entry, nudge, now)
    ensures r.Success? ==> r.entry == entry
    ensures entry.certId != requested <==> IsCertIdMismatch(r)
    ensures entry.certId == requested && entry.certStatus != Good ==> r == BadStatus(entry.certStatus)
    ensures r == Expired <==>
      && entry.certId == requested && entry.certStatus == Good
      && IsExpired(entry.thisUpdate, entry.nextUpdate, nudge, now)
    ensures IsCertIdMismatch(r) ==> MatchCertId(requested, entry.certId) == Some(r)
  {
    match MatchCertId(requested, entry.certId)
    case Some(mismatch) => mismatch
    case None => EvaluateEntry(entry, nudge, now)
  }

  /** One call of the check. */
  function Verify(svc: Services, opts: VerifyOptions, now: int): (c: Completion)
    ensures c.outcome.Success? ==> c.res == FirstEntry(c.outcome.entry)
    ensures c.res == Unset <==> c.outcome == DecodeError
    ensures c.res.Parsed? <==>
      c.outcome == UnknownAlg || c.outcome == InvalidSignature || c.outcome == MissingResponse
    ensures c.res.FirstEntry? ==>
      && svc.parseResponse(opts.response).Some?
      && |svc.parseResponse(opts.response).value.tbsResponseData.responses| > 0
      && c.res.entry == svc.parseResponse(opts.response).value.tbsResponseData.responses[0]
    ensures c.res.Parsed? ==> svc.parseResponse(opts.response) == Some(c.res.response)
    ensures c.res.FirstEntry? ==>
      c.outcome == CheckEntry(opts.request.certId, c.res.entry, EffectiveNudge(opts.nudge), now)
    ensures c == Completion(DecodeError, Unset) <==>
      IssuerOf(svc, opts).None? || svc.parseResponse(opts.response).None?
    ensures c.res.Parsed? ==>
      CheckSignedResponse(svc, IssuerOf(svc, opts).value.subjectPublicKeyInfo, c.res.response) == Some(c.outcome)
    ensures c.res.FirstEntry? ==>
      CheckSignedResponse(svc, IssuerOf(svc, opts).value.subjectPublicKeyInfo,
                          svc.parseResponse(opts.response).value).None?
  {
    match IssuerOf(svc, opts)
    case None => Completion(DecodeError, Unset)
    case Some(issuer) =>
      match svc.parseResponse(opts.response)
      case None => Completion(DecodeError, Unset)
      case Some(resp) =>
        match CheckSignedResponse(svc, issuer.subjectPublicKeyInfo, resp)
        case Some(failure) => Completion(failure, Parsed(resp))
        case None =>
          var entry := resp.tbsResponseData.responses[0];
          Completion(CheckEntry(opts.request.certId, entry, EffectiveNudge(opts.nudge), now), FirstEntry(entry))
  }

  /** Success exactly when every requirement holds, and then the result
      passed along is the first entry of the response. */
  lemma VerifyAcceptsIff(svc: Services, opts: VerifyOptions, now: int)
    ensures Verify(svc, opts, now).outcome.Success? <==>
      && IssuerOf(svc, opts).Some?
      && svc.parseResponse(opts.response).Some?
      && AcceptanceRequirements(svc, opts.request.certId, IssuerOf(svc, opts).value,
                                svc.parseResponse(opts.response).value, EffectiveNudge(opts.nudge), now)
    ensures Verify(svc, opts, now).outcome.Success? ==>
      Verify(svc, opts, now).outcome.entry == svc.parseResponse(opts.response).value.tbsResponseData.responses[0]
  {
  }

  /** A failure to decode the issuer or the response ends the check before
      any algorithm, key or signature is looked at. */
  lemma DecodeFailureStops(svc: Services, opts: VerifyOptions, now: int)
    requires IssuerOf(svc, opts).None? || svc.parseResponse(opts.response).None?
    ensures Verify(svc, opts, now) == Completion(DecodeError, Unset)
  {
  }

  /** An issuer carried by the request makes the issuer bytes and the issuer
      decoder irrelevant. */
  lemma PreDecodedIssuerSkipsDecoding(svc: Services, opts: VerifyOptions, now: int,
                                      decoder: Bytes -> Option<IssuerCertificate>, issuerBytes: Bytes)
    requires opts.request.issuer.Some?
    ensures Verify(svc, opts, now) == Verify(svc.(decodeIssuer := decoder), opts.(issuer := issuerBytes), now)
  {
  }

  /** An unlisted response algorithm is reported before any signature is
      checked: the outcome is the same whatever the signature primitive says. */
  lemma UnknownAlgorithmPrecedesSignatures(svc: Services, opts: VerifyOptions, now: int,
                                           primitive: (PublicKeyInfo, Alg, Bytes, Bytes) -> bool)
    requires IssuerOf(svc, opts).Some? && svc.parseResponse(opts.response).Some?
    requires LookupAlg(svc.signTable, svc.parseResponse(opts.response).value.signatureAlgorithm).None?
    ensures Verify(svc, opts, now) == Completion(UnknownAlg, Parsed(svc.parseResponse(opts.response).value))
    ensures Verify(svc.(sigOk := primitive), opts, now) == Verify(svc, opts, now)
  {
  }

  /** A delegated certificate that the issuer did not sign is rejected even
      when the response itself verifies under that certificate's key. */
  lemma ForgedDelegationRejected(svc: Services, opts: VerifyOptions, now: int)
    requires IssuerOf(svc, opts).Some? && svc.parseResponse(opts.response).Some?
    requires var resp := svc.parseResponse(opts.response).value;
      && LookupAlg(svc.signTable, resp.signatureAlgorithm).Some?
      && DelegatedCandidate(resp)
      && LookupAlg(svc.signTable, resp.certs[0].signatureAlgorithm).Some?
      && !SignedByIssuer(svc, IssuerOf(svc, opts).value.subjectPublicKeyInfo, resp.certs[0])
    ensures Verify(svc, opts, now).outcome == InvalidSignature
  {
  }

  /** A response signature that fails under the trusted key is reported
      before the entries, the CertID, the status or the clock are examined. */
  lemma BadResponseSignatureRejected(svc: Services, opts: VerifyOptions, now: int)
    requires IssuerOf(svc, opts).Some? && svc.parseResponse(opts.response).Some?
    requires var resp := svc.parseResponse(opts.response).value;
      var trusted := ChooseTrustedKey(svc, IssuerOf(svc, opts).value.subjectPublicKeyInfo, resp);
      && LookupAlg(svc.signTable, resp.signatureAlgorithm).Some?
      && trusted.Continue?
      && !svc.sigOk(trusted.value.key, LookupAlg(svc.signTable, resp.signatureAlgorithm).value,
                    svc.encodeResponseData(resp.tbsResponseData), resp.signature)
    ensures Verify(svc, opts, now) == Completion(InvalidSignature, Parsed(svc.parseResponse(opts.response).value))
  {
  }

  /** A correctly signed response without entries is a missing response. */
  lemma NoEntriesIsMissingResponse(svc: Services, opts: VerifyOptions, now: int)
    requires IssuerOf(svc, opts).Some? && svc.parseResponse(opts.response).Some?
    requires var resp := svc.parseResponse(opts.response).value;
      && SignedByAuthorizedKey(svc, IssuerOf(svc, opts).value.subjectPublicKeyInfo, resp)
      && |resp.tbsResponseData.responses| == 0
    ensures Verify(svc, opts, now).outcome == MissingResponse
  {
  }

  /** After the signature, only the first entry decides: two responses that
      pass the envelope checks and share their first entry get the same
      outcome, whatever else they hold. */
  lemma OnlyFirstEntryExamined(svc: Services, opts: VerifyOptions, opts': VerifyOptions, now: int)
    requires opts'.request == opts.request && opts'.nudge == opts.nudge
    requires IssuerOf(svc, opts).Some? && IssuerOf(svc, opts').Some?
    requires svc.parseResponse(opts.response).Some? && svc.parseResponse(opts'.response).Some?
    requires var resp := svc.parseResponse(opts.response).value;
      var resp' := svc.parseResponse(opts'.response).value;
      && CheckSignedResponse(svc, IssuerOf(svc, opts).value.subjectPublicKeyInfo, resp).None?
      && CheckSignedResponse(svc, IssuerOf(svc, opts').value.subjectPublicKeyInfo, resp').None?
      && resp.tbsResponseData.responses[0] == resp'.tbsResponseData.responses[0]
    ensures Verify(svc, opts, now) == Verify(svc, opts', now)
  {
  }

  /** A status other than good is never accepted, even when every other
      requirement holds, and the failure names the status. */
  lemma NotGoodNeverAccepted(svc: Services, opts: VerifyOptions, now: int)
    requires IssuerOf(svc, opts).Some? && svc.parseResponse(opts.response).Some?
    requires var resp := svc.parseResponse(opts.response).value;
      && SignedByAuthorizedKey(svc, IssuerOf(svc, opts).value.subjectPublicKeyInfo, resp)
      && |resp.tbsResponseData.responses| > 0
      && resp.tbsResponseData.responses[0].certId == opts.request.certId
      && resp.tbsResponseData.responses[0].certStatus != Good
    ensures Verify(svc, opts, now).outcome
         == BadStatus(svc.parseResponse(opts.response).value.tbsResponseData.responses[0].certStatus)
  {
  }
}
