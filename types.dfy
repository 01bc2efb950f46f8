/** The decoded values that the OCSP response check works on (RFC 6960,
    with the ASN.1 schema of RFC 2560), the options of one call, the
    collaborators it consumes and the outcome it reports. */
module OcspTypes {

  datatype Option<+T> = None | Some(value: T)

  type byte = x: int | 0 <= x < 256

  type Bytes = seq<byte>

  /** An object identifier as its arcs, e.g. [1, 3, 14, 3, 2, 26] for SHA-1. */
  type Oid = seq<nat>

  /** The name of a signature scheme as the sign table gives it
      (for example "sha256WithRSAEncryption"). */
  type Alg = string

  /** SubjectPublicKeyInfo: the key that a signature is checked with. */
  datatype PublicKeyInfo = PublicKeyInfo(algorithm: Oid, subjectPublicKey: Bytes)

  /** The trust anchor: the decoded issuer certificate, of which the check
      uses only the subject public key. */
  datatype IssuerCertificate = IssuerCertificate(subjectPublicKeyInfo: PublicKeyInfo)

  /** The to-be-signed part of a certificate carried in a response. The
      fields the check never reads are kept as the opaque `otherFields`. */
  datatype TbsCertificate = TbsCertificate(
    subjectPublicKeyInfo: Option<PublicKeyInfo>,
    otherFields: Bytes)

  /** A certificate embedded in a response (a delegated responder). */
  datatype Certificate = Certificate(
    tbsCertificate: Option<TbsCertificate>,
    signatureAlgorithm: Oid,
    signature: Bytes)

  /** CertID of RFC 6960 section 4.1.1. */
  datatype CertId = CertId(
    hashAlgorithm: Oid,
    issuerNameHash: Bytes,
    issuerKeyHash: Bytes,
    serialNumber: int)

  datatype CertStatus =
    | Good
    | Revoked(revocationTime: int, revocationReason: Option<nat>)
    | Unknown

  /** SingleResponse; times are milliseconds since the epoch, and an absent
      nextUpdate is `None`. */
  datatype SingleResponse = SingleResponse(
    certId: CertId,
    certStatus: CertStatus,
    thisUpdate: int,
    nextUpdate: Option<int>)

  /** ResponseData: the signed payload. responderID, producedAt and the
      extensions are opaque to the check. */
  datatype ResponseData = ResponseData(responses: seq<SingleResponse>, otherFields: Bytes)

  /** BasicOCSPResponse. An absent `certs` field is the empty sequence. */
  datatype BasicResponse = BasicResponse(
    tbsResponseData: ResponseData,
    signatureAlgorithm: Oid,
    signature: Bytes,
    certs: seq<Certificate>)

  /** The original request: its CertID and, optionally, the issuer already decoded. */
  datatype Request = Request(certId: CertId, issuer: Option<IssuerCertificate>)

  /** The options of one call; `nudge` is `None` when not given. */
  datatype VerifyOptions = VerifyOptions(
    request: Request,
    issuer: Bytes,
    response: Bytes,
    nudge: Option<int>)

  /** The collaborators the check consumes and does not implement: the
      decoders (`None` is a thrown decoding error), the DER encoders, the
      signature primitive and the table from dotted OID to scheme name. */
  datatype Services = Services(
    decodeIssuer: Bytes -> Option<IssuerCertificate>,
    parseResponse: Bytes -> Option<BasicResponse>,
    encodeResponseData: ResponseData -> Bytes,
    encodeTbsCertificate: TbsCertificate -> Bytes,
    sigOk: (PublicKeyInfo, Alg, Bytes, Bytes) -> bool,
    signTable: map<string, Alg>)

  /** The terminal result of one check. */
  datatype Outcome =
    | Success(entry: SingleResponse)
    | DecodeError
    | UnknownAlg
    | InvalidSignature
    | MissingResponse
    | HashAlgMismatch
    | NameHashMismatch
    | KeyHashMismatch
    | SerialMismatch
    | BadStatus(status: CertStatus)
    | Expired

  /** The outcome of a step of the chain: go on with a value, or stop with
      a terminal outcome. */
  datatype Step<+T> = Continue(value: T) | Stop(outcome: Outcome)

  /** The value the completion callback receives as its second argument:
      nothing before the response is parsed, the parsed response until the
      first entry is taken, and that entry afterwards. */
  datatype ResValue = Unset | Parsed(response: BasicResponse) | FirstEntry(entry: SingleResponse)

  /** The single completion of a call: the outcome and the value passed along. */
  datatype Completion = Completion(outcome: Outcome, res: ResValue)
}
