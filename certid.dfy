/** The CertID matcher: the CertID of the first entry is compared with the
    request's, field by field in a fixed order, and the first field that
    differs names the failure. */
module CertIdMatcher {
  import opened OcspTypes
  import opened Encoding

  predicate IsCertIdMismatch(o: Outcome) {
    o == HashAlgMismatch || o == NameHashMismatch || o == KeyHashMismatch || o == SerialMismatch
  }

  /** Compares the returned CertID with the requested one as the code does:
      the hash-algorithm OIDs as dotted strings, the two hashes as
      hexadecimal strings and the serial numbers as integers. `None` is a
      match. The contract restates each comparison on the values themselves. */
  function MatchCertId(requested: CertId, returned: CertId): (r: Option<Outcome>)
    ensures r.None? <==> returned == requested
    ensures r.Some? ==> IsCertIdMismatch(r.value)
    ensures r == Some(HashAlgMismatch) <==> returned.hashAlgorithm != requested.hashAlgorithm
    ensures r == Some(NameHashMismatch) <==>
      returned.hashAlgorithm == requested.hashAlgorithm
      && returned.issuerNameHash != requested.issuerNameHash
    ensures r == Some(KeyHashMismatch) <==>
      returned.hashAlgorithm == requested.hashAlgorithm
      && returned.issuerNameHash == requested.issuerNameHash
      && returned.issuerKeyHash != requested.issuerKeyHash
    ensures r == Some(SerialMismatch) <==>
      returned.hashAlgorithm == requested.hashAlgorithm
      && returned.issuerNameHash == requested.issuerNameHash
      && returned.issuerKeyHash == requested.issuerKeyHash
      && returned.serialNumber != requested.serialNumber
  {
    DottedInjective(returned.hashAlgorithm, requested.hashAlgorithm);
    HexInjective(returned.issuerNameHash, requested.issuerNameHash);
    HexInjective(returned.issuerKeyHash, requested.issuerKeyHash);
    if Dotted(returned.hashAlgorithm) != Dotted(requested.hashAlgorithm) then Some(HashAlgMismatch)
    else if Hex(returned.issuerNameHash) != Hex(requested.issuerNameHash) then Some(NameHashMismatch)
    else if Hex(returned.issuerKeyHash) != Hex(requested.issuerKeyHash) then Some(KeyHashMismatch)
    else if returned.serialNumber != requested.serialNumber then Some(SerialMismatch)
    else None
  }
}
