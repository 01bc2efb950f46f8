/** The signature-algorithm registry: the sign table maps a dotted OID to a
    scheme name, and an OID that has no entry (or whose entry is the empty,
    falsy, string) resolves to nothing; there is no fallback scheme. */
module AlgorithmRegistry {
  import opened OcspTypes
  import opened Encoding

  /** `ocsp.utils.sign[oid.join('.')]`, where a falsy value means "unknown". */
  function LookupAlg(table: map<string, Alg>, oid: Oid): (r: Option<Alg>)
    ensures r.Some? <==> Dotted(oid) in table && table[Dotted(oid)] != ""
    ensures r.Some? ==> r.value != "" && r.value == table[Dotted(oid)]
  {
    var key := Dotted(oid);
    if key in table && table[key] != "" then Some(table[key]) else None
  }

  /** An entry written for one OID is never found for another: the lookup of
      `oid` in a table keyed by `listed`'s dotted form succeeds only for `listed`. */
  lemma LookupOnlyMatchesOwnOid(listed: Oid, alg: Alg, oid: Oid)
    requires alg != ""
    ensures LookupAlg(map[Dotted(listed) := alg], oid) == (if oid == listed then Some(alg) else None)
  {
    DottedInjective(listed, oid);
  }
}
