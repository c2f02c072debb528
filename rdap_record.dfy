/** The part of a registry (RDAP) answer the cache reads, and the choice of
    the CIDR key and organisation name stored for it (whois_lookup.py:23-24). */
module RdapRecord {
  import opened Options
  import opened IpNet

  /** The fields of an RDAP result the lookup reads. A field that is absent,
      `None`, or empty in the result is `None` here; a present CIDR is already
      parsed as a strict network. A result without a `network` object has both
      network-level fields `None`. */
  datatype Record = Record(
    netCidr: Option<Network>,          // result['network']['cidr']
    netName: Option<string>,           // result['network']['name']
    asnCidr: Option<Network>,          // result['asn_cidr']
    asnDescription: Option<string>     // result['asn_description']
  )

  /** Python truthiness of an optional string: present and non-empty. */
  predicate Truthy(s: Option<string>) {
    s.Some? && s.value != ""
  }

  /** `network.cidr or asn_cidr`: the network-level block whenever there is
      one, otherwise the ASN-level block (which may itself be missing). */
  function ChooseCidr(r: Record): (c: Option<Network>)
    ensures c.Some? <==> r.netCidr.Some? || r.asnCidr.Some?
    ensures r.netCidr.Some? ==> c == r.netCidr
    ensures r.netCidr.None? ==> c == r.asnCidr
  {
    if r.netCidr.Some? then r.netCidr else r.asnCidr
  }

  /** `network.name or asn_description`: the network-level name when it is
      truthy, otherwise the ASN description exactly as given (which may be
      missing or empty: Python's `or` returns its right operand unchanged). */
  function ChooseName(r: Record): (n: Option<string>)
    ensures Truthy(r.netName) ==> n == r.netName
    ensures !Truthy(r.netName) ==> n == r.asnDescription
    ensures Truthy(n) <==> Truthy(r.netName) || Truthy(r.asnDescription)
  {
    if Truthy(r.netName) then r.netName else r.asnDescription
  }
}
