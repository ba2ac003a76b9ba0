/**
 * The values generate-geo.js passes around: the two RPC results, the joined
 * validator, the geolocation answer and the saved record.
 */
module Records {

  datatype Option<T> = None | Some(value: T)

  /** An entry of `getClusterNodes`; `gossip` is `null` for a node that advertises none. */
  datatype ClusterNode = ClusterNode(pubkey: string, gossip: Option<string>)

  /** An entry of `current` or `delinquent` in `getVoteAccounts`. */
  datatype VoteAccount = VoteAccount(nodePubkey: string, votePubkey: string)

  /** An element of the array `getValidatorIPs` returns. */
  datatype Validator = Validator(nodePubkey: string, votePubkey: string, ip: string)

  /**
   * The fields `geolocateIP` copies out of a successful lookup. Latitude and
   * longitude are numbers in the source; only whether `lat` is zero matters to
   * the reconciliation, so they are integers here.
   */
  datatype Geo = Geo(country: string, countryCode: string, region: string, city: string,
                     lat: int, lon: int, isp: string)

  /** A saved record: the validator's three fields, with the location fields when a lookup succeeded. */
  datatype Record = Record(nodePubkey: string, votePubkey: string, ip: string, geo: Option<Geo>)

  /** `{nodePubkey, votePubkey, ip}` with no location fields. */
  function Bare(v: Validator): Record
  {
    Record(v.nodePubkey, v.votePubkey, v.ip, None)
  }

  /** `{nodePubkey, votePubkey, ip, ...geo}`. */
  function Located(v: Validator, g: Geo): Record
  {
    Record(v.nodePubkey, v.votePubkey, v.ip, Some(g))
  }

  /** No two validators share a node key. */
  predicate DistinctNodes(vs: seq<Validator>)
  {
    forall i, j :: 0 <= i < j < |vs| ==> vs[i].nodePubkey != vs[j].nodePubkey
  }

  /** JavaScript truthiness of `record.lat`: present and not zero. */
  predicate HasLat(r: Record)
  {
    r.geo.Some? && r.geo.value.lat != 0
  }
}
