/**
 The coverage flags of one tracked path: an integer flag type with two
 members numbered automatically, so INCLUDED is bit 0 (value 1) and EXCLUDED
 is bit 1 (value 2). A path may carry neither, either or both.
 */
module CoverageStatus {

  /** A coverage status; `FullCoverageStatus(0)` is the empty status. */
  type Status = bv2

  const NONE: Status := 0
  const INCLUDED: Status := 1
  const EXCLUDED: Status := 2

  /** `status & flag` is truthy: for a single flag, its bit is set, so ORing
      it in again changes nothing. */
  function Has(status: Status, flag: Status): (r: bool)
    ensures r ==> status != NONE && flag != NONE
    ensures flag == INCLUDED || flag == EXCLUDED ==> (r <==> status | flag == status)
  {
    (status & flag) != 0
  }

  /** `status == FullCoverageStatus(0)`: no pattern has covered the path, so
      neither flag is set. */
  function IsEmpty(status: Status): (r: bool)
    ensures r <==> (status & INCLUDED) == 0 && (status & EXCLUDED) == 0
  {
    status == NONE
  }

  /** `status | flag`, the `|=` that records a pattern match. */
  function Union(status: Status, flag: Status): (r: Status)
    ensures Has(r, INCLUDED) <==> Has(status, INCLUDED) || Has(flag, INCLUDED)
    ensures Has(r, EXCLUDED) <==> Has(status, EXCLUDED) || Has(flag, EXCLUDED)
    ensures IsEmpty(r) <==> IsEmpty(status) && IsEmpty(flag)
  {
    status | flag
  }

  /** A status is exactly the set of its two bits. */
  lemma StatusIsItsBits(a: Status, b: Status)
    ensures a == b <==> (Has(a, INCLUDED) <==> Has(b, INCLUDED)) && (Has(a, EXCLUDED) <==> Has(b, EXCLUDED))
    ensures IsEmpty(a) <==> !Has(a, INCLUDED) && !Has(a, EXCLUDED)
  {
  }

  /** Setting the same flag twice is setting it once. */
  lemma UnionIdempotent(status: Status, flag: Status)
    ensures Union(Union(status, flag), flag) == Union(status, flag)
  {
  }

  /** A bit once set is never cleared by `|=`. */
  lemma UnionKeeps(status: Status, flag: Status, bit: Status)
    ensures Has(status, bit) ==> Has(Union(status, flag), bit)
  {
  }
}
