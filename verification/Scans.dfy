/** What the scans over a bitmap mean, whatever the bitmap is made of. */
module Scans {

  /** EINVAL, ENOENT, or the bit that was found. */
  datatype Scan = Invalid | NotFound | FoundAt(bit: nat)

  /** `r` is what a scan of first..last, bit by bit, for the first bit with property `p` gives. */
  ghost predicate FirstOf(p: nat -> bool, first: nat, last: nat, r: Scan) {
    match r
    case Invalid => first > last
    case NotFound => first <= last && forall b: nat :: first <= b <= last ==> !p(b)
    case FoundAt(bit) => first <= bit <= last && p(bit) && forall b: nat :: first <= b < bit ==> !p(b)
  }

  /** That is a single answer, so two scans that both meet it agree. */
  lemma FirstOfUnique(p: nat -> bool, q: nat -> bool, first: nat, last: nat, r: Scan, r': Scan)
    requires forall b: nat :: first <= b <= last ==> p(b) == q(b)
    requires FirstOf(p, first, last, r) && FirstOf(q, first, last, r')
    ensures r == r'
  {
    if r.FoundAt? && r'.FoundAt? {
      assert p(r'.bit) == q(r'.bit) && p(r.bit) == q(r.bit);
    }
  }
}
