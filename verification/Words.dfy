/** Machine words whose bits are moved around but not added up. */
module Words {
  /** A word is the set of its bits that are 1. */
  type Word = set<nat>

  function Bit(w: Word, b: nat): nat { if b in w then 1 else 0 }

  /** w has no bit at n or above. */
  predicate Fits(w: Word, n: nat) { forall b :: b in w ==> b < n }
}
