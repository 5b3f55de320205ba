/** 64-bit words used as bit sets: a word is the set of the positions of its one-bits. */
module Words {

  type Word = w: set<int> | forall i :: i in w ==> 0 <= i < 64

  const ZERO: Word := {}

  /** The top bit of a cron field, set when the field is a wildcard. */
  const STAR: nat := 63

  /** All 64 bits: the largest unsigned 64-bit integer. */
  const ONES: Word := set i | 0 <= i < 64

  function Not(w: Word): Word {
    ONES - w
  }

  function And(v: Word, w: Word): Word {
    v * w
  }

  function Or(v: Word, w: Word): Word {
    v + w
  }

  /** Bits shifted past position 63 are lost. */
  function ShiftLeft(w: Word, n: nat): Word {
    set i | i in w && i + n < 64 :: i + n
  }

  /** `1 << n`; zero from position 64 on. */
  function BitAt(n: nat): (b: Word)
    ensures b == if n < 64 then {n} else {}
  {
    assert n < 64 ==> 0 in {0} && 0 + n in ShiftLeft({0}, n);
    ShiftLeft({0}, n)
  }

  /** Whether the bit at position `i` is set. */
  predicate HasBit(w: Word, i: int) {
    i in w
  }

  /** The bit test as the code writes it: shift a one into place, mask, compare with zero. */
  predicate TestBit(w: Word, i: nat)
    ensures TestBit(w, i) <==> HasBit(w, i)
  {
    assert i in w ==> i in And(BitAt(i), w);
    And(BitAt(i), w) != ZERO
  }
}
