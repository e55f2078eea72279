/** Arithmetic of the 24-bit value field over a free level bit.

    A frag of depth `b` (0 to 24) has the level bit `c == 0x1000000 >> b`:
    a single bit, the lowest one its mask keeps (or the bit just above the
    field, for the root). `StepMask(c)` is that mask, `Half(c)` the level
    bit of its children and `Twice(c)` that of its parent. The functions
    below compute the value field of a neighbouring node from the value `v`
    of a node with level bit `c`, as the header's operations do, and the
    lemmas state how they fit together. Stating them over a free `c` keeps
    the shift by the depth out of them. */
module FragStep {

  /** `c` is a level bit: a single bit no higher than 2^24. */
  predicate IsStep(c: bv32)
  {
    c != 0 && c & (c - 1) == 0 && c <= 0x100_0000
  }

  /** The mask of the frag whose level bit is `c`: the value bits from `c`
      up to bit 23. */
  function StepMask(c: bv32): bv32
  {
    0x100_0000 - c
  }

  /** `v` has no bit outside `m`. */
  predicate Within(v: bv32, m: bv32)
  {
    v & m == v
  }

  /** `x` restricted to `m` is `v`. */
  predicate Matches(x: bv32, m: bv32, v: bv32)
  {
    x & m == v
  }

  /** Bit `c` of `v` is set. */
  predicate HasBit(v: bv32, c: bv32)
  {
    v & c != 0
  }

  /** `v` cut to the mask of level bit `c`. */
  function Cut(v: bv32, c: bv32): bv32
  {
    v & StepMask(c)
  }

  /** The level bit one step down. */
  function Half(c: bv32): bv32
  {
    c >> 1
  }

  /** The level bit one step up. */
  function Twice(c: bv32): bv32
  {
    c + c
  }

  /** `v` with the bits of `y` set. */
  function Splice(v: bv32, y: bv32): bv32
  {
    v | y
  }

  /** The left child's value: `v` cut to the child's mask. */
  function LeftVal(v: bv32, c: bv32): bv32
  {
    v & StepMask(Half(c))
  }

  /** The right child's value: the child's level bit set. */
  function RightVal(v: bv32, c: bv32): bv32
  {
    (v | Half(c)) & StepMask(Half(c))
  }

  /** The parent's value: `v` cut to the node's mask shifted up one bit,
      then to the parent's mask. */
  function UpVal(v: bv32, c: bv32): bv32
  {
    (v & (StepMask(c) << 1)) & StepMask(Twice(c))
  }

  /** The sibling's value: the level bit flipped. */
  function FlipVal(v: bv32, c: bv32): bv32
  {
    (v ^ c) & StepMask(c)
  }

  /** The successor's value: one level step added, the carry out of the
      mask dropped. */
  function SuccVal(v: bv32, c: bv32): bv32
  {
    (v + c) & StepMask(c)
  }

  // Level bits

  lemma HalfStep(c: bv32)
    requires IsStep(c) && c != 1
    ensures IsStep(Half(c)) && Half(c) < c && Twice(Half(c)) == c
  {
  }

  lemma TwiceStep(c: bv32)
    requires IsStep(c) && c != 0x100_0000
    ensures IsStep(Twice(c)) && c < Twice(c) && Half(Twice(c)) == c
  {
  }

  // What each step keeps within its mask

  /** Cutting keeps exactly the value bits of the mask. */
  lemma CutWithin(v: bv32, c: bv32)
    requires IsStep(c)
    ensures Within(Cut(v, c), StepMask(c)) && Matches(v, StepMask(c), Cut(v, c))
    ensures Within(v, StepMask(c)) ==> Cut(v, c) == v
  {
  }

  // Steps that undo each other

  lemma UpLeftVal(v: bv32, c: bv32)
    requires IsStep(c) && c != 1 && Within(v, StepMask(c))
    ensures UpVal(LeftVal(v, c), Half(c)) == v
  {
  }

  lemma UpRightVal(v: bv32, c: bv32)
    requires IsStep(c) && c != 1 && Within(v, StepMask(c))
    ensures UpVal(RightVal(v, c), Half(c)) == v
  {
  }

  lemma FlipLeftVal(v: bv32, c: bv32)
    requires IsStep(c) && c != 1 && Within(v, StepMask(c))
    ensures FlipVal(LeftVal(v, c), Half(c)) == RightVal(v, c)
  {
  }

  lemma FlipRightVal(v: bv32, c: bv32)
    requires IsStep(c) && c != 1 && Within(v, StepMask(c))
    ensures FlipVal(RightVal(v, c), Half(c)) == LeftVal(v, c)
  {
  }

  lemma FlipFlipVal(v: bv32, c: bv32)
    requires IsStep(c) && Within(v, StepMask(c))
    ensures FlipVal(FlipVal(v, c), c) == v
  {
  }

  /** A value with bit `c` clear is the left child of its parent, and only
      such a value is. */
  lemma LeftUpVal(v: bv32, c: bv32)
    requires IsStep(c) && c != 0x100_0000 && Within(v, StepMask(c))
    ensures LeftVal(UpVal(v, c), Twice(c)) == v <==> !HasBit(v, c)
  {
  }

  /** A value with bit `c` set is the right child of its parent, and only
      such a value is. */
  lemma RightUpVal(v: bv32, c: bv32)
    requires IsStep(c) && c != 0x100_0000 && Within(v, StepMask(c))
    ensures RightVal(UpVal(v, c), Twice(c)) == v <==> HasBit(v, c)
  {
  }

  // Successors

  lemma SuccLeftVal(v: bv32, c: bv32)
    requires IsStep(c) && c != 1 && Within(v, StepMask(c))
    ensures SuccVal(LeftVal(v, c), Half(c)) == RightVal(v, c)
  {
  }

  lemma SuccRightRaw(v: bv32, c: bv32)
    requires IsStep(c) && c != 1 && Within(v, StepMask(c))
    ensures (((v | (c >> 1)) & StepMask(c >> 1)) + (c >> 1)) & StepMask(c >> 1) ==
      ((v + c) & StepMask(c)) & StepMask(c >> 1)
  {
  }

  lemma SuccRightForm(v: bv32, c: bv32)
    ensures SuccVal(RightVal(v, c), Half(c)) ==
      (((v | (c >> 1)) & StepMask(c >> 1)) + (c >> 1)) & StepMask(c >> 1)
  {
  }

  lemma LeftSuccForm(v: bv32, c: bv32)
    ensures LeftVal(SuccVal(v, c), c) == ((v + c) & StepMask(c)) & StepMask(c >> 1)
  {
  }

  /** The successor of a right child carries into the parent's bit: it is
      the left child of the parent's successor. */
  lemma SuccRightVal(v: bv32, c: bv32)
    requires IsStep(c) && c != 1 && Within(v, StepMask(c))
    ensures SuccVal(RightVal(v, c), Half(c)) == LeftVal(SuccVal(v, c), c)
  {
    SuccRightForm(v, c);
    LeftSuccForm(v, c);
    SuccRightRaw(v, c);
  }

  /** The successor of the all-ones value wraps to zero. */
  lemma SuccLastVal(c: bv32)
    requires IsStep(c)
    ensures SuccVal(StepMask(c), c) == 0
  {
  }

  /** On a value within its mask, the successor adds the level bit modulo
      2^24. */
  lemma SuccValWrap(v: bv32, c: bv32)
    requires IsStep(c) && Within(v, StepMask(c))
    ensures SuccVal(v, c) == (v + c) & 0xff_ffff
  {
  }

  // Containment

  lemma LeftValInside(v: bv32, c: bv32)
    requires IsStep(c) && c != 1 && Within(v, StepMask(c))
    ensures Matches(LeftVal(v, c), StepMask(c), v)
  {
  }

  lemma RightValInside(v: bv32, c: bv32)
    requires IsStep(c) && c != 1 && Within(v, StepMask(c))
    ensures Matches(RightVal(v, c), StepMask(c), v)
  {
  }

  lemma UpValInside(v: bv32, c: bv32)
    requires IsStep(c) && c != 0x100_0000
    ensures Matches(v, StepMask(Twice(c)), UpVal(v, c))
  {
  }

  /** A value below the left child lies below the node. */
  lemma LeftHalfInside(v: bv32, c: bv32, x: bv32)
    requires IsStep(c) && c != 1 && Within(v, StepMask(c))
    requires Matches(x, StepMask(Half(c)), LeftVal(v, c))
    ensures Matches(x, StepMask(c), v)
  {
  }

  /** A value below the right child lies below the node. */
  lemma RightHalfInside(v: bv32, c: bv32, x: bv32)
    requires IsStep(c) && c != 1 && Within(v, StepMask(c))
    requires Matches(x, StepMask(Half(c)), RightVal(v, c))
    ensures Matches(x, StepMask(c), v)
  {
  }

  /** A value below the node with the child's level bit clear lies below
      the left child. */
  lemma LeftHalfCover(v: bv32, c: bv32, x: bv32)
    requires IsStep(c) && c != 1
    requires Matches(x, StepMask(c), v) && x & Half(c) == 0
    ensures Matches(x, StepMask(Half(c)), LeftVal(v, c))
  {
  }

  /** A value below the node with the child's level bit set lies below
      the right child. */
  lemma RightHalfCover(v: bv32, c: bv32, x: bv32)
    requires IsStep(c) && c != 1
    requires Matches(x, StepMask(c), v) && x & Half(c) != 0
    ensures Matches(x, StepMask(Half(c)), RightVal(v, c))
  {
  }

  /** A value below a node lies below one of its two children. */
  lemma HalvesCover(v: bv32, c: bv32, x: bv32)
    requires IsStep(c) && c != 1
    requires Matches(x, StepMask(c), v)
    ensures Matches(x, StepMask(Half(c)), LeftVal(v, c)) || Matches(x, StepMask(Half(c)), RightVal(v, c))
  {
    if x & Half(c) == 0 {
      LeftHalfCover(v, c, x);
    } else {
      RightHalfCover(v, c, x);
    }
  }

  /** No value lies below both children. */
  lemma HalvesDisjoint(v: bv32, c: bv32, x: bv32)
    requires IsStep(c) && c != 1 && Within(v, StepMask(c))
    ensures !(Matches(x, StepMask(Half(c)), LeftVal(v, c)) && Matches(x, StepMask(Half(c)), RightVal(v, c)))
  {
  }

  /** Setting bits below the level bit `c` of a value within its mask and
      cutting to a narrower mask keeps the value's prefix. */
  lemma SpliceInside(v: bv32, c: bv32, k: bv32, y: bv32)
    requires IsStep(c) && IsStep(k) && k <= c && Within(v, StepMask(c)) && y < c
    ensures Matches(Cut(Splice(v, y), k), StepMask(c), v)
  {
  }

  /** Setting bits below the level bit `c` of a value within its mask that
      all lie at or above the narrower level bit `k` loses none of them in
      the cut to `k`'s mask. */
  lemma SpliceExact(v: bv32, c: bv32, k: bv32, y: bv32)
    requires IsStep(c) && IsStep(k) && k <= c && Within(v, StepMask(c))
    requires y < c && y & (k - 1) == 0
    ensures Cut(Splice(v, y), k) == Splice(v, y)
  {
  }

  /** Bits set below the level bit of a value within its mask can be read
      back: different bits give different results. */
  lemma SpliceInjective(v: bv32, c: bv32, y: bv32, z: bv32)
    requires IsStep(c) && Within(v, StepMask(c)) && y < c && z < c
    requires Splice(v, y) == Splice(v, z)
    ensures y == z
  {
  }

  /** Matching a narrower mask whose value matches the wider one implies
      matching the wider one. */
  lemma Narrower(c: bv32, k: bv32, v: bv32, w: bv32, x: bv32)
    requires IsStep(c) && IsStep(k) && k <= c
    requires Matches(w, StepMask(c), v)
    requires Matches(x, StepMask(k), w)
    ensures Matches(x, StepMask(c), v)
  {
  }
}
