/** `ceph_frag_make_child`: the descendant `more` levels down whose new
    bits spell `i`. One level down it is the left or the right child; any
    number of levels down it lies inside the frag, at the depth asked for,
    as long as `i` fits in `more` bits. */
module FragChild {
  import opened CephFrag
  import opened FragStep
  import opened FragNode
  import opened FragView
  import opened FragDecode

  lemma MakeChildUnfold(f: bv32, more: bv32, i: bv32)
    ensures more <= 24 && Bits(f) + more <= 24 ==>
      MakeChild(f, more, i) == Make(Bits(f) + more, Value(f) | (i << (24 - (Bits(f) + more))))
  {
  }

  /** The new bits `i`, shifted into place, lie below the frag's level bit
      when `i` fits in `more` bits. */
  lemma NewBitsBelow(i: bv32, b: bv32, more: bv32)
    requires b <= 24 && more <= 24 && b + more <= 24 && i < 1 << more
    ensures Placed(i, b + more) < LevelOf(b)
  {
  }

  lemma LeftShiftZero(x: bv32, b: bv32)
    ensures b < 24 ==> x | (0 << (24 - (b + 1))) == x
  {
  }

  /** One level down with new bit 0, `make_child` is `left_child`. */
  lemma MakeChildLeft(f: bv32)
    requires Bits(f) < 24
    ensures MakeChild(f, 1, 0) == LeftChild(f)
  {
    MakeChildUnfold(f, 1, 0);
    LeftShiftZero(Value(f), Bits(f));
  }

  lemma RightOneAt(x: bv32, b: bv32)
    requires b < 24
    ensures Deeper(b) == b + 1 && LevelOf(b + 1) == Half(LevelOf(b))
    ensures RightVal(x, LevelOf(b)) == (x | (1 << (24 - (b + 1)))) & StepMask(0x100_0000 >> (b + 1))
  {
    LevelOfNext(b);
  }

  lemma RightOneDecodeForm(f: bv32)
    requires Bits(f) < 24
    ensures Right(Decode(f)) == Node(Bits(f) + 1, LevelOf(Bits(f) + 1),
      (Value(f) | (1 << (24 - (Bits(f) + 1)))) & StepMask(0x100_0000 >> (Bits(f) + 1)))
  {
    RightFields(Bits(f), LevelOf(Bits(f)), Value(f));
    RightOneAt(Value(f), Bits(f));
  }

  lemma MakeChildRightFields(f: bv32)
    requires Bits(f) < 24
    ensures Bits(MakeChild(f, 1, 1)) == Bits(f) + 1
    ensures Value(MakeChild(f, 1, 1)) ==
      (Value(f) | (1 << (24 - (Bits(f) + 1)))) & StepMask(0x100_0000 >> (Bits(f) + 1))
  {
    MakeFieldsAll();
  }

  lemma MakeChildRightForm(f: bv32)
    requires Bits(f) < 24
    ensures Decode(MakeChild(f, 1, 1)) == Node(Bits(f) + 1, LevelOf(Bits(f) + 1),
      (Value(f) | (1 << (24 - (Bits(f) + 1)))) & StepMask(0x100_0000 >> (Bits(f) + 1)))
  {
    MakeChildRightFields(f);
  }

  lemma MakeChildRightDecoded(f: bv32)
    requires Bits(f) < 24
    ensures Decode(MakeChild(f, 1, 1)) == Right(Decode(f))
  {
    MakeChildRightForm(f);
    RightOneDecodeForm(f);
  }

  /** One level down with new bit 1, `make_child` is `right_child`. */
  lemma MakeChildRight(f: bv32)
    requires Bits(f) < 24
    ensures MakeChild(f, 1, 1) == RightChild(f)
  {
    MakeChildRightDecoded(f);
    DecodeRight(f);
    DecodeInjective(MakeChild(f, 1, 1), RightChild(f));
  }

  /** The value field of the descendant at depth `n`: the new bits set
      and the result cut to the mask of depth `n`. */
  function ChildValue(v: bv32, i: bv32, n: bv32): bv32
    requires n <= 24
  {
    (v | (i << (24 - n))) & StepMask(0x100_0000 >> n)
  }

  lemma MakeChildFieldsRaw(f: bv32, more: bv32, i: bv32)
    requires more <= 24 && Bits(f) + more <= 24
    ensures Bits(MakeChild(f, more, i)) == Bits(f) + more
    ensures Value(MakeChild(f, more, i)) ==
      (Value(f) | (i << (24 - (Bits(f) + more)))) & StepMask(0x100_0000 >> (Bits(f) + more))
  {
    MakeFieldsAll();
  }

  lemma MakeChildFields(f: bv32, more: bv32, i: bv32)
    requires more <= 24 && Bits(f) + more <= 24
    ensures Bits(MakeChild(f, more, i)) == Bits(f) + more
    ensures Value(MakeChild(f, more, i)) == ChildValue(Value(f), i, Bits(f) + more)
  {
    MakeChildFieldsRaw(f, more, i);
  }

  lemma SpliceAt(v: bv32, i: bv32, n: bv32)
    requires n <= 24
    ensures ChildValue(v, i, n) == Cut(Splice(v, Placed(i, n)), LevelOf(n))
  {
  }

  /** Setting new bits that fit below the level of depth `b` and cutting to
      the deeper mask keeps the prefix of depth `b`. */
  lemma ChildInsideLevels(v: bv32, i: bv32, b: bv32, more: bv32)
    requires b <= 24 && more <= 24 && b + more <= 24 && i < 1 << more
    requires Within(v, StepMask(LevelOf(b)))
    ensures Matches(Cut(Splice(v, Placed(i, b + more)), LevelOf(b + more)), StepMask(LevelOf(b)), v)
  {
    NewBitsBelow(i, b, more);
    LevelOfFacts(b);
    LevelOfFacts(b + more);
    LevelOfOrder(b, b + more);
    SpliceInside(v, LevelOf(b), LevelOf(b + more), Placed(i, b + more));
  }

  // The conditions below (and SameSplice further down) bind their
  // conjunction to a local name. That is only a device for the verifier: a
  // caller then discharges the precondition as one proof obligation rather
  // than one per conjunct, which keeps the solver within its limits. The
  // meaning is the plain conjunction.

  /** `v` is within the mask of depth `b`, and `i` fits in the `more` bits
      between depth `b` and depth `n`, at most 24. */
  predicate InsideArgs(v: bv32, i: bv32, b: bv32, more: bv32, n: bv32)
  {
    var fits := b <= 24 && more <= 24 && n == b + more && n <= 24 && i < 1 << more &&
      Within(v, StepMask(0x100_0000 >> b));
    fits
  }

  /** `f` is a frag and `i` names one of its descendants `more` levels
      down. */
  predicate ChildArgs(f: bv32, more: bv32, i: bv32)
  {
    var fits := WellFormed(f) && more <= 24 && Bits(f) + more <= 24 && i < 1 << more;
    fits
  }

  lemma ChildInsideAt(v: bv32, i: bv32, b: bv32, more: bv32, n: bv32)
    requires InsideArgs(v, i, b, more, n)
    ensures n <= 24 && Matches(ChildValue(v, i, n), StepMask(LevelOf(b)), v)
  {
    LevelAt(b);
    ChildInsideLevels(v, i, b, more);
    SpliceAt(v, i, n);
  }

  lemma ChildValueInside(f: bv32, more: bv32, i: bv32)
    requires ChildArgs(f, more, i)
    ensures Bits(f) + more <= 24
    ensures Matches(ChildValue(Value(f), i, Bits(f) + more), StepMask(LevelOf(Bits(f))), Value(f))
  {
    WithinOf(f);
    ChildInsideAt(Value(f), i, Bits(f), more, Bits(f) + more);
  }

  lemma MakeChildValueInside(f: bv32, more: bv32, i: bv32)
    requires ChildArgs(f, more, i)
    ensures Bits(MakeChild(f, more, i)) >= Bits(f)
    ensures Matches(Value(MakeChild(f, more, i)), StepMask(LevelOf(Bits(f))), Value(f))
  {
    MakeChildFields(f, more, i);
    ChildValueInside(f, more, i);
  }

  /** When `i` fits in `more` bits, the descendant lies inside the frag. */
  lemma MakeChildContained(f: bv32, more: bv32, i: bv32)
    requires WellFormed(f) && more <= 24 && Bits(f) + more <= 24 && i < 1 << more
    ensures ContainsFrag(f, MakeChild(f, more, i))
  {
    MakeChildValueInside(f, more, i);
    MaskLevel(f);
    ContainsByMask(f, MakeChild(f, more, i));
  }

  /** A frag at least as deep whose value matches under the mask is
      contained. */
  lemma ContainsByMask(f: bv32, g: bv32)
    requires Bits(f) <= 24 && Bits(g) >= Bits(f)
    requires Matches(Value(g), Mask(f), Value(f))
    ensures ContainsFrag(f, g)
  {
  }

  // Which descendant: the new bits are exactly `i`

  /** The shifted bits leave every bit below the level of depth `n`
      clear. */
  lemma PlacedAligned(i: bv32, n: bv32)
    requires n <= 24
    ensures Placed(i, n) & (LevelOf(n) - 1) == 0
  {
    LevelAt(n);
    ShiftLevel(n);
  }

  /** A shift that drops no bit of either operand tells them apart. */
  lemma ShiftInjective(i: bv32, j: bv32, s: bv32, more: bv32)
    requires more <= 24 && s <= 24 - more && i < 1 << more && j < 1 << more
    requires i << s == j << s
    ensures i == j
  {
  }

  lemma ChildValueExact(v: bv32, i: bv32, b: bv32, more: bv32, n: bv32)
    requires InsideArgs(v, i, b, more, n)
    ensures n <= 24 && ChildValue(v, i, n) == Splice(v, Placed(i, n))
  {
    LevelAt(b);
    NewBitsBelow(i, b, more);
    PlacedAligned(i, n);
    LevelOfFacts(b);
    LevelOfFacts(n);
    LevelOfOrder(b, n);
    SpliceAt(v, i, n);
    SpliceExact(v, LevelOf(b), LevelOf(n), Placed(i, n));
  }

  /** When `i` fits in `more` bits, the descendant's value is the frag's
      value with `i` written into the `more` bits below its level,
      `Value(f) | (i << (24 - (Bits(f) + more)))`: the cut to the deeper
      mask drops none of them. */
  lemma MakeChildValue(f: bv32, more: bv32, i: bv32)
    requires ChildArgs(f, more, i)
    ensures Bits(f) + more <= 24
    ensures Value(MakeChild(f, more, i)) == Splice(Value(f), Placed(i, Bits(f) + more))
  {
    MakeChildFields(f, more, i);
    ChildValueExactOf(f, more, i);
  }

  lemma ChildValueExactOf(f: bv32, more: bv32, i: bv32)
    requires ChildArgs(f, more, i)
    ensures Bits(f) + more <= 24
    ensures ChildValue(Value(f), i, Bits(f) + more) == Splice(Value(f), Placed(i, Bits(f) + more))
  {
    WithinOf(f);
    ChildValueExact(Value(f), i, Bits(f), more, Bits(f) + more);
  }

  lemma PlacedInjective(i: bv32, j: bv32, more: bv32, n: bv32)
    requires more <= n <= 24 && i < 1 << more && j < 1 << more
    requires Placed(i, n) == Placed(j, n)
    ensures i == j
  {
    ShiftInjective(i, j, 24 - n, more);
  }

  /** Different `i` that fit in `more` bits name different descendants. */
  lemma MakeChildInjective(f: bv32, more: bv32, i: bv32, j: bv32)
    requires ChildArgs(f, more, i) && ChildArgs(f, more, j)
    requires MakeChild(f, more, i) == MakeChild(f, more, j)
    ensures i == j
  {
    MakeChildValue(f, more, i);
    MakeChildValue(f, more, j);
    SplicedApart(f, more, i, j);
  }

  lemma SplicedApart(f: bv32, more: bv32, i: bv32, j: bv32)
    requires ChildArgs(f, more, i) && ChildArgs(f, more, j)
    requires Bits(f) + more <= 24
    requires Splice(Value(f), Placed(i, Bits(f) + more)) == Splice(Value(f), Placed(j, Bits(f) + more))
    ensures i == j
  {
    ArgsInside(f, more, i);
    ArgsInside(f, more, j);
    SplicedApartAt(Value(f), i, j, Bits(f), more, Bits(f) + more);
  }

  lemma ArgsInside(f: bv32, more: bv32, i: bv32)
    requires ChildArgs(f, more, i)
    ensures InsideArgs(Value(f), i, Bits(f), more, Bits(f) + more)
  {
    WithinOf(f);
  }

  /** `i` and `j` both fit in the `more` bits below depth `b`, and writing
      either into `v` gives the same value. Bound to a local name for the
      verifier, like `InsideArgs` above. */
  predicate SameSplice(v: bv32, i: bv32, j: bv32, b: bv32, more: bv32, n: bv32)
  {
    var same := InsideArgs(v, i, b, more, n) && InsideArgs(v, j, b, more, n) &&
      Splice(v, Placed(i, n)) == Splice(v, Placed(j, n));
    same
  }

  lemma SplicedApartAt(v: bv32, i: bv32, j: bv32, b: bv32, more: bv32, n: bv32)
    requires SameSplice(v, i, j, b, more, n)
    ensures i == j
  {
    LevelAt(b);
    LevelOfFacts(b);
    NewBitsBelow(i, b, more);
    NewBitsBelow(j, b, more);
    SpliceInjective(v, LevelOf(b), Placed(i, n), Placed(j, n));
    PlacedInjective(i, j, more, n);
  }

  /** The header's comment on `make_child` gives, for the frag `0x1000000`
      and one more bit, the children `0x1000000` and `0x1100000`; the code
      builds `0x2000000` and `0x2400000`. */
  lemma MakeChildOfFirstLevel()
    ensures MakeChild(0x100_0000, 1, 0) == 0x200_0000
    ensures MakeChild(0x100_0000, 1, 1) == 0x240_0000
  {
  }
}
