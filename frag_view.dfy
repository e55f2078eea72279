/** Each frag operation read back through `Make`.

    For a frag `f` the level bit is `0x100_0000 >> Bits(f)`, written out
    as `IsLeftChild` and `Sibling` write it. The lemmas here state the depth
    and the value field of every operation's result in terms of the depth
    and value of its argument, so that `FragDecode` can match them with the
    node operations of `FragNode` without reasoning about shifts by the
    depth. They come in layers: unfolding a call into `Make`, reading depth
    and value back from that `Make`, and combining the two. */
module FragView {
  import opened CephFrag
  import opened FragStep

  /** A frag word is its depth and its value. */
  lemma WordEq(f: bv32, g: bv32)
    requires Bits(f) == Bits(g) && Value(f) == Value(g)
    ensures f == g
  {
  }

  /** `Make` with a depth of at most 24 keeps the depth and the top `b` bits
      of the value field, and so builds a well-formed frag. */
  lemma MakeFields(b: bv32, x: bv32)
    requires b <= 24
    ensures Bits(Make(b, x)) == b
    ensures Value(Make(b, x)) == x & StepMask(0x100_0000 >> b)
  {
  }

  lemma MakeFieldsAll()
    ensures forall b: bv32, x: bv32 {:trigger Make(b, x)} :: b <= 24 ==>
      Bits(Make(b, x)) == b && Value(Make(b, x)) == x & StepMask(0x100_0000 >> b) &&
      WellFormed(Make(b, x))
  {
    forall b: bv32, x: bv32 | b <= 24
      ensures Bits(Make(b, x)) == b && Value(Make(b, x)) == x & StepMask(0x100_0000 >> b) &&
        WellFormed(Make(b, x))
    {
      MakeFields(b, x);
    }
  }

  /** The level bit of a frag of depth at most 24, and its mask. */
  lemma LevelFacts(f: bv32)
    requires Bits(f) <= 24
    ensures IsStep(0x100_0000 >> Bits(f))
    ensures Mask(f) == StepMask(0x100_0000 >> Bits(f))
    ensures Bits(f) < 24 ==> ((0x100_0000 as bv32) >> Bits(f)) != 1
    ensures Bits(f) > 0 ==> ((0x100_0000 as bv32) >> Bits(f)) != 0x100_0000
  {
  }

  lemma WithinOf(f: bv32)
    requires WellFormed(f)
    ensures Within(Value(f), StepMask(0x100_0000 >> Bits(f)))
  {
  }

  /** The child tests isolate the frag's own level bit. */
  lemma IsLeftChildView(f: bv32)
    requires Bits(f) <= 24
    ensures IsLeftChild(f) <==> Bits(f) > 0 && !HasBit(Value(f), 0x100_0000 >> Bits(f))
  {
  }

  lemma IsRightChildView(f: bv32)
    requires Bits(f) <= 24
    ensures IsRightChildIntended(f) <==> Bits(f) > 0 && HasBit(Value(f), 0x100_0000 >> Bits(f))
  {
  }

  // LeftChild

  lemma LeftUnfold(f: bv32)
    requires Bits(f) < 24
    ensures LeftChild(f) == Make(Bits(f) + 1, Value(f))
  {
  }

  lemma LeftMake(f: bv32)
    requires Bits(f) < 24
    ensures Bits(Make(Bits(f) + 1, Value(f))) == Bits(f) + 1
    ensures Value(Make(Bits(f) + 1, Value(f))) == Value(f) & StepMask(0x100_0000 >> (Bits(f) + 1))
    ensures WellFormed(Make(Bits(f) + 1, Value(f)))
  {
    MakeFieldsAll();
  }

  lemma LeftBits(f: bv32)
    requires Bits(f) < 24
    ensures Bits(LeftChild(f)) == Bits(f) + 1 && WellFormed(LeftChild(f))
  {
    LeftUnfold(f);
    LeftMake(f);
  }

  lemma LeftValueMake(f: bv32)
    requires Bits(f) < 24
    ensures Value(LeftChild(f)) == Value(f) & StepMask(0x100_0000 >> (Bits(f) + 1))
  {
    LeftUnfold(f);
    LeftMake(f);
  }

  // RightChild

  lemma RightUnfold(f: bv32)
    requires Bits(f) < 24
    ensures RightChild(f) == Make(Bits(f) + 1, Value(f) | (0x100_0000 >> (Bits(f) + 1)))
  {
  }

  lemma RightMake(f: bv32)
    requires Bits(f) < 24
    ensures Bits(Make(Bits(f) + 1, Value(f) | (0x100_0000 >> (Bits(f) + 1)))) == Bits(f) + 1
    ensures Value(Make(Bits(f) + 1, Value(f) | (0x100_0000 >> (Bits(f) + 1)))) ==
      (Value(f) | (0x100_0000 >> (Bits(f) + 1))) & StepMask(0x100_0000 >> (Bits(f) + 1))
    ensures WellFormed(Make(Bits(f) + 1, Value(f) | (0x100_0000 >> (Bits(f) + 1))))
  {
    MakeFieldsAll();
  }

  lemma RightBits(f: bv32)
    requires Bits(f) < 24
    ensures Bits(RightChild(f)) == Bits(f) + 1 && WellFormed(RightChild(f))
  {
    RightUnfold(f);
    RightMake(f);
  }

  lemma RightValueMake(f: bv32)
    requires Bits(f) < 24
    ensures Value(RightChild(f)) ==
      (Value(f) | (0x100_0000 >> (Bits(f) + 1))) & StepMask(0x100_0000 >> (Bits(f) + 1))
  {
    RightUnfold(f);
    RightMake(f);
  }

  // Parent

  lemma ParentUnfold(g: bv32)
    requires Bits(g) <= 24
    ensures Parent(g) == Make(Bits(g) - 1, Value(g) & (Mask(g) << 1))
  {
  }

  lemma ParentMake(g: bv32)
    requires 1 <= Bits(g) <= 24
    ensures Bits(Make(Bits(g) - 1, Value(g) & (Mask(g) << 1))) == Bits(g) - 1
    ensures Value(Make(Bits(g) - 1, Value(g) & (Mask(g) << 1))) ==
      (Value(g) & (Mask(g) << 1)) & StepMask(0x100_0000 >> (Bits(g) - 1))
    ensures WellFormed(Make(Bits(g) - 1, Value(g) & (Mask(g) << 1)))
  {
    MakeFieldsAll();
  }

  lemma ParentBits(g: bv32)
    requires 1 <= Bits(g) <= 24
    ensures Bits(Parent(g)) == Bits(g) - 1 && WellFormed(Parent(g))
  {
    ParentUnfold(g);
    ParentMake(g);
  }

  lemma ParentValueMake(g: bv32)
    requires 1 <= Bits(g) <= 24
    ensures Value(Parent(g)) ==
      (Value(g) & (Mask(g) << 1)) & StepMask(0x100_0000 >> (Bits(g) - 1))
  {
    ParentUnfold(g);
    ParentMake(g);
  }

  lemma ParentValueRaw(g: bv32)
    requires 1 <= Bits(g) <= 24
    ensures Value(Parent(g)) ==
      (Value(g) & (StepMask(0x100_0000 >> Bits(g)) << 1)) & StepMask(0x100_0000 >> (Bits(g) - 1))
  {
    ParentValueMake(g);
    LevelFacts(g);
  }

  // Sibling

  lemma SiblingUnfold(f: bv32)
    requires Bits(f) <= 24
    ensures Sibling(f) == Make(Bits(f), Value(f) ^ (0x100_0000 >> Bits(f)))
  {
  }

  lemma SiblingMake(f: bv32)
    requires Bits(f) <= 24
    ensures Bits(Make(Bits(f), Value(f) ^ (0x100_0000 >> Bits(f)))) == Bits(f)
    ensures Value(Make(Bits(f), Value(f) ^ (0x100_0000 >> Bits(f)))) ==
      (Value(f) ^ (0x100_0000 >> Bits(f))) & StepMask(0x100_0000 >> Bits(f))
    ensures WellFormed(Make(Bits(f), Value(f) ^ (0x100_0000 >> Bits(f))))
  {
    MakeFieldsAll();
  }

  /** The sibling: same depth, level bit flipped. */
  lemma SiblingFacts(f: bv32)
    requires Bits(f) <= 24
    ensures Bits(Sibling(f)) == Bits(f) && WellFormed(Sibling(f))
    ensures (0x100_0000 >> Bits(Sibling(f))) == ((0x100_0000 as bv32) >> Bits(f))
    ensures Value(Sibling(f)) ==
      (Value(f) ^ (0x100_0000 >> Bits(f))) & StepMask(0x100_0000 >> Bits(f))
  {
    SiblingUnfold(f);
    SiblingMake(f);
  }

  // Next

  lemma NextUnfold(f: bv32)
    requires Bits(f) <= 24
    ensures Next(f) == Make(Bits(f), Value(f) + (0x100_0000 >> Bits(f)))
  {
  }

  lemma NextMake(f: bv32)
    requires Bits(f) <= 24
    ensures Bits(Make(Bits(f), Value(f) + (0x100_0000 >> Bits(f)))) == Bits(f)
    ensures Value(Make(Bits(f), Value(f) + (0x100_0000 >> Bits(f)))) ==
      (Value(f) + (0x100_0000 >> Bits(f))) & StepMask(0x100_0000 >> Bits(f))
    ensures WellFormed(Make(Bits(f), Value(f) + (0x100_0000 >> Bits(f))))
  {
    MakeFieldsAll();
  }

  /** The successor: same depth, level bit added to the value. */
  lemma NextFacts(f: bv32)
    requires Bits(f) <= 24
    ensures Bits(Next(f)) == Bits(f) && WellFormed(Next(f))
    ensures (0x100_0000 >> Bits(Next(f))) == ((0x100_0000 as bv32) >> Bits(f))
    ensures Value(Next(f)) ==
      (Value(f) + (0x100_0000 >> Bits(f))) & StepMask(0x100_0000 >> Bits(f))
  {
    NextUnfold(f);
    NextMake(f);
  }
}
