/** The laws of the frag header, on words.

    Each law is proved by decoding: the word operations compute the node
    operations of `FragNode` (`FragDecode`), the law holds of nodes, and
    words with equal nodes are equal. */
module FragLaws {
  import opened CephFrag
  import opened FragStep
  import opened FragNode
  import opened FragView
  import opened FragDecode

  // Packing

  /** The value `Make` was given lies in the frag it builds. */
  lemma MakeContains(b: bv32, x: bv32)
    requires b <= 24
    ensures Bits(Make(b, x)) == b
    ensures ContainsValue(Make(b, x), x)
  {
    MakeFields(b, x);
    DecodeMake(b, x);
    MadeHasValue(b, x);
    DecodeContainsValue(Make(b, x), x);
  }

  lemma MakeRoundTripDecoded(f: bv32)
    requires WellFormed(f)
    ensures Decode(Make(Bits(f), Value(f))) == Decode(f)
  {
    DecodeMake(Bits(f), Value(f));
    MadeOfValid(Decode(f));
  }

  /** Re-packing a frag's depth and value gives the frag back. */
  lemma MakeRoundTrip(f: bv32)
    requires WellFormed(f)
    ensures Make(Bits(f), Value(f)) == f
  {
    MakeRoundTripDecoded(f);
    DecodeInjective(Make(Bits(f), Value(f)), f);
  }

  /** The mask leaves out the `MaskShift(f)` low bits of the value field:
      the frag's level bit is 2 to that power, and the mask keeps the bits
      from it up. */
  lemma MaskShiftLevel(f: bv32)
    requires Bits(f) <= 24
    ensures Bits(f) + MaskShift(f) == 24
    ensures LevelOf(Bits(f)) == 1 << MaskShift(f)
    ensures Mask(f) == StepMask(1 << MaskShift(f))
  {
    LevelAt(Bits(f));
    ShiftLevel(Bits(f));
    MaskLevel(f);
  }

  // Parent and children

  lemma ParentOfLeftDecoded(f: bv32)
    requires WellFormed(f) && Bits(f) < 24
    ensures Bits(LeftChild(f)) == Bits(f) + 1
    ensures Decode(Parent(LeftChild(f))) == Decode(f)
  {
    LeftBits(f);
    DecodeLeft(f);
    DecodeParent(LeftChild(f));
    UpOfLeft(Decode(f));
  }

  /** The parent of a frag's left child is the frag. */
  lemma ParentOfLeftChild(f: bv32)
    requires WellFormed(f) && Bits(f) < 24
    ensures Parent(LeftChild(f)) == f
  {
    ParentOfLeftDecoded(f);
    DecodeInjective(Parent(LeftChild(f)), f);
  }

  lemma ParentOfRightDecoded(f: bv32)
    requires WellFormed(f) && Bits(f) < 24
    ensures Bits(RightChild(f)) == Bits(f) + 1
    ensures Decode(Parent(RightChild(f))) == Decode(f)
  {
    RightBits(f);
    DecodeRight(f);
    DecodeParent(RightChild(f));
    UpOfRight(Decode(f));
  }

  /** The parent of a frag's right child is the frag. */
  lemma ParentOfRightChild(f: bv32)
    requires WellFormed(f) && Bits(f) < 24
    ensures Parent(RightChild(f)) == f
  {
    ParentOfRightDecoded(f);
    DecodeInjective(Parent(RightChild(f)), f);
  }

  /** The parent of the root: `bits - 1` wraps to 0xffffffff, and the
      result is the word 0xff000000, which is no frag. */
  lemma ParentOfRoot(f: bv32)
    requires Bits(f) == 0
    ensures Parent(f) == 0xff00_0000 && !WellFormed(Parent(f))
  {
  }

  // Siblings

  lemma SiblingOfLeftDecoded(f: bv32)
    requires WellFormed(f) && Bits(f) < 24
    ensures Bits(LeftChild(f)) == Bits(f) + 1
    ensures Decode(Sibling(LeftChild(f))) == Decode(RightChild(f))
  {
    LeftBits(f);
    DecodeSibling(LeftChild(f));
    DecodeLeft(f);
    FlipOfLeft(Decode(f));
    DecodeRight(f);
  }

  /** The sibling of a left child is the right child. */
  lemma SiblingOfLeftChild(f: bv32)
    requires WellFormed(f) && Bits(f) < 24
    ensures Sibling(LeftChild(f)) == RightChild(f)
  {
    SiblingOfLeftDecoded(f);
    DecodeInjective(Sibling(LeftChild(f)), RightChild(f));
  }

  lemma SiblingOfRightDecoded(f: bv32)
    requires WellFormed(f) && Bits(f) < 24
    ensures Bits(RightChild(f)) == Bits(f) + 1
    ensures Decode(Sibling(RightChild(f))) == Decode(LeftChild(f))
  {
    RightBits(f);
    DecodeSibling(RightChild(f));
    DecodeRight(f);
    FlipOfRight(Decode(f));
    DecodeLeft(f);
  }

  /** The sibling of a right child is the left child. */
  lemma SiblingOfRightChild(f: bv32)
    requires WellFormed(f) && Bits(f) < 24
    ensures Sibling(RightChild(f)) == LeftChild(f)
  {
    SiblingOfRightDecoded(f);
    DecodeInjective(Sibling(RightChild(f)), LeftChild(f));
  }

  lemma SiblingTwiceDecoded(f: bv32)
    requires WellFormed(f)
    ensures Bits(Sibling(f)) == Bits(f)
    ensures Decode(Sibling(Sibling(f))) == Decode(f)
  {
    SiblingFacts(f);
    DecodeSibling(f);
    DecodeSibling(Sibling(f));
    FlipTwice(Decode(f));
  }

  /** A frag's sibling has the same depth, and its sibling is the frag. */
  lemma SiblingTwice(f: bv32)
    requires WellFormed(f)
    ensures Bits(Sibling(f)) == Bits(f)
    ensures Sibling(Sibling(f)) == f
  {
    SiblingTwiceDecoded(f);
    DecodeInjective(Sibling(Sibling(f)), f);
  }

  // Which child a frag is

  lemma ChildrenOfParent(g: bv32)
    requires WellFormed(g) && Bits(g) > 0
    ensures Bits(Parent(g)) == Bits(g) - 1
    ensures Decode(LeftChild(Parent(g))) == Left(Up(Decode(g)))
    ensures Decode(RightChild(Parent(g))) == Right(Up(Decode(g)))
  {
    ParentBits(g);
    DecodeLeft(Parent(g));
    DecodeRight(Parent(g));
    DecodeParent(g);
  }

  lemma LeftOfParentDecoded(g: bv32)
    requires WellFormed(g) && Bits(g) > 0
    ensures Bits(Parent(g)) == Bits(g) - 1
    ensures Decode(LeftChild(Parent(g))) == Decode(g) <==> IsLeftChild(g)
  {
    ChildrenOfParent(g);
    LeftOfUp(Decode(g));
    DecodeIsLeftChild(g);
  }

  lemma LeftChildOfParentIf(g: bv32)
    requires WellFormed(g) && IsLeftChild(g)
    ensures LeftChild(Parent(g)) == g
  {
    LeftOfParentDecoded(g);
    DecodeInjective(LeftChild(Parent(g)), g);
  }

  lemma LeftChildOfParentOnlyIf(g: bv32)
    requires WellFormed(g) && Bits(g) > 0
    ensures Bits(Parent(g)) == Bits(g) - 1
    ensures LeftChild(Parent(g)) == g ==> IsLeftChild(g)
  {
    LeftOfParentDecoded(g);
  }

  /** A frag is the left child of its parent exactly when
      `IsLeftChild` says so. */
  lemma LeftChildOfParent(g: bv32)
    requires WellFormed(g) && Bits(g) > 0
    ensures Bits(Parent(g)) == Bits(g) - 1
    ensures LeftChild(Parent(g)) == g <==> IsLeftChild(g)
  {
    LeftChildOfParentOnlyIf(g);
    if IsLeftChild(g) {
      LeftChildOfParentIf(g);
    }
  }

  lemma RightOfParentDecoded(g: bv32)
    requires WellFormed(g) && Bits(g) > 0
    ensures Bits(Parent(g)) == Bits(g) - 1
    ensures Decode(RightChild(Parent(g))) == Decode(g) <==> IsRightChildIntended(g)
  {
    ChildrenOfParent(g);
    RightOfUp(Decode(g));
    DecodeIsRightChild(g);
  }

  lemma RightChildOfParentIf(g: bv32)
    requires WellFormed(g) && IsRightChildIntended(g)
    ensures RightChild(Parent(g)) == g
  {
    RightOfParentDecoded(g);
    DecodeInjective(RightChild(Parent(g)), g);
  }

  lemma RightChildOfParentOnlyIf(g: bv32)
    requires WellFormed(g) && Bits(g) > 0
    ensures Bits(Parent(g)) == Bits(g) - 1
    ensures RightChild(Parent(g)) == g ==> IsRightChildIntended(g)
  {
    RightOfParentDecoded(g);
  }

  /** A frag is the right child of its parent exactly when its own level
      bit is set, the test `IsRightChildIntended` makes. */
  lemma RightChildOfParent(g: bv32)
    requires WellFormed(g) && Bits(g) > 0
    ensures Bits(Parent(g)) == Bits(g) - 1
    ensures RightChild(Parent(g)) == g <==> IsRightChildIntended(g)
  {
    RightChildOfParentOnlyIf(g);
    if IsRightChildIntended(g) {
      RightChildOfParentIf(g);
    }
  }

  /** Every frag below the root is exactly one of the two children. */
  lemma LeftOrRight(g: bv32)
    requires WellFormed(g)
    ensures IsLeftChild(g) || IsRightChildIntended(g) <==> Bits(g) > 0
    ensures !(IsLeftChild(g) && IsRightChildIntended(g))
  {
  }

  /** The right child of the root is a right child, and `IsRightChild`
      says it is not. */
  lemma RightChildOfRootMissed()
    ensures RightChild(0) == 0x180_0000 && Parent(0x180_0000) == 0
    ensures IsRightChildIntended(0x180_0000) && !IsRightChild(0x180_0000)
  {
  }

  // Successors

  lemma NextOfLeftDecoded(f: bv32)
    requires WellFormed(f) && Bits(f) < 24
    ensures Bits(LeftChild(f)) == Bits(f) + 1
    ensures Decode(Next(LeftChild(f))) == Decode(RightChild(f))
  {
    LeftBits(f);
    DecodeNext(LeftChild(f));
    DecodeLeft(f);
    SuccOfLeft(Decode(f));
    DecodeRight(f);
  }

  /** After a left child comes its sibling. */
  lemma NextOfLeftChild(f: bv32)
    requires WellFormed(f) && Bits(f) < 24
    ensures Next(LeftChild(f)) == RightChild(f)
  {
    NextOfLeftDecoded(f);
    DecodeInjective(Next(LeftChild(f)), RightChild(f));
  }

  lemma NextOfRightSides(f: bv32)
    requires WellFormed(f) && Bits(f) < 24
    ensures Bits(RightChild(f)) == Bits(f) + 1 && Bits(Next(f)) == Bits(f)
    ensures Decode(Next(RightChild(f))) == Succ(Right(Decode(f)))
    ensures Decode(LeftChild(Next(f))) == Left(Succ(Decode(f)))
  {
    RightBits(f);
    NextFacts(f);
    DecodeNext(RightChild(f));
    DecodeRight(f);
    DecodeLeft(Next(f));
    DecodeNext(f);
  }

  lemma NextOfRightDecoded(f: bv32)
    requires WellFormed(f) && Bits(f) < 24
    ensures Bits(RightChild(f)) == Bits(f) + 1 && Bits(Next(f)) == Bits(f)
    ensures Decode(Next(RightChild(f))) == Decode(LeftChild(Next(f)))
  {
    NextOfRightSides(f);
    SuccOfRight(Decode(f));
  }

  /** After a right child comes the left child of the parent's successor:
      the carry moves into the parent's level. */
  lemma NextOfRightChild(f: bv32)
    requires WellFormed(f) && Bits(f) < 24
    ensures Bits(Next(f)) == Bits(f)
    ensures Next(RightChild(f)) == LeftChild(Next(f))
  {
    NextOfRightDecoded(f);
    DecodeInjective(Next(RightChild(f)), LeftChild(Next(f)));
  }

  /** The successor keeps the depth and steps the value by the level bit
      (`FragStep.SuccValWrap`: adding it modulo 2^24). */
  lemma NextValue(f: bv32)
    requires WellFormed(f)
    ensures Value(Next(f)) == (Value(f) + (0x100_0000 >> Bits(f))) & 0xff_ffff
  {
    NextSucc(f);
    StepWrap(Value(f), Bits(f));
  }

  // The two helpers below carry no requires, so that the caller above
  // has no preconditions to discharge besides its own.

  lemma NextSucc(f: bv32)
    ensures WellFormed(f) ==>
      Within(Value(f), StepMask(0x100_0000 >> Bits(f))) &&
      Value(Next(f)) == SuccVal(Value(f), LevelOf(Bits(f)))
  {
    if WellFormed(f) {
      WithinOf(f);
      DecodeNext(f);
    }
  }

  /** Adding the level bit within the level's mask wraps at 2^24. */
  lemma StepWrap(v: bv32, b: bv32)
    ensures b <= 24 && Within(v, StepMask(0x100_0000 >> b)) ==>
      SuccVal(v, LevelOf(b)) == (v + (0x100_0000 >> b)) & 0xff_ffff
  {
    if b <= 24 && Within(v, StepMask(0x100_0000 >> b)) {
      LevelAt(b);
      LevelOfFacts(b);
      SuccValWrap(v, LevelOf(b));
    }
  }

  /** After the rightmost frag of a depth comes the leftmost one. */
  lemma NextOfRightmost(f: bv32)
    requires WellFormed(f) && IsRightmost(f)
    ensures Bits(Next(f)) == Bits(f) && IsLeftmost(Next(f))
  {
    NextFacts(f);
    DecodeIsRightmost(f);
    DecodeNext(f);
    SuccOfLast(Decode(f));
  }

  // Containment

  /** Every frag contains itself. */
  lemma ContainsSelf(f: bv32)
    requires WellFormed(f)
    ensures ContainsFrag(f, f)
  {
    IncludesSelf(Decode(f));
    DecodeContainsFrag(f, f);
  }

  /** A frag contains both its children. */
  lemma ContainsChildren(f: bv32)
    requires WellFormed(f) && Bits(f) < 24
    ensures ContainsFrag(f, LeftChild(f)) && ContainsFrag(f, RightChild(f))
  {
    DecodeLeft(f);
    DecodeRight(f);
    IncludesLeft(Decode(f));
    IncludesRight(Decode(f));
    DecodeContainsFrag(f, LeftChild(f));
    DecodeContainsFrag(f, RightChild(f));
  }

  /** A frag's parent contains it. */
  lemma ContainedByParent(g: bv32)
    requires WellFormed(g) && Bits(g) > 0
    ensures Bits(Parent(g)) == Bits(g) - 1
    ensures ContainsFrag(Parent(g), g)
  {
    ParentBits(g);
    DecodeParent(g);
    IncludesByUp(Decode(g));
    DecodeContainsFrag(Parent(g), g);
  }

  /** A value in a contained frag lies in the containing one. */
  lemma ContainsValueThrough(f: bv32, g: bv32, x: bv32)
    requires WellFormed(f) && WellFormed(g)
    requires ContainsFrag(f, g) && ContainsValue(g, x)
    ensures ContainsValue(f, x)
  {
    DecodeContainsFrag(f, g);
    DecodeContainsValue(g, x);
    DecodeContainsValue(f, x);
    IncludesHasValue(Decode(f), Decode(g), x);
  }

  /** Containment of frags is transitive. */
  lemma ContainsTrans(f: bv32, g: bv32, h: bv32)
    requires WellFormed(f) && WellFormed(g) && WellFormed(h)
    requires ContainsFrag(f, g) && ContainsFrag(g, h)
    ensures ContainsFrag(f, h)
  {
    DecodeContainsFrag(f, g);
    DecodeContainsFrag(g, h);
    DecodeContainsFrag(f, h);
    IncludesTrans(Decode(f), Decode(g), Decode(h));
  }

  /** The two children split their parent's values between them: a value
      lies in the frag exactly when it lies in one of the children. */
  lemma ChildrenCover(f: bv32, x: bv32)
    requires WellFormed(f) && Bits(f) < 24
    ensures ContainsValue(f, x) <==> ContainsValue(LeftChild(f), x) || ContainsValue(RightChild(f), x)
  {
    if ContainsValue(f, x) {
      ChildrenCoverDown(f, x);
    } else if ContainsValue(LeftChild(f), x) || ContainsValue(RightChild(f), x) {
      ChildrenCoverUp(f, x);
    }
  }

  lemma ChildrenCoverDown(f: bv32, x: bv32)
    requires WellFormed(f) && Bits(f) < 24 && ContainsValue(f, x)
    ensures ContainsValue(LeftChild(f), x) || ContainsValue(RightChild(f), x)
  {
    ChildrenValues(f, x);
    HasValueCover(Decode(f), x);
  }

  lemma ChildrenCoverUp(f: bv32, x: bv32)
    requires WellFormed(f) && Bits(f) < 24
    requires ContainsValue(LeftChild(f), x) || ContainsValue(RightChild(f), x)
    ensures ContainsValue(f, x)
  {
    ChildrenValues(f, x);
    if ContainsValue(LeftChild(f), x) {
      LeftHasValue(Decode(f), x);
    } else {
      RightHasValue(Decode(f), x);
    }
  }

  /** No value lies in both children. */
  lemma ChildrenDisjoint(f: bv32, x: bv32)
    requires WellFormed(f) && Bits(f) < 24
    ensures !(ContainsValue(LeftChild(f), x) && ContainsValue(RightChild(f), x))
  {
    ChildrenValues(f, x);
    HasValueDisjoint(Decode(f), x);
  }

  lemma ChildrenValues(f: bv32, x: bv32)
    requires WellFormed(f) && Bits(f) < 24
    ensures Valid(Decode(f)) && Decode(f).depth < 24
    ensures Bits(LeftChild(f)) <= 24 && Bits(RightChild(f)) <= 24
    ensures ContainsValue(f, x) <==> HasValue(Decode(f), x)
    ensures ContainsValue(LeftChild(f), x) <==> HasValue(Left(Decode(f)), x)
    ensures ContainsValue(RightChild(f), x) <==> HasValue(Right(Decode(f)), x)
  {
    LeftBits(f);
    RightBits(f);
    DecodeLeft(f);
    DecodeRight(f);
    DecodeContainsValue(f, x);
    DecodeContainsValue(LeftChild(f), x);
    DecodeContainsValue(RightChild(f), x);
  }

  /** The root frag, 0, contains every value and every frag. */
  lemma RootContainsAll(g: bv32, x: bv32)
    ensures ContainsValue(0, x) && ContainsFrag(0, g)
  {
  }

  // The ends of a depth

  /** At every depth the frag made from value 0 is leftmost and the one
      made from the all-ones value field is rightmost. */
  lemma MakeEnds(b: bv32)
    requires b <= 24
    ensures IsLeftmost(Make(b, 0)) && IsRightmost(Make(b, 0xff_ffff))
  {
    MakeContains(b, 0);
    MakeContains(b, 0xff_ffff);
  }
}
