/** Every frag word as a node of the trie.

    `Decode` reads a word's depth, level bit and value field. The lemmas
    here show that each operation of the header, applied to a word,
    computes on the decoded node exactly the operation of `FragNode`, and
    that each test of the header is the node's predicate. Laws proved on
    nodes then carry over to words, and `DecodeInjective` turns an equation
    between decoded nodes back into one between words. */
module FragDecode {
  import opened CephFrag
  import opened FragStep
  import opened FragNode
  import opened FragView

  /** The node a word stands for. Depths above 24 get level bit zero, which
      no valid node has. */
  function Decode(f: bv32): (x: Node)
    ensures WellFormed(f) ==> Valid(x)
  {
    Node(Bits(f), LevelOf(Bits(f)), Value(f))
  }

  /** Two words with the same node are the same word. */
  lemma DecodeInjective(f: bv32, g: bv32)
    requires Decode(f) == Decode(g)
    ensures f == g
  {
    WordEq(f, g);
  }

  // Each neighbour's field, for a level bit given by its depth

  lemma LeftAt(x: bv32, b: bv32)
    requires b < 24
    ensures Deeper(b) == b + 1 && LevelOf(b + 1) == Half(LevelOf(b))
    ensures LeftVal(x, LevelOf(b)) == x & StepMask(0x100_0000 >> (b + 1))
  {
    LevelOfNext(b);
  }

  lemma RightAt(x: bv32, b: bv32)
    requires b < 24
    ensures Deeper(b) == b + 1 && LevelOf(b + 1) == Half(LevelOf(b))
    ensures RightVal(x, LevelOf(b)) == (x | (0x100_0000 >> (b + 1))) & StepMask(0x100_0000 >> (b + 1))
  {
    LevelOfNext(b);
  }

  lemma UpAt(x: bv32, b: bv32)
    requires 1 <= b <= 24
    ensures Shallower(b) == b - 1 && LevelOf(b - 1) == Twice(LevelOf(b))
    ensures UpVal(x, LevelOf(b)) == (x & (StepMask(0x100_0000 >> b) << 1)) & StepMask(0x100_0000 >> (b - 1))
  {
    LevelOfPrev(b);
  }

  lemma FlipAt(x: bv32, b: bv32)
    requires b <= 24
    ensures FlipVal(x, LevelOf(b)) == (x ^ (0x100_0000 >> b)) & StepMask(0x100_0000 >> b)
  {
  }

  lemma SuccAt(x: bv32, b: bv32)
    requires b <= 24
    ensures SuccVal(x, LevelOf(b)) == (x + (0x100_0000 >> b)) & StepMask(0x100_0000 >> b)
  {
  }

  lemma MakeAt(x: bv32, b: bv32)
    requires b <= 24
    ensures Cut(x, LevelOf(b)) == x & StepMask(0x100_0000 >> b)
  {
  }

  // The operations

  /** `Make` builds the node of its depth whose value is `x` cut to the
      depth's mask. */
  lemma DecodeMake(b: bv32, x: bv32)
    requires b <= 24
    ensures Decode(Make(b, x)) == Made(b, x)
  {
    MakeFields(b, x);
    MakeAt(x, b);
  }

  lemma DecodeLeftForm(f: bv32)
    requires Bits(f) < 24
    ensures Decode(LeftChild(f)) ==
      Node(Bits(f) + 1, LevelOf(Bits(f) + 1), Value(f) & StepMask(0x100_0000 >> (Bits(f) + 1)))
  {
    LeftBits(f);
    LeftValueMake(f);
  }

  lemma LeftFields(b: bv32, c: bv32, v: bv32)
    ensures Left(Node(b, c, v)) == Node(Deeper(b), Half(c), LeftVal(v, c))
  {
  }

  lemma LeftDecodeForm(f: bv32)
    requires Bits(f) < 24
    ensures Left(Decode(f)) ==
      Node(Bits(f) + 1, LevelOf(Bits(f) + 1), Value(f) & StepMask(0x100_0000 >> (Bits(f) + 1)))
  {
    LeftFields(Bits(f), LevelOf(Bits(f)), Value(f));
    LeftAt(Value(f), Bits(f));
  }

  lemma DecodeLeft(f: bv32)
    requires Bits(f) < 24
    ensures Decode(LeftChild(f)) == Left(Decode(f))
  {
    DecodeLeftForm(f);
    LeftDecodeForm(f);
  }

  lemma DecodeRightForm(f: bv32)
    requires Bits(f) < 24
    ensures Decode(RightChild(f)) == Node(Bits(f) + 1, LevelOf(Bits(f) + 1),
      (Value(f) | (0x100_0000 >> (Bits(f) + 1))) & StepMask(0x100_0000 >> (Bits(f) + 1)))
  {
    RightBits(f);
    RightValueMake(f);
  }

  lemma RightFields(b: bv32, c: bv32, v: bv32)
    ensures Right(Node(b, c, v)) == Node(Deeper(b), Half(c), RightVal(v, c))
  {
  }

  lemma RightDecodeForm(f: bv32)
    requires Bits(f) < 24
    ensures Right(Decode(f)) == Node(Bits(f) + 1, LevelOf(Bits(f) + 1),
      (Value(f) | (0x100_0000 >> (Bits(f) + 1))) & StepMask(0x100_0000 >> (Bits(f) + 1)))
  {
    RightFields(Bits(f), LevelOf(Bits(f)), Value(f));
    RightAt(Value(f), Bits(f));
  }

  lemma DecodeRight(f: bv32)
    requires Bits(f) < 24
    ensures Decode(RightChild(f)) == Right(Decode(f))
  {
    DecodeRightForm(f);
    RightDecodeForm(f);
  }

  lemma DecodeParentForm(g: bv32)
    requires 1 <= Bits(g) <= 24
    ensures Decode(Parent(g)) == Node(Bits(g) - 1, LevelOf(Bits(g) - 1),
      (Value(g) & (StepMask(0x100_0000 >> Bits(g)) << 1)) & StepMask(0x100_0000 >> (Bits(g) - 1)))
  {
    ParentBits(g);
    ParentValueRaw(g);
  }

  lemma UpFields(b: bv32, c: bv32, v: bv32)
    ensures Up(Node(b, c, v)) == Node(Shallower(b), Twice(c), UpVal(v, c))
  {
  }

  lemma UpDecodeForm(g: bv32)
    requires 1 <= Bits(g) <= 24
    ensures Up(Decode(g)) == Node(Bits(g) - 1, LevelOf(Bits(g) - 1),
      (Value(g) & (StepMask(0x100_0000 >> Bits(g)) << 1)) & StepMask(0x100_0000 >> (Bits(g) - 1)))
  {
    UpFields(Bits(g), LevelOf(Bits(g)), Value(g));
    UpAt(Value(g), Bits(g));
  }

  lemma DecodeParent(g: bv32)
    requires 1 <= Bits(g) <= 24
    ensures Decode(Parent(g)) == Up(Decode(g))
  {
    DecodeParentForm(g);
    UpDecodeForm(g);
  }

  lemma DecodeSiblingForm(f: bv32)
    requires Bits(f) <= 24
    ensures Decode(Sibling(f)) == Node(Bits(f), LevelOf(Bits(f)),
      (Value(f) ^ (0x100_0000 >> Bits(f))) & StepMask(0x100_0000 >> Bits(f)))
  {
    SiblingUnfold(f);
    SiblingMake(f);
  }

  lemma FlipFields(b: bv32, c: bv32, v: bv32)
    ensures Flip(Node(b, c, v)) == Node(b, c, FlipVal(v, c))
  {
  }

  lemma FlipDecodeForm(f: bv32)
    requires Bits(f) <= 24
    ensures Flip(Decode(f)) == Node(Bits(f), LevelOf(Bits(f)),
      (Value(f) ^ (0x100_0000 >> Bits(f))) & StepMask(0x100_0000 >> Bits(f)))
  {
    FlipFields(Bits(f), LevelOf(Bits(f)), Value(f));
    FlipAt(Value(f), Bits(f));
  }

  lemma DecodeSibling(f: bv32)
    requires Bits(f) <= 24
    ensures Decode(Sibling(f)) == Flip(Decode(f))
  {
    DecodeSiblingForm(f);
    FlipDecodeForm(f);
  }

  lemma DecodeNextForm(f: bv32)
    requires Bits(f) <= 24
    ensures Decode(Next(f)) == Node(Bits(f), LevelOf(Bits(f)),
      (Value(f) + (0x100_0000 >> Bits(f))) & StepMask(0x100_0000 >> Bits(f)))
  {
    NextUnfold(f);
    NextMake(f);
  }

  lemma SuccFields(b: bv32, c: bv32, v: bv32)
    ensures Succ(Node(b, c, v)) == Node(b, c, SuccVal(v, c))
  {
  }

  lemma SuccDecodeForm(f: bv32)
    requires Bits(f) <= 24
    ensures Succ(Decode(f)) == Node(Bits(f), LevelOf(Bits(f)),
      (Value(f) + (0x100_0000 >> Bits(f))) & StepMask(0x100_0000 >> Bits(f)))
  {
    SuccFields(Bits(f), LevelOf(Bits(f)), Value(f));
    SuccAt(Value(f), Bits(f));
  }

  lemma DecodeNext(f: bv32)
    requires Bits(f) <= 24
    ensures Decode(Next(f)) == Succ(Decode(f))
  {
    DecodeNextForm(f);
    SuccDecodeForm(f);
  }

  // The tests

  /** The level bit of a depth, as the header shifts it. */
  lemma LevelAt(b: bv32)
    requires b <= 24
    ensures LevelOf(b) == 0x100_0000 >> b
  {
  }

  /** The level bit of depth `b` is 2 to the power `24 - b`. */
  lemma ShiftLevel(b: bv32)
    requires b <= 24
    ensures (0x100_0000 as bv32) >> b == 1 << (24 - b)
  {
  }

  lemma MaskLevel(f: bv32)
    requires Bits(f) <= 24
    ensures Mask(f) == StepMask(LevelOf(Bits(f)))
  {
  }

  lemma DecodeContainsValue(f: bv32, x: bv32)
    requires Bits(f) <= 24
    ensures ContainsValue(f, x) <==> HasValue(Decode(f), x)
  {
    MaskLevel(f);
  }

  lemma DecodeContainsFrag(f: bv32, g: bv32)
    requires Bits(f) <= 24
    ensures ContainsFrag(f, g) <==> Includes(Decode(f), Decode(g))
  {
    DecodeContainsValue(f, Value(g));
  }

  lemma DecodeIsLeftChild(f: bv32)
    requires Bits(f) <= 24
    ensures IsLeftChild(f) <==> IsLeft(Decode(f))
  {
    IsLeftChildView(f);
    LevelAt(Bits(f));
  }

  lemma DecodeIsRightChild(f: bv32)
    requires Bits(f) <= 24
    ensures IsRightChildIntended(f) <==> IsRight(Decode(f))
  {
    IsRightChildView(f);
    LevelAt(Bits(f));
  }

  lemma DecodeIsRightmost(f: bv32)
    requires Bits(f) <= 24
    ensures IsRightmost(f) <==> AtLast(Decode(f))
  {
    MaskLevel(f);
  }
}
