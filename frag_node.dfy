/** The header's operations restated on trie nodes.

    This is a proof device, not a second model: it names the level bit
    explicitly so that the laws can be proved over small bit facts. A node
    of the binary trie over the 24-bit value space is its depth, its level
    bit (`0x1000000 >> depth`, the value of one step at that depth) and the
    value of its prefix. Every trie operation of `ceph_frag.h` is
    defined here on nodes, one field at a time, by a small named function;
    `FragDecode` proves that each word operation computes exactly this on
    the decoded word. The laws of the trie are proved here, on nodes, from
    the bit laws of `FragStep`. */
module FragNode {
  import opened FragStep

  datatype Node = Node(depth: bv32, level: bv32, value: bv32)

  /** The level bit of depth `b`; zero for a depth no frag has. */
  function LevelOf(b: bv32): bv32
  {
    if b <= 24 then 0x100_0000 >> b else 0
  }

  /** A node some frag decodes to: depth at most 24, the level bit of that
      depth, and no value bit below the level. */
  predicate Valid(x: Node)
  {
    x.depth <= 24 && x.level == LevelOf(x.depth) && Within(x.value, StepMask(x.level))
  }

  // The depths one step away. These one-operator functions, and the lemmas
  // DepthBack and DepthForth below, exist only for the verifier: a named
  // function gives the solver a term to match on instead of raw bit-vector
  // arithmetic, which keeps the node laws cheap to prove.

  function Deeper(b: bv32): bv32 { b + 1 }

  function Shallower(b: bv32): bv32 { b - 1 }

  // The operations

  /** The left child: one level down, new bit clear. */
  function Left(x: Node): (y: Node)
    ensures Valid(x) && x.depth < 24 ==> Valid(y) && y.depth == x.depth + 1
  {
    Node(Deeper(x.depth), Half(x.level), LeftVal(x.value, x.level))
  }

  /** The right child: one level down, new bit set. */
  function Right(x: Node): (y: Node)
    ensures Valid(x) && x.depth < 24 ==> Valid(y) && y.depth == x.depth + 1
  {
    Node(Deeper(x.depth), Half(x.level), RightVal(x.value, x.level))
  }

  /** The parent: one level up, the node's own bit dropped. */
  function Up(x: Node): (y: Node)
    ensures Valid(x) && x.depth > 0 ==> Valid(y) && y.depth == x.depth - 1
  {
    Node(Shallower(x.depth), Twice(x.level), UpVal(x.value, x.level))
  }

  /** The sibling: the node's own bit flipped. */
  function Flip(x: Node): (y: Node)
    ensures Valid(x) ==> Valid(y) && y.depth == x.depth
  {
    Node(x.depth, x.level, FlipVal(x.value, x.level))
  }

  /** The next node of the same depth, wrapping after the last one. */
  function Succ(x: Node): (y: Node)
    ensures Valid(x) ==> Valid(y) && y.depth == x.depth
  {
    Node(x.depth, x.level, SuccVal(x.value, x.level))
  }

  /** The node of depth `b` whose prefix is that of the value `v`. */
  function Made(b: bv32, v: bv32): Node
  {
    Node(b, LevelOf(b), Cut(v, LevelOf(b)))
  }

  /** The bits `i` shifted so that they end at the level bit of depth
      `n`. */
  function Placed(i: bv32, n: bv32): bv32
    requires n <= 24
  {
    i << (24 - n)
  }

  /** `v` lies below the node: its bits down to the level are the prefix. */
  predicate HasValue(x: Node, v: bv32)
  {
    Matches(v, StepMask(x.level), x.value)
  }

  /** `y` is at least as deep as `x` and its prefix extends that of `x`. */
  predicate Includes(x: Node, y: Node)
  {
    y.depth >= x.depth && Matches(y.value, StepMask(x.level), x.value)
  }

  /** A node below the root whose own bit is clear. */
  predicate IsLeft(x: Node)
  {
    x.depth > 0 && !HasBit(x.value, x.level)
  }

  /** A node below the root whose own bit is set. */
  predicate IsRight(x: Node)
  {
    x.depth > 0 && HasBit(x.value, x.level)
  }

  /** The first node of its depth. */
  predicate AtFirst(x: Node)
  {
    x.value == 0
  }

  /** The last node of its depth. */
  predicate AtLast(x: Node)
  {
    x.value == StepMask(x.level)
  }

  // The level bit of a depth

  lemma LevelOfFacts(b: bv32)
    requires b <= 24
    ensures IsStep(LevelOf(b))
    ensures b < 24 ==> LevelOf(b) != 1
    ensures b > 0 ==> LevelOf(b) != 0x100_0000
  {
  }

  lemma LevelOfNext(b: bv32)
    requires b < 24
    ensures LevelOf(b + 1) == LevelOf(b) >> 1
  {
  }

  lemma LevelOfPrev(b: bv32)
    requires 0 < b <= 24
    ensures LevelOf(b - 1) == LevelOf(b) + LevelOf(b)
  {
  }

  /** Deeper nodes have lower level bits. */
  lemma LevelOfOrder(a: bv32, b: bv32)
    requires a <= b <= 24
    ensures LevelOf(b) <= LevelOf(a)
  {
  }

  // Steps that undo each other

  lemma DepthBack(b: bv32)
    ensures Shallower(Deeper(b)) == b
  {
  }

  lemma DepthForth(b: bv32)
    ensures Deeper(Shallower(b)) == b
  {
  }

  // Nodes made from a value

  /** The node made from a value is valid, and the value lies below it. */
  lemma MadeHasValue(b: bv32, v: bv32)
    requires b <= 24
    ensures Valid(Made(b, v)) && HasValue(Made(b, v), v)
  {
    LevelOfFacts(b);
    CutWithin(v, LevelOf(b));
  }

  /** A valid node is the node made from its own depth and value. */
  lemma MadeOfValid(x: Node)
    requires Valid(x)
    ensures Made(x.depth, x.value) == x
  {
    LevelOfFacts(x.depth);
    CutWithin(x.value, x.level);
  }

  // The laws of the trie

  /** The parent of either child is the node itself. */
  lemma UpOfLeft(x: Node)
    requires Valid(x) && x.depth < 24
    ensures Up(Left(x)) == x
  {
    LevelOfFacts(x.depth);
    DepthBack(x.depth);
    HalfStep(x.level);
    UpLeftVal(x.value, x.level);
  }

  lemma UpOfRight(x: Node)
    requires Valid(x) && x.depth < 24
    ensures Up(Right(x)) == x
  {
    LevelOfFacts(x.depth);
    DepthBack(x.depth);
    HalfStep(x.level);
    UpRightVal(x.value, x.level);
  }

  /** The two children are each other's siblings. */
  lemma FlipOfLeft(x: Node)
    requires Valid(x) && x.depth < 24
    ensures Flip(Left(x)) == Right(x)
  {
    LevelOfFacts(x.depth);
    FlipLeftVal(x.value, x.level);
  }

  lemma FlipOfRight(x: Node)
    requires Valid(x) && x.depth < 24
    ensures Flip(Right(x)) == Left(x)
  {
    LevelOfFacts(x.depth);
    FlipRightVal(x.value, x.level);
  }

  /** The sibling's sibling is the node itself. */
  lemma FlipTwice(x: Node)
    requires Valid(x)
    ensures Flip(Flip(x)) == x
  {
    LevelOfFacts(x.depth);
    FlipFlipVal(x.value, x.level);
  }

  /** After the left child comes the right child. */
  lemma SuccOfLeft(x: Node)
    requires Valid(x) && x.depth < 24
    ensures Succ(Left(x)) == Right(x)
  {
    LevelOfFacts(x.depth);
    SuccLeftVal(x.value, x.level);
  }

  /** After the right child comes the left child of the node's successor. */
  lemma SuccOfRight(x: Node)
    requires Valid(x) && x.depth < 24
    ensures Succ(Right(x)) == Left(Succ(x))
  {
    LevelOfFacts(x.depth);
    SuccRightVal(x.value, x.level);
  }

  /** After the last node of a depth comes the first one. */
  lemma SuccOfLast(x: Node)
    requires Valid(x) && AtLast(x)
    ensures AtFirst(Succ(x)) && Succ(x).depth == x.depth
  {
    LevelOfFacts(x.depth);
    SuccLastVal(x.level);
  }

  /** A node is the left child of its parent exactly when it is a left
      node. */
  lemma LeftOfUp(x: Node)
    requires Valid(x) && x.depth > 0
    ensures Left(Up(x)) == x <==> IsLeft(x)
  {
    LevelOfFacts(x.depth);
    DepthForth(x.depth);
    TwiceStep(x.level);
    LeftUpVal(x.value, x.level);
  }

  /** A node is the right child of its parent exactly when it is a right
      node. */
  lemma RightOfUp(x: Node)
    requires Valid(x) && x.depth > 0
    ensures Right(Up(x)) == x <==> IsRight(x)
  {
    LevelOfFacts(x.depth);
    DepthForth(x.depth);
    TwiceStep(x.level);
    RightUpVal(x.value, x.level);
  }

  // Containment

  /** A value below either child lies below the node. */
  lemma LeftHasValue(x: Node, w: bv32)
    requires Valid(x) && x.depth < 24 && HasValue(Left(x), w)
    ensures HasValue(x, w)
  {
    LevelOfFacts(x.depth);
    LeftHalfInside(x.value, x.level, w);
  }

  lemma RightHasValue(x: Node, w: bv32)
    requires Valid(x) && x.depth < 24 && HasValue(Right(x), w)
    ensures HasValue(x, w)
  {
    LevelOfFacts(x.depth);
    RightHalfInside(x.value, x.level, w);
  }

  /** A value below a node lies below one of its children. */
  lemma HasValueCover(x: Node, w: bv32)
    requires Valid(x) && x.depth < 24 && HasValue(x, w)
    ensures HasValue(Left(x), w) || HasValue(Right(x), w)
  {
    LevelOfFacts(x.depth);
    HalvesCover(x.value, x.level, w);
  }

  /** No value lies below both children. */
  lemma HasValueDisjoint(x: Node, w: bv32)
    requires Valid(x) && x.depth < 24
    ensures !(HasValue(Left(x), w) && HasValue(Right(x), w))
  {
    LevelOfFacts(x.depth);
    HalvesDisjoint(x.value, x.level, w);
  }

  /** Every node includes itself. */
  lemma IncludesSelf(x: Node)
    requires Valid(x)
    ensures Includes(x, x)
  {
  }

  /** A node includes both its children. */
  lemma IncludesLeft(x: Node)
    requires Valid(x) && x.depth < 24
    ensures Includes(x, Left(x))
  {
    LevelOfFacts(x.depth);
    LeftValInside(x.value, x.level);
  }

  lemma IncludesRight(x: Node)
    requires Valid(x) && x.depth < 24
    ensures Includes(x, Right(x))
  {
    LevelOfFacts(x.depth);
    RightValInside(x.value, x.level);
  }

  /** A node's parent includes it. */
  lemma IncludesByUp(x: Node)
    requires Valid(x) && x.depth > 0
    ensures Includes(Up(x), x)
  {
    LevelOfFacts(x.depth);
    UpValInside(x.value, x.level);
  }

  /** `Narrower` for the levels of two depths. */
  lemma NarrowerAt(a: bv32, b: bv32, v: bv32, w: bv32, x: bv32)
    requires a <= b <= 24
    requires Matches(w, StepMask(LevelOf(a)), v) && Matches(x, StepMask(LevelOf(b)), w)
    ensures Matches(x, StepMask(LevelOf(a)), v)
  {
    LevelOfFacts(a);
    LevelOfFacts(b);
    LevelOfOrder(a, b);
    Narrower(LevelOf(a), LevelOf(b), v, w, x);
  }

  /** A value below an included node lies below the including one. */
  lemma IncludesHasValue(x: Node, y: Node, w: bv32)
    requires Valid(x) && Valid(y) && Includes(x, y) && HasValue(y, w)
    ensures HasValue(x, w)
  {
    NarrowerAt(x.depth, y.depth, x.value, y.value, w);
  }

  /** Inclusion is transitive. */
  lemma IncludesTrans(x: Node, y: Node, z: Node)
    requires Valid(x) && Valid(y) && Valid(z) && Includes(x, y) && Includes(y, z)
    ensures Includes(x, z)
  {
    IncludesHasValue(x, y, z.value);
  }
}
