/** The ancestors of a frag: the frags `k` steps of `Parent` above it.

    `contains_frag` is the ancestor relation of the trie: a frag contains
    another exactly when it is that frag's ancestor at its own depth. */
module FragAncestor {
  import opened CephFrag
  import opened FragView
  import opened FragLaws
  import opened FragNode
  import opened FragDecode

  /** `g` is a frag at least `k` levels deep. The conjunction is bound to
      a local name only for the verifier's sake: a caller then discharges it
      as one proof obligation instead of one per conjunct. */
  predicate AtLeastDeep(g: bv32, k: bv32)
  {
    var ok := WellFormed(g) && k <= Bits(g);
    ok
  }

  /** The frag `k` levels above `g`. */
  function Ancestor(g: bv32, k: bv32): (a: bv32)
    requires AtLeastDeep(g, k)
    ensures WellFormed(a) && Bits(a) == Bits(g) - k
    decreases k
  {
    if k == 0 then g
    else
      var p := Ancestor(g, k - 1);
      ContainedByParent(p);
      Parent(p)
  }

  /** `p` is a frag below the root that contains the frag `g`. Bound to a
      local name for the same reason as `AtLeastDeep`. */
  predicate ContainsBelowRoot(p: bv32, g: bv32)
  {
    var ok := WellFormed(p) && Bits(p) > 0 && WellFormed(g) && ContainsFrag(p, g);
    ok
  }

  /** What a frag contains, its parent contains. */
  lemma ParentContainsToo(p: bv32, g: bv32)
    requires ContainsBelowRoot(p, g)
    ensures ContainsFrag(Parent(p), g)
  {
    ContainedByParent(p);
    ContainsTrans(Parent(p), p, g);
  }

  /** Every ancestor of a frag contains it. */
  lemma {:induction false} AncestorContains(g: bv32, k: bv32)
    requires AtLeastDeep(g, k)
    ensures ContainsFrag(Ancestor(g, k), g)
    decreases k
  {
    if k == 0 {
      ContainsSelf(g);
    } else {
      AncestorContains(g, k - 1);
      ParentContainsToo(Ancestor(g, k - 1), g);
    }
  }

  /** Two nodes with the same level bit that include the same node have
      the same value. */
  lemma SameLevelValue(x: Node, y: Node, z: Node)
    requires x.level == y.level && Includes(x, z) && Includes(y, z)
    ensures x.value == y.value
  {
  }

  /** Two frags of the same depth that contain the same frag are equal. */
  lemma SameDepthContainers(f: bv32, h: bv32, g: bv32)
    requires WellFormed(f) && WellFormed(h) && Bits(f) == Bits(h)
    requires ContainsFrag(f, g) && ContainsFrag(h, g)
    ensures f == h
  {
    DecodeContainsFrag(f, g);
    DecodeContainsFrag(h, g);
    SameLevelValue(Decode(f), Decode(h), Decode(g));
    WordEq(f, h);
  }

  /** `f` is the ancestor of the frag `g` at its own depth. */
  predicate IsAncestorOf(f: bv32, g: bv32)
  {
    WellFormed(g) && Bits(g) >= Bits(f) && Ancestor(g, Bits(g) - Bits(f)) == f
  }

  /** A frag contains its descendants. */
  lemma AncestorIsContainer(f: bv32, g: bv32)
    requires IsAncestorOf(f, g)
    ensures ContainsFrag(f, g)
  {
    AncestorContains(g, Bits(g) - Bits(f));
  }

  /** A frag contains nothing but its descendants. */
  lemma ContainerIsAncestor(f: bv32, g: bv32)
    requires WellFormed(f) && WellFormed(g) && ContainsFrag(f, g)
    ensures IsAncestorOf(f, g)
  {
    var a := Ancestor(g, Bits(g) - Bits(f));
    AncestorContains(g, Bits(g) - Bits(f));
    SameDepthContainers(f, a, g);
  }

  /** A frag contains `g` exactly when it is the ancestor of `g` at its own
      depth. */
  lemma ContainsIsAncestor(f: bv32, g: bv32)
    requires WellFormed(f) && WellFormed(g)
    ensures ContainsFrag(f, g) <==> IsAncestorOf(f, g)
  {
    if ContainsFrag(f, g) {
      ContainerIsAncestor(f, g);
    } else if IsAncestorOf(f, g) {
      AncestorIsContainer(f, g);
    }
  }
}
