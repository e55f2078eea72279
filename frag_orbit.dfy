/** Walking a depth with `ceph_frag_next`.

    From the leftmost frag of depth `d`, `next` visits the frags of that
    depth from left to right: after `k` steps (for `k` below `2^d`) it is at
    the frag whose new bits spell `k`, that is `make_child` of the root by
    `d` levels with index `k`. So the first `2^d` steps give `2^d` different
    frags, every frag of depth `d` is among them, and step `2^d` is back at
    the leftmost one. */
module FragOrbit {
  import opened CephFrag
  import opened FragStep
  import opened FragNode
  import opened FragView
  import opened FragLaws
  import opened FragChild

  /** `next` applied `k` times. */
  function NextN(f: bv32, k: bv32): (g: bv32)
    requires WellFormed(f)
    ensures WellFormed(g) && Bits(g) == Bits(f)
    decreases k
  {
    if k == 0 then f else Next(NextN(f, k - 1))
  }

  // Most lemmas below are helpers that guard their ensures with a
  // condition instead of stating a requires: a caller then has no
  // precondition to discharge, which keeps each proof within the solver's
  // limits. The lemmas named NextOrbit* state the walk's properties.

  // Bit facts over a free depth `d` and index `k`

  /** Adding the level bit of depth `d` to `k` shifted into place shifts
      `k + 1` into place, as long as `k + 1` still fits in `d` bits. */
  lemma ShiftSucc(k: bv32, d: bv32)
    ensures d <= 24 && k < (1 << d) - 1 ==>
      ((k << (24 - d)) + (0x100_0000 >> d)) & 0xff_ffff == (k + 1) << (24 - d)
  {
  }

  /** The index before a nonzero `k` that fits is not the last one. */
  lemma PredBelow(k: bv32, d: bv32)
    ensures d <= 24 && k != 0 && k < 1 << d ==>
      k - 1 < k && k - 1 < (1 << d) - 1 && (k - 1) + 1 == k
  {
  }

  /** Adding the level bit to the last index of depth `d` carries out of
      the value field. */
  lemma ShiftWrapTop(d: bv32)
    requires d <= 24
    ensures (((((1 as bv32) << d) - 1) << (24 - d)) + (0x100_0000 >> d)) & 0xff_ffff == 0
  {
  }

  /** A value with no bit below the level of depth `d` is its top `d` bits
      shifted back into place. */
  lemma ShiftBack(v: bv32, d: bv32)
    ensures d <= 24 && Within(v, StepMask(0x100_0000 >> d)) ==>
      v >> (24 - d) < 1 << d && (v >> (24 - d)) << (24 - d) == v
  {
  }

  // The walk

  /** The value of `make_child` of the root by `d` levels with index `k`. */
  lemma RootChildValue(d: bv32, k: bv32)
    ensures d <= 24 && k < 1 << d ==> Value(MakeChild(0, d, k)) == k << (24 - d)
  {
    RootChildSplice(d, k);
    SpliceRoot(k, d);
  }

  lemma RootChildSplice(d: bv32, k: bv32)
    ensures d <= 24 && k < 1 << d ==>
      Value(MakeChild(0, d, k)) == Splice(0, Placed(k, d))
  {
    if d <= 24 && k < 1 << d {
      assert ChildArgs(0, d, k);
      MakeChildValue(0, d, k);
    }
  }

  lemma SpliceRoot(k: bv32, d: bv32)
    ensures d <= 24 ==> Splice(0, Placed(k, d)) == k << (24 - d)
  {
  }

  /** `next` on a frag, as `FragLaws.NextValue` states it. */
  lemma NextValueIf(g: bv32)
    ensures WellFormed(g) ==>
      Value(Next(g)) == (Value(g) + (0x100_0000 >> Bits(g))) & 0xff_ffff
  {
    if WellFormed(g) {
      NextValue(g);
    }
  }

  /** Two words with the same fields are one word, as `FragView.WordEq`
      states it. */
  lemma SameFields(f: bv32, g: bv32)
    ensures Bits(f) == Bits(g) && Value(f) == Value(g) ==> f == g
  {
    if Bits(f) == Bits(g) && Value(f) == Value(g) {
      WordEq(f, g);
    }
  }

  /** One step of `next` moves from index `k - 1` to index `k`. */
  lemma OrbitStep(d: bv32, k: bv32)
    ensures d <= 24 && k != 0 && k < 1 << d ==>
      Next(MakeChild(0, d, k - 1)) == MakeChild(0, d, k)
  {
    PredBelow(k, d);
    StepFrom(d, k - 1);
  }

  lemma StepFrom(d: bv32, j: bv32)
    ensures d <= 24 && j < (1 << d) - 1 ==>
      Next(MakeChild(0, d, j)) == MakeChild(0, d, j + 1)
  {
    if d <= 24 && j < (1 << d) - 1 {
      var g := MakeChild(0, d, j);
      ShiftSucc(j, d);
      RootChildValue(d, j);
      NextValueIf(g);
      RootChildValue(d, j + 1);
      SameFields(Next(g), MakeChild(0, d, j + 1));
    }
  }

  /** The root frag `0`. */
  lemma RootFields()
    ensures Bits(0) == 0 && Value(0) == 0 && WellFormed(0)
  {
  }

  /** Index 0 is the leftmost frag of depth `d`. */
  lemma FirstRootChild(d: bv32)
    ensures d <= 24 ==> MakeChild(0, d, 0) == Make(d, 0)
  {
    if d <= 24 {
      RootFields();
      MakeChildUnfold(0, d, 0);
    }
  }

  /** After `k` steps from the leftmost frag of depth `d` the walk is at
      index `k`. */
  lemma {:induction false} NextNFromLeftmost(d: bv32, k: bv32)
    ensures d <= 24 && k < 1 << d ==> NextN(Make(d, 0), k) == MakeChild(0, d, k)
    decreases k
  {
    if d <= 24 && k < 1 << d {
      if k == 0 {
        FirstRootChild(d);
      } else {
        PredBelow(k, d);
        NextNFromLeftmost(d, k - 1);
        OrbitStep(d, k);
      }
    }
  }

  /** Step `k` of the walk (for `k` below `2^d`) is the frag of depth `d`
      whose value field is `k` shifted to end at the level bit. */
  lemma NextOrbitValue(d: bv32, k: bv32)
    requires d <= 24 && k < 1 << d
    ensures Bits(NextN(Make(d, 0), k)) == d
    ensures Value(NextN(Make(d, 0), k)) == k << (24 - d)
  {
    NextNFromLeftmost(d, k);
    RootChildValue(d, k);
  }

  /** The first `2^d` steps of the walk are `2^d` different frags. */
  lemma NextOrbitInjective(d: bv32, j: bv32, k: bv32)
    requires d <= 24 && j < 1 << d && k < 1 << d
    ensures NextN(Make(d, 0), j) == NextN(Make(d, 0), k) ==> j == k
  {
    NextNFromLeftmost(d, j);
    NextNFromLeftmost(d, k);
    if MakeChild(0, d, j) == MakeChild(0, d, k) {
      MakeChildInjective(0, d, j, k);
    }
  }

  /** Every frag of depth `d` is reached within the first `2^d` steps: the
      frag of depth `d` with value field `v` (every frag is one, by
      `FragLaws.MakeRoundTrip`) at the step its top `d` value bits spell. */
  lemma NextOrbitCovers(d: bv32, v: bv32)
    requires d <= 24 && Within(v, StepMask(0x100_0000 >> d))
    ensures v >> (24 - d) < 1 << d
    ensures NextN(Make(d, 0), v >> (24 - d)) == Make(d, v)
  {
    ShiftBack(v, d);
    NextNFromLeftmost(d, v >> (24 - d));
    RootChildMake(d, v >> (24 - d), v);
  }

  /** The root's descendant `d` levels down with index `k` is the frag of
      depth `d` made from `k` shifted into place. */
  lemma RootChildMake(b: bv32, k: bv32, v: bv32)
    ensures b <= 24 && k << (24 - b) == v ==> MakeChild(0, b, k) == Make(b, v)
  {
    if b <= 24 && k << (24 - b) == v {
      RootFields();
      MakeChildUnfold(0, b, k);
    }
  }

  /** Step `2^d` is back at the leftmost frag of depth `d`. */
  lemma NextOrbitWraps(d: bv32)
    requires d <= 24
    ensures NextN(Make(d, 0), 1 << d) == Make(d, 0)
  {
    var top := ((1 as bv32) << d) - 1;
    NextNFromLeftmost(d, top);
    var g := MakeChild(0, d, top);
    RootChildValue(d, top);
    NextValue(g);
    ShiftWrapTop(d);
    MakeFields(d, 0);
    WordEq(Next(g), Make(d, 0));
  }
}
