/** The frag word of src/include/ceph_frag.h.

    A frag names a subset of the 32-bit number space: the values whose top
    `bits` bits (of the low 24) equal those of the frag's value. It is packed
    into one unsigned 32-bit word, the depth `bits` in the top 8 bits and the
    value in the low 24, and every operation below is the header's inline
    function on that word, with the same shifts, masks and unsigned
    wrap-around (`bv32` arithmetic wraps like `__u32`).

    Preconditions only keep shift counts defined in C: a shift of a 32-bit
    word by 32 or more is undefined behaviour, so `0xffffff << (24 - b)`
    needs `24 - b` (computed modulo 2^32) below 32 and `0x1000000 >> b` needs
    `b` below 32. */
module CephFrag {

  /** `ceph_frag_make`: depth `b` and the top `b` bits of `v`'s value
      field. With `b` of 0 to 24 this is a frag; `b` may also be one of the
      seven words below 2^32 whose distance to 24 is still a defined shift
      count, which `Parent` of the root produces. */
  function Make(b: bv32, v: bv32): (f: bv32)
    requires 24 - b < 32
    ensures b <= 24 ==> Bits(f) == b && WellFormed(f)
  {
    (b << 24) | (v & (0xff_ffff << (24 - b)) & 0xff_ffff)
  }

  /** `ceph_frag_bits`: the depth, the top 8 bits. */
  function Bits(f: bv32): (b: bv32)
    ensures b <= 0xff
  {
    f >> 24
  }

  /** `ceph_frag_value`: the low 24 bits. With the depth it gives the word
      back. */
  function Value(f: bv32): (v: bv32)
    ensures v <= 0xff_ffff && (Bits(f) << 24) | v == f
  {
    f & 0xff_ffff
  }

  /** `ceph_frag_mask`: the top `Bits(f)` bits of the value field, that is
      every bit from the frag's level bit `0x1000000 >> Bits(f)` up to
      bit 23. */
  function Mask(f: bv32): (m: bv32)
    requires Bits(f) <= 24
    ensures m == 0x100_0000 - (0x100_0000 >> Bits(f))
  {
    (0xff_ffff << (24 - Bits(f))) & 0xff_ffff
  }

  /** `ceph_frag_mask_shift`: how many low bits the mask leaves out
      (wrapping for depths above 24, as the unsigned C subtraction does). */
  function MaskShift(f: bv32): (s: bv32)
    ensures Bits(f) <= 24 ==> s <= 24 && Mask(f) == 0x100_0000 - (1 << s)
  {
    24 - Bits(f)
  }

  /** `ceph_frag_contains_value`: `v` lies in the subset `f` names. */
  predicate ContainsValue(f: bv32, v: bv32): (r: bool)
    requires Bits(f) <= 24
    ensures WellFormed(f) ==> (r <==> Make(Bits(f), v) == f)
  {
    MakeAtDepth(f, v);
    v & Mask(f) == Value(f)
  }

  /** `ceph_frag_contains_frag`: `sub` is at least as deep as `f` and its
      value lies in `f` (the header writes the second test out as
      `contains_value`'s body). As in C, the mask is only computed when the
      depth test passes. */
  predicate ContainsFrag(f: bv32, sub: bv32): (r: bool)
    requires Bits(sub) >= Bits(f) ==> Bits(f) <= 24
    ensures WellFormed(f) ==> (r <==> Bits(sub) >= Bits(f) && Make(Bits(f), Value(sub)) == f)
  {
    Bits(sub) >= Bits(f) && ContainsValue(f, Value(sub))
  }

  /** `ceph_frag_parent`: one level up. At depth 0 the unsigned `bits - 1`
      wraps, and the result is the word `0xff000000`, not a frag
      (`FragLaws.ParentOfRoot`). */
  function Parent(f: bv32): (p: bv32)
    requires Bits(f) <= 24
    ensures WellFormed(f) && Bits(f) > 0 ==> WellFormed(p) && Bits(p) == Bits(f) - 1
  {
    Make(Bits(f) - 1, Value(f) & (Mask(f) << 1))
  }

  /** `ceph_frag_is_left_child`: below the root, and the bit of the frag's
      own level is clear. */
  predicate IsLeftChild(f: bv32): (r: bool)
    requires Bits(f) < 32
    ensures WellFormed(f) ==> (r <==> Bits(f) > 0 && Value(Parent(f)) == Value(f))
  {
    ParentValue(f);
    Bits(f) > 0 && Value(f) & (0x100_0000 >> Bits(f)) == 0
  }

  /** `ceph_frag_is_right_child`, as written: it compares the isolated level
      bit with `1`, which only the bit of level 24 can equal. */
  predicate IsRightChild(f: bv32): (r: bool)
    requires Bits(f) < 32
    ensures r <==> Bits(f) == 24 && Value(f) & 1 == 1
  {
    Bits(f) > 0 && Value(f) & (0x100_0000 >> Bits(f)) == 1
  }

  /** The test `ceph_frag_is_right_child` evidently intends: the bit of the
      frag's own level is set. */
  predicate IsRightChildIntended(f: bv32): (r: bool)
    requires Bits(f) < 32
    ensures WellFormed(f) ==> (r <==> Bits(f) > 0 && Value(Parent(f)) != Value(f))
  {
    ParentValue(f);
    Bits(f) > 0 && Value(f) & (0x100_0000 >> Bits(f)) != 0
  }

  /** `ceph_frag_sibling`: the same depth with the bit of its own level
      flipped. */
  function Sibling(f: bv32): (s: bv32)
    requires Bits(f) <= 24
    ensures WellFormed(s) && Bits(s) == Bits(f) && (Bits(f) > 0 ==> s != f)
  {
    Make(Bits(f), Value(f) ^ (0x100_0000 >> Bits(f)))
  }

  /** `ceph_frag_left_child`: one level down, new bit clear. */
  function LeftChild(f: bv32): (c: bv32)
    requires Bits(f) < 24
    ensures WellFormed(c) && Bits(c) == Bits(f) + 1
  {
    Make(Bits(f) + 1, Value(f))
  }

  /** `ceph_frag_right_child`: one level down, new bit set. */
  function RightChild(f: bv32): (c: bv32)
    requires Bits(f) < 24
    ensures WellFormed(c) && Bits(c) == Bits(f) + 1
  {
    Make(Bits(f) + 1, Value(f) | (0x100_0000 >> (1 + Bits(f))))
  }

  /** `ceph_frag_make_child`: the descendant `more` levels down whose new
      bits spell `i`. The C `int` parameters are taken as unsigned words. */
  function MakeChild(f: bv32, more: bv32, i: bv32): (c: bv32)
    requires more <= 24 && Bits(f) + more <= 24
    ensures WellFormed(c) && Bits(c) == Bits(f) + more
  {
    var newBits := Bits(f) + more;
    Make(newBits, Value(f) | (i << (24 - newBits)))
  }

  /** `ceph_frag_is_leftmost`: the value field is all zero. */
  predicate IsLeftmost(f: bv32): (r: bool)
    ensures WellFormed(f) ==> (r <==> ContainsValue(f, 0))
  {
    Value(f) == 0
  }

  /** `ceph_frag_is_rightmost`: every bit of the mask is set. */
  predicate IsRightmost(f: bv32): (r: bool)
    requires Bits(f) <= 24
    ensures WellFormed(f) ==> (r <==> ContainsValue(f, 0xff_ffff))
  {
    Value(f) == Mask(f)
  }

  /** `ceph_frag_next`: add the step of the frag's level to its value; the
      carry out of the value field is dropped by `Make`. */
  function Next(f: bv32): (n: bv32)
    requires Bits(f) <= 24
    ensures WellFormed(n) && Bits(n) == Bits(f)
  {
    Make(Bits(f), Value(f) + (0x100_0000 >> Bits(f)))
  }

  /** A word every operation above produces from a frag: depth at most 24
      and no value bit below the frag's level. */
  predicate WellFormed(f: bv32)
  {
    Bits(f) <= 24 && Value(f) & Mask(f) == Value(f)
  }

  /** The frag of `f`'s depth made from `v` has that depth and keeps the
      bits of `v` under `f`'s mask. */
  lemma MakeAtDepth(f: bv32, v: bv32)
    ensures Bits(f) <= 24 ==>
      Bits(Make(Bits(f), v)) == Bits(f) && Value(Make(Bits(f), v)) == v & Mask(f)
  {
  }

  /** Below the root, the parent's value is the frag's value with the bit
      of its own level cleared. */
  lemma ParentValue(f: bv32)
    ensures WellFormed(f) && Bits(f) > 0 ==>
      Value(Parent(f)) == Value(f) & !(0x100_0000 >> Bits(f))
  {
  }
}
