# Ceph frags in Dafny

A *frag* names a subset of the 32-bit number space: the values whose top
`bits` bits of the low 24 equal those of the frag's value. The frags form a
binary trie. The root (depth 0) holds every value, and each frag of depth
below 24 splits into a left and a right child one level down. The header
`src/include/ceph_frag.h` packs a frag into one unsigned 32-bit word, the
depth in the top 8 bits and the value in the low 24. It works on that word
with inline functions: packing and unpacking, the mask, containment of
values and of frags, parent, children, sibling, the child tests,
`make_child`, the leftmost and rightmost tests and the successor.

The project has these modules:

- `CephFrag` (`ceph_frag.dfy`) is every inline function of the header on a
  `bv32` word. It keeps the same shifts, masks and unsigned wrap-around.
  Preconditions only keep C's shift counts defined (below 32), evaluated in
  C's order: `contains_frag` needs a defined mask only when its depth test
  passes. `make_child` is the one exception (see "Left out"). The
  contracts of the tests (`contains_value`, `contains_frag`, the child
  tests, `is_leftmost`, `is_rightmost`) and of `bits`, `value`, `mask` and
  `mask_shift` say what the result means. The contracts of the word
  builders (`parent`, `sibling`, the children, `make_child`, `next`) give
  the depth and that the result is a frag. What the builders compute is
  stated by lemmas in `FragLaws`, `FragChild` and `FragOrbit`.
- `FragStep` (`frag_step.dfy`) holds the bit laws of one trie step, over a
  free single-bit level `c` (the value of one step at a depth).
- `FragNode` (`frag_node.dfy`) restates the header's operations on trie
  nodes: a node is a depth, its level bit and a prefix value. It is not an
  independent model. It names the level bit explicitly so that the laws
  can be proved cheaply from the bit laws of `FragStep`.
- `FragView` (`frag_view.dfy`) and `FragDecode` (`frag_decode.dfy`) decode
  a word into a node and show that each word operation is the node
  operation on the decoded word. These are proof steps for the laws on
  words below.
- `FragLaws` (`frag_laws.dfy`) holds the laws of the header on words.
  These cover round trips, parent and children, siblings, the child tests,
  successors, containment and the ends of a depth.
- `FragAncestor` (`frag_ancestor.dfy`) defines the ancestor `k` levels up
  as `parent` applied `k` times. It proves that `contains_frag` is exactly
  the ancestor relation.
- `FragChild` (`frag_child.dfy`) covers `make_child`. One level down it is
  `left_child` or `right_child`. Any number of levels down it is a frag at
  the depth asked for, inside the original frag.
- `FragOrbit` (`frag_orbit.dfy`) follows `next` from the leftmost frag of
  a depth `d`. The first `2^d` steps visit the frags of that depth from
  left to right, each once, and step `2^d` is back at the start.

Where the comment and the code disagree, the model follows the code:

- The header's comment on `make_child` (lines 83-93) gives an example: the
  frag `0x1000000` with one more bit gives the children `0x1000000` and
  `0x1100000`. The code builds `0x2000000` and `0x2400000`, and
  `FragChild.MakeChildOfFirstLevel` states what the code builds.
- `ceph_frag_parent` of the root is defined in C. There `bits - 1` wraps
  to `0xffffffff`, and the result is the word `0xff000000`, which is not a
  frag. `FragLaws.ParentOfRoot` states this.

## Model

| member | source | states |
|---|---|---|
| CephFrag.Make | src/include/ceph_frag.h:21-25 | `make(b, x)` with `b <= 24` builds a frag of depth `b` with no value bit below its level |
| CephFrag.Bits | src/include/ceph_frag.h:26-29 | the depth is at most `0xff`: it is the top 8 bits of the word |
| CephFrag.Value | src/include/ceph_frag.h:30-33 | the value field is at most `0xffffff`, and the depth shifted back up and or-ed with it gives the word back |
| CephFrag.Mask | src/include/ceph_frag.h:34-37 | for depths up to 24 the mask is `0x1000000 - (0x1000000 >> bits)`: every value bit from the frag's level bit up to bit 23 |
| CephFrag.MaskShift | src/include/ceph_frag.h:38-41 | for depths up to 24, `mask_shift` is at most 24 and the mask is `0x1000000 - 2^mask_shift`: the mask leaves out exactly `mask_shift` low bits |
| CephFrag.ContainsValue | src/include/ceph_frag.h:43-46 | for a frag `f`, `contains_value(f, v)` holds exactly when the frag of `f`'s depth made from `v` is `f` |
| CephFrag.ContainsFrag | src/include/ceph_frag.h:47-52 | for a frag `f`, `contains_frag(f, sub)` holds exactly when `sub` is at least as deep and the frag of `f`'s depth made from `sub`'s value is `f`; the mask is needed only once the depth test passes |
| CephFrag.Parent | src/include/ceph_frag.h:54-58 | the parent of a frag below the root is a frag one level up |
| CephFrag.IsLeftChild | src/include/ceph_frag.h:59-63 | a frag is a left child exactly when it is below the root and its parent has the same value field |
| CephFrag.IsRightChild | src/include/ceph_frag.h:64-68 | as written, `is_right_child` holds exactly at depth 24 with an odd value, the only place the isolated level bit can equal 1 |
| CephFrag.IsRightChildIntended | src/include/ceph_frag.h:64-68 | the corrected test (`!= 0`) holds for a frag exactly when it is below the root and its parent has a different value field |
| CephFrag.Sibling | src/include/ceph_frag.h:69-73 | `sibling` is a frag of the same depth, and below the root a different one |
| CephFrag.LeftChild | src/include/ceph_frag.h:74-77 | `left_child` is a frag one level down |
| CephFrag.RightChild | src/include/ceph_frag.h:78-82 | `right_child` is a frag one level down |
| CephFrag.MakeChild | src/include/ceph_frag.h:94-104 | `make_child(f, by, i)` is a frag at depth `bits(f) + by` |
| CephFrag.IsLeftmost | src/include/ceph_frag.h:105-108 | a frag is leftmost exactly when it contains the value 0 |
| CephFrag.IsRightmost | src/include/ceph_frag.h:109-112 | a frag is rightmost exactly when it contains the all-ones value field `0xffffff` |
| CephFrag.Next | src/include/ceph_frag.h:113-117 | `next` is a frag at the same depth |
| FragView.WordEq | src/include/ceph_frag.h:26-33 | a word is determined by its depth (`bits`) and its value field (`value`) |
| FragView.MakeFields | src/include/ceph_frag.h:21-25 | `make(b, x)` with `b <= 24` has depth `b` and keeps exactly the value bits of `x` within the mask of depth `b` |
| FragLaws.MakeContains | src/include/ceph_frag.h:21-46 | the value given to `make` lies in the frag it builds |
| FragLaws.MakeRoundTrip | src/include/ceph_frag.h:21-33 | re-packing a frag's depth and value gives the frag back |
| FragDecode.Decode | src/include/ceph_frag.h:4-19 | a well-formed word decodes to a valid trie node |
| FragLaws.MaskShiftLevel | src/include/ceph_frag.h:34-41 | `mask_shift` and `bits` add up to 24, the level bit is 2 to the power `mask_shift`, and the mask keeps the bits from there up |
| FragLaws.ParentOfLeftChild | src/include/ceph_frag.h:54-77 | `parent(left_child(f)) == f` for every frag shallower than depth 24 |
| FragLaws.ParentOfRightChild | src/include/ceph_frag.h:54-82 | `parent(right_child(f)) == f` for every frag shallower than depth 24 |
| FragLaws.ParentOfRoot | src/include/ceph_frag.h:54-58 | at the root, `parent` wraps to the word `0xff000000`, which is not a frag |
| FragLaws.SiblingOfLeftChild | src/include/ceph_frag.h:69-82 | the sibling of the left child is the right child |
| FragLaws.SiblingOfRightChild | src/include/ceph_frag.h:69-82 | the sibling of the right child is the left child |
| FragLaws.SiblingTwice | src/include/ceph_frag.h:69-73 | `sibling` keeps the depth and is its own inverse |
| FragLaws.LeftChildOfParent | src/include/ceph_frag.h:54-77 | below the root, `left_child(parent(g)) == g` exactly when `is_left_child(g)` |
| FragLaws.RightChildOfParent | src/include/ceph_frag.h:54-82 | below the root, `right_child(parent(g)) == g` exactly when `g`'s own level bit is set (the corrected test `IsRightChildIntended`) |
| FragLaws.LeftOrRight | src/include/ceph_frag.h:59-68 | with `is_left_child` and the corrected right-child test `IsRightChildIntended`, a frag below the root is exactly one of the two, and the root is neither |
| FragLaws.RightChildOfRootMissed | src/include/ceph_frag.h:64-82 | the root's right child `0x1800000` is a right child that `is_right_child` as written rejects |
| FragLaws.NextOfLeftChild | src/include/ceph_frag.h:74-117 | after a left child comes its sibling, the right child |
| FragLaws.NextOfRightChild | src/include/ceph_frag.h:74-117 | after a right child comes the left child of the parent's successor |
| FragLaws.NextValue | src/include/ceph_frag.h:113-117 | for a frag, the value field of `next` is its value plus the level bit `0x1000000 >> bits`, modulo 2^24 |
| FragLaws.NextOfRightmost | src/include/ceph_frag.h:105-117 | after the rightmost frag of a depth comes the leftmost one |
| FragLaws.ContainsSelf | src/include/ceph_frag.h:47-52 | every frag contains itself |
| FragLaws.ContainsChildren | src/include/ceph_frag.h:47-82 | a frag contains both its children |
| FragLaws.ContainedByParent | src/include/ceph_frag.h:47-58 | a frag's parent contains it |
| FragLaws.ContainsValueThrough | src/include/ceph_frag.h:43-52 | a value in a contained frag lies in the containing frag |
| FragLaws.ContainsTrans | src/include/ceph_frag.h:47-52 | `contains_frag` is transitive on frags |
| FragLaws.ChildrenCover | src/include/ceph_frag.h:43-82 | a value lies in a frag exactly when it lies in one of its two children |
| FragLaws.ChildrenCoverDown | src/include/ceph_frag.h:43-82 | a value in a frag lies in one of its two children |
| FragLaws.ChildrenCoverUp | src/include/ceph_frag.h:43-82 | a value in either child lies in the frag |
| FragLaws.ChildrenDisjoint | src/include/ceph_frag.h:43-82 | no value lies in both children |
| FragLaws.RootContainsAll | src/include/ceph_frag.h:43-52 | the root frag `0` contains every value and every word |
| FragLaws.MakeEnds | src/include/ceph_frag.h:105-112 | at every depth, `make` of 0 is leftmost and `make` of the all-ones field is rightmost |
| FragAncestor.Ancestor | src/include/ceph_frag.h:54-58 | `k` applications of `parent` to a frag at least `k` deep give a frag exactly `k` levels shallower |
| FragAncestor.AncestorContains | src/include/ceph_frag.h:47-58 | every ancestor of a frag contains it |
| FragAncestor.SameDepthContainers | src/include/ceph_frag.h:47-52 | two frags of the same depth that contain the same frag are the same frag |
| FragAncestor.AncestorIsContainer | src/include/ceph_frag.h:47-58 | a frag contains every frag it is an ancestor of |
| FragAncestor.ContainerIsAncestor | src/include/ceph_frag.h:47-58 | a frag contains only frags it is an ancestor of |
| FragAncestor.ContainsIsAncestor | src/include/ceph_frag.h:47-58 | `contains_frag(f, g)` holds exactly when `f` is the ancestor of `g` at `f`'s depth |
| FragChild.MakeChildLeft | src/include/ceph_frag.h:94-104 | `make_child(f, 1, 0)` is `left_child(f)` |
| FragChild.MakeChildRight | src/include/ceph_frag.h:94-104 | `make_child(f, 1, 1)` is `right_child(f)` |
| FragChild.MakeChildContained | src/include/ceph_frag.h:94-104 | when `i` fits in `by` bits, `f` contains `make_child(f, by, i)` |
| FragChild.MakeChildValue | src/include/ceph_frag.h:94-104 | when `i` fits in `by` bits, the value field of `make_child(f, by, i)` is exactly `value(f)` or-ed with `i << (24 - (bits(f) + by))`: the cut in `make` drops none of `i`'s bits |
| FragChild.MakeChildInjective | src/include/ceph_frag.h:83-104 | different `i` that fit in `by` bits name different descendants |
| FragChild.MakeChildOfFirstLevel | src/include/ceph_frag.h:83-104 | from `0x1000000` with one more bit, the code builds `0x2000000` and `0x2400000` |
| FragOrbit.NextN | src/include/ceph_frag.h:113-117 | `next` applied `k` times to a frag gives a frag of the same depth |
| FragOrbit.NextOrbitValue | src/include/ceph_frag.h:113-117 | for `k` below `2^d`, `k` steps of `next` from the leftmost frag of depth `d` reach the frag of depth `d` whose value field is `k << (24 - d)` |
| FragOrbit.NextOrbitInjective | src/include/ceph_frag.h:113-117 | the first `2^d` steps of `next` from the leftmost frag of depth `d` are `2^d` different frags |
| FragOrbit.NextOrbitCovers | src/include/ceph_frag.h:113-117 | every frag of depth `d` is reached within the first `2^d` steps, at the step its top `d` value bits spell |
| FragOrbit.NextOrbitWraps | src/include/ceph_frag.h:113-117 | step `2^d` of `next` from the leftmost frag of depth `d` is back at that frag |

## Left out

- `ceph_frag_compare` (line 123) is only declared in the header. Its body is not part of this model, and neither is the logical sort order the opening comment mentions.
- The other repository files (performance counters, a RADOS listing test) use no frag operation and are not part of this model.
- CephFrag.MakeChild: C's `int` parameters `by` and `i` are taken as unsigned 32-bit words, and the model requires `0 <= by` and a new depth of at most 24. C also defines calls with a negative `by` whose new depth is between -7 and -1. A left shift of a negative or too large `i` is undefined in C and is not modelled.
- FragLaws.RightChildOfParent: stated for the corrected test `IsRightChildIntended` (`!= 0`). What the header's `is_right_child` actually does is stated by the contract of `CephFrag.IsRightChild` and by `FragLaws.RightChildOfRootMissed`.
- The laws are stated for well-formed words: depth at most 24 and no value bit below the level. The operations themselves require only what keeps C's shift counts defined, in C's evaluation order, except `make_child` (above).
- Nothing here models concurrency or I/O, because the header has none.

## Findings

| source | as written | input that shows it | evidently intended | confidence | as-written member | corrected member |
|---|---|---|---|---|---|---|
| src/include/ceph_frag.h:64-68 | `is_right_child` compares the isolated level bit `value & (0x1000000 >> bits)` with `1` | `0x1800000`, the right child of the root: the isolated bit is `0x800000`, so the test is false | compare with `0` using `!=`, true exactly for right children, mirroring `is_left_child` | not executed | FragLaws.RightChildOfRootMissed | FragLaws.RightChildOfParent |
