/** The octant helpers of `include/OctTreeHelpers.hpp`: a sign test per axis
    and the packing of the three resulting flags into one index. Positions
    only undergo sign tests, so they are integer triples here. */
module OctTreeHelpers {
  import opened Global

  datatype IVec3 = IVec3(x: int, y: int, z: int)

  /** `glm::bvec3`. */
  datatype BVec3 = BVec3(x: bool, y: bool, z: bool)

  /** `convertToNormalizedIndex`: strict sign tests, with the y axis tested
      for the negative side while x and z are tested for the positive side. */
  function ConvertToNormalizedIndex(index: IVec3): BVec3 {
    BVec3(index.x > 0, index.y < 0, index.z > 0)
  }

  /** A C++ `bool` promoted to an integer. */
  function Bit(b: bool): bv8 {
    if b then 1 else 0
  }

  /** `convertToScalarIndex`: `(x << 2) | (y << 1) | z`. The bits are
      disjoint, so the index is the arithmetic 4x + 2y + z and lies in 0..7. */
  function ConvertToScalarIndex(index: BVec3): (r: uint8)
    ensures r == 4 * (Bit(index.x) as nat) + 2 * (Bit(index.y) as nat) + Bit(index.z) as nat
    ensures r < 8
  {
    ((Bit(index.x) << 2) | (Bit(index.y) << 1) | Bit(index.z)) as nat
  }

  /** Reads the three flags back out of an index: bit 2 is x, bit 1 is y and
      bit 0 is z. */
  function FromScalarIndex(i: nat): BVec3
    requires i < 8
  {
    BVec3(i / 4 == 1, (i / 2) % 2 == 1, i % 2 == 1)
  }

  /** Packing is a bijection between the eight flag triples and 0..7: each
      direction undoes the other. */
  lemma ScalarIndexBijection(b: BVec3, i: nat)
    requires i < 8
    ensures FromScalarIndex(ConvertToScalarIndex(b)) == b
    ensures ConvertToScalarIndex(FromScalarIndex(i)) == i
  {
  }

  /** Hence packing is injective. */
  lemma ScalarIndexInjective(a: BVec3, b: BVec3)
    requires ConvertToScalarIndex(a) == ConvertToScalarIndex(b)
    ensures a == b
  {
    ScalarIndexBijection(a, 0);
    ScalarIndexBijection(b, 0);
  }

  /** A position in each octant: strictly positive or non-positive on x and
      z, strictly negative or non-negative on y. */
  function Representative(i: nat): IVec3
    requires i < 8
  {
    IVec3(if i / 4 == 1 then 1 else 0, if (i / 2) % 2 == 1 then -1 else 0, if i % 2 == 1 then 1 else 0)
  }

  /** Every index 0..7 is the octant of some position. */
  lemma EveryOctantReachable(i: nat)
    requires i < 8
    ensures ConvertToScalarIndex(ConvertToNormalizedIndex(Representative(i))) == i
  {
    ScalarIndexBijection(BVec3(false, false, false), i);
  }

  /** The axis tests: zero counts as negative on x and z but as non-negative
      on y, so the y flag is set on the opposite side from x and z. A point
      with all three coordinates positive lands in octant 5, not 7, and the
      origin lands in octant 0. */
  lemma AxisTests(p: IVec3)
    ensures ConvertToNormalizedIndex(p).x <==> p.x > 0
    ensures ConvertToNormalizedIndex(p).y <==> p.y < 0
    ensures ConvertToNormalizedIndex(p).z <==> p.z > 0
    ensures p.x > 0 && p.y > 0 && p.z > 0 ==> ConvertToScalarIndex(ConvertToNormalizedIndex(p)) == 5
    ensures p == IVec3(0, 0, 0) ==> ConvertToScalarIndex(ConvertToNormalizedIndex(p)) == 0
  {
  }
}
