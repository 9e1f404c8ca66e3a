/** Vertex attribute types and descriptors (`include/Renderer/AttributeDescriptor.hpp`). */
module AttributeDescriptor {
  import opened Wrappers
  import opened Global

  /** `AttributeType` is an enumeration over `uint8`; a value outside its
      four enumerators can still be formed by a cast, so every `uint8`
      value is a possible argument. */
  type AttributeType = uint8

  const Float32: AttributeType := 0
  const Integer32: AttributeType := 1
  const Byte: AttributeType := 2
  const UnsignedInteger32: AttributeType := 3

  predicate IsEnumerator(t: AttributeType) {
    t < 4
  }

  /** The message `getSizeOfType` throws with. */
  const InvalidTypeMessage := "Parameter [type] is not a valid vertex attribute type"

  /** `getSizeOfType`: the byte size of one element of the type, or the
      exception thrown for a value that is not an enumerator. */
  function GetSizeOfType(t: AttributeType): (r: Result<nat, string>)
    ensures r.Success? <==> IsEnumerator(t)
    ensures r.Success? ==> r.value in {1, 4}
    ensures r.Failure? ==> r.error == InvalidTypeMessage
  {
    if t == Float32 then Success(4)                  // sizeof(float32)
    else if t == Integer32 then Success(4)           // sizeof(int32)
    else if t == Byte then Success(1)                // sizeof(int8)
    else if t == UnsignedInteger32 then Success(4)   // sizeof(uint32)
    else Failure(InvalidTypeMessage)
  }

  /** The sizes of the four enumerators, each positive. */
  lemma SizeTable(t: AttributeType)
    ensures GetSizeOfType(Float32) == Success(4)
    ensures GetSizeOfType(Integer32) == Success(4)
    ensures GetSizeOfType(Byte) == Success(1)
    ensures GetSizeOfType(UnsignedInteger32) == Success(4)
    ensures IsEnumerator(t) ==> GetSizeOfType(t).value > 0
    ensures !IsEnumerator(t) ==> GetSizeOfType(t).Failure?
  {
  }

  datatype AttributeDescriptor = AttributeDescriptor(attributeType: AttributeType, count: uint8, normalized: bool)

  /** Aggregate initialisation with the default member initialiser:
      `normalized` is false unless given. */
  function Describe(t: AttributeType, count: uint8): (a: AttributeDescriptor)
    ensures !a.normalized
    ensures a.attributeType == t && a.count == count
  {
    AttributeDescriptor(t, count, false)
  }

  /** The bytes one attribute occupies in a vertex: `count * getSizeOfType(type)`. */
  function ByteSize(a: AttributeDescriptor): (r: nat)
    requires IsEnumerator(a.attributeType)
    ensures r <= 4 * a.count
    ensures a.count > 0 ==> r > 0
  {
    a.count * GetSizeOfType(a.attributeType).value
  }
}
