/** The vertex layout of `renderer::opengl::VertexBufferAttributes`
    (`include/Renderer/OpenGl/VertexBufferAttributes.hpp`): a list of
    attribute descriptors and the running stride, and the OpenGL calls
    `bind` and `unBind` make, recorded as a trace. */
module VertexBufferAttributes {
  import opened Global
  import opened AttributeDescriptor

  datatype VertexBufferAttributes = VertexBufferAttributes(attributes: seq<AttributeDescriptor>, stride: nat)

  /** Every attribute's type is an enumerator; otherwise the size lookup
      throws inside a `noexcept` member and the program terminates. */
  predicate ValidTypes(attrs: seq<AttributeDescriptor>) {
    forall i :: 0 <= i < |attrs| ==> IsEnumerator(attrs[i].attributeType)
  }

  /** The bytes a vertex with these attributes occupies: the sum of
      `count * size` over the list. */
  function TotalSize(attrs: seq<AttributeDescriptor>): nat
    requires ValidTypes(attrs)
  {
    if |attrs| == 0 then 0 else TotalSize(attrs[..|attrs| - 1]) + ByteSize(attrs[|attrs| - 1])
  }

  /** The layout's stride matches its attributes. */
  predicate Consistent(v: VertexBufferAttributes) {
    ValidTypes(v.attributes) && v.stride == TotalSize(v.attributes)
  }

  /** The default constructor: no attributes, stride 0. */
  function Empty(): (v: VertexBufferAttributes)
    ensures Consistent(v) && |v.attributes| == 0 && v.stride == 0
  {
    VertexBufferAttributes([], 0)
  }

  /** The capacity constructor: reserving storage adds no attribute. */
  function WithCapacity(attributeCount: uint32): (v: VertexBufferAttributes)
    ensures Consistent(v) && |v.attributes| == 0 && v.stride == 0
  {
    Empty()
  }

  /** The list and array constructors: copy the attributes, then add up the
      stride in one pass. */
  method FromList(attrs: seq<AttributeDescriptor>) returns (v: VertexBufferAttributes)
    requires ValidTypes(attrs)
    ensures v.attributes == attrs
    ensures v.stride == TotalSize(attrs)
  {
    var stride := 0;
    var i := 0;
    while i < |attrs|
      invariant 0 <= i <= |attrs|
      invariant stride == TotalSize(attrs[..i])
    {
      assert attrs[..i + 1][..i] == attrs[..i];
      stride := stride + attrs[i].count * GetSizeOfType(attrs[i].attributeType).value;
      i := i + 1;
    }
    assert attrs[..|attrs|] == attrs;
    v := VertexBufferAttributes(attrs, stride);
  }

  /** `addAttribute`: grows the stride by the attribute's size and appends
      it; the earlier attributes stay as they were. */
  function AddAttribute(v: VertexBufferAttributes, a: AttributeDescriptor): (r: VertexBufferAttributes)
    requires IsEnumerator(a.attributeType)
    ensures |r.attributes| == |v.attributes| + 1
    ensures r.attributes[..|v.attributes|] == v.attributes && r.attributes[|v.attributes|] == a
    ensures Consistent(v) ==> Consistent(r)
  {
    var r := VertexBufferAttributes(v.attributes + [a], v.stride + ByteSize(a));
    assert r.attributes[..|v.attributes|] == v.attributes;
    r
  }

  /** Adds the attributes one by one, in order. */
  function AddAll(v: VertexBufferAttributes, attrs: seq<AttributeDescriptor>): VertexBufferAttributes
    requires ValidTypes(attrs)
    decreases |attrs|
  {
    if |attrs| == 0 then v else AddAll(AddAttribute(v, attrs[0]), attrs[1..])
  }

  /** Building a layout by repeated `addAttribute` from the empty layout gives
      what the list constructor gives. */
  lemma {:induction false} AddAllMatchesTotal(v: VertexBufferAttributes, attrs: seq<AttributeDescriptor>)
    requires Consistent(v) && ValidTypes(attrs)
    ensures AddAll(v, attrs).attributes == v.attributes + attrs
    ensures Consistent(AddAll(v, attrs))
    decreases |attrs|
  {
    if |attrs| == 0 {
      assert v.attributes + attrs == v.attributes;
    } else {
      AddAllMatchesTotal(AddAttribute(v, attrs[0]), attrs[1..]);
      assert (v.attributes + [attrs[0]]) + attrs[1..] == v.attributes + attrs;
    }
  }

  /** In particular, adding the attributes one by one to the empty layout
      gives the list constructor's attributes and stride. */
  lemma AddAllFromEmpty(attrs: seq<AttributeDescriptor>)
    requires ValidTypes(attrs)
    ensures AddAll(Empty(), attrs) == VertexBufferAttributes(attrs, TotalSize(attrs))
  {
    AddAllMatchesTotal(Empty(), attrs);
    assert [] + attrs == attrs;
  }

  /** The byte offset of attribute `i`: the sizes of the attributes before it. */
  function Offset(attrs: seq<AttributeDescriptor>, i: nat): nat
    requires ValidTypes(attrs) && i <= |attrs|
  {
    assert ValidTypes(attrs[..i]) by {
      forall j | 0 <= j < i ensures IsEnumerator(attrs[..i][j].attributeType) {
        assert attrs[..i][j] == attrs[j];
      }
    }
    TotalSize(attrs[..i])
  }

  /** Offsets grow with the attribute index, and the offset past the last
      attribute is the stride, so no offset exceeds it. */
  lemma {:induction false} OffsetMonotone(attrs: seq<AttributeDescriptor>, i: nat, j: nat)
    requires ValidTypes(attrs) && i <= j <= |attrs|
    ensures Offset(attrs, i) <= Offset(attrs, j)
    ensures Offset(attrs, |attrs|) == TotalSize(attrs)
    decreases j - i
  {
    assert attrs[..|attrs|] == attrs;
    if i < j {
      OffsetMonotone(attrs, i, j - 1);
      assert attrs[..j][..j - 1] == attrs[..j - 1];
    }
  }

  /** One OpenGL call. The GL type enumerator is a function of the attribute
      type, so the attribute type itself is recorded. */
  datatype GlCall =
    | VertexAttribPointer(location: nat, count: uint8, attributeType: AttributeType, normalized: bool, stride: nat, offset: nat)
    | EnableVertexAttribArray(location: nat)
    | DisableVertexAttribArray(location: nat)

  /** `bind`: for each attribute in order, a pointer call at location `i`
      with the shared stride and the attribute's offset, then an enable of
      that location. */
  method Bind(v: VertexBufferAttributes) returns (calls: seq<GlCall>)
    requires ValidTypes(v.attributes)
    ensures |calls| == 2 * |v.attributes|
    ensures forall i :: 0 <= i < |v.attributes| ==>
              calls[2 * i] == VertexAttribPointer(i, v.attributes[i].count, v.attributes[i].attributeType,
                                                  v.attributes[i].normalized, v.stride, Offset(v.attributes, i))
    ensures forall i :: 0 <= i < |v.attributes| ==> calls[2 * i + 1] == EnableVertexAttribArray(i)
  {
    var attrs := v.attributes;
    calls := [];
    var currentSize := 0;
    var i := 0;
    while i < |attrs|
      invariant 0 <= i <= |attrs|
      invariant currentSize == Offset(attrs, i)
      invariant |calls| == 2 * i
      invariant forall j :: 0 <= j < i ==>
                  calls[2 * j] == VertexAttribPointer(j, attrs[j].count, attrs[j].attributeType,
                                                      attrs[j].normalized, v.stride, Offset(attrs, j))
      invariant forall j :: 0 <= j < i ==> calls[2 * j + 1] == EnableVertexAttribArray(j)
    {
      calls := calls + [VertexAttribPointer(i, attrs[i].count, attrs[i].attributeType, attrs[i].normalized, v.stride, currentSize)];
      assert attrs[..i + 1][..i] == attrs[..i];
      currentSize := currentSize + attrs[i].count * GetSizeOfType(attrs[i].attributeType).value;
      calls := calls + [EnableVertexAttribArray(i)];
      i := i + 1;
    }
  }

  /** Every offset `bind` passes lies within the stride of a consistent layout. */
  lemma BindOffsetsWithinStride(v: VertexBufferAttributes, i: nat)
    requires Consistent(v) && i <= |v.attributes|
    ensures Offset(v.attributes, i) <= v.stride
  {
    OffsetMonotone(v.attributes, i, |v.attributes|);
  }

  /** `unBind`: disables exactly the locations 0 to n-1, in order. */
  method UnBind(v: VertexBufferAttributes) returns (calls: seq<GlCall>)
    ensures |calls| == |v.attributes|
    ensures forall i :: 0 <= i < |calls| ==> calls[i] == DisableVertexAttribArray(i)
  {
    calls := [];
    var i := 0;
    while i < |v.attributes|
      invariant 0 <= i <= |v.attributes|
      invariant |calls| == i
      invariant forall j :: 0 <= j < i ==> calls[j] == DisableVertexAttribArray(j)
    {
      calls := calls + [DisableVertexAttribArray(i)];
      i := i + 1;
    }
  }

  /** The engine's vertex format (`Vertex::getAttributes`): a position of
      three floats and texture coordinates of two floats give a stride of 20
      bytes, with the coordinates at offset 12. */
  lemma VertexLayout()
    ensures var attrs := [Describe(Float32, 3), Describe(Float32, 2)];
            && ValidTypes(attrs)
            && TotalSize(attrs) == 20
            && Offset(attrs, 0) == 0
            && Offset(attrs, 1) == 12
  {
    var attrs := [Describe(Float32, 3), Describe(Float32, 2)];
    assert attrs[..1] == [Describe(Float32, 3)];
    assert attrs[..0] == [];
    assert attrs[..|attrs| - 1] == attrs[..1];
    assert attrs[..1][..0] == [];
    assert TotalSize(attrs[..1]) == 12;
  }
}
