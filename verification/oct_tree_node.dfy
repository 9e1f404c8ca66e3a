/** The sparse octree node of `include/OctTreeNode.hpp`: a leaf holding one
    value, or a branch owning eight child slots, each possibly empty. The
    branch's octant selection is a parameter: the call in the source passes a
    side length to `convertToNormalizedIndex`, but the one defined in
    `include/OctTreeHelpers.hpp` takes only a position, so any selector into
    0..7 may stand in, and `SignSelector` is the one built from that
    one-argument helper. `origin` is a
    float vector in the source; no operation reads it, and it is carried here
    as an integer triple. */
module OctTreeNode {
  import opened Wrappers
  import opened Global
  import opened OctTreeHelpers

  type Octant = i: nat | i < 8

  /** Chooses the child slot for an index, given the branch's side length. */
  type Selector = (IVec3, nat) -> Octant

  datatype Node<T> =
    | Leaf(data: T, depth: uint32, origin: IVec3)
    | Branch(children: seq<Option<Node<T>>>, depth: uint32, origin: IVec3)

  /** The selector built from the one-argument `convertToNormalizedIndex`
      of `include/OctTreeHelpers.hpp`: sign tests then packing. It ignores
      the side length the call site passes. */
  function SignSelector(index: IVec3, sideLength: nat): Octant {
    ConvertToScalarIndex(ConvertToNormalizedIndex(index))
  }

  /** `1 << (MAX_OCT_TREE_DEPTH - depth)`. The subtraction is unsigned, so
      the shift is only meaningful for depths up to the maximum. */
  function SideLength(depth: nat): (r: nat)
    requires depth <= MAX_OCT_TREE_DEPTH
  {
    Pow2(MAX_OCT_TREE_DEPTH - depth)
  }

  /** The root's side is the chunk length and each level halves it, down to
      a side of one at the maximum depth. */
  lemma SideLengthHalves(d: nat)
    requires d < MAX_OCT_TREE_DEPTH
    ensures SideLength(0) == CHUNK_LENGTH == 256
    ensures SideLength(d) == 2 * SideLength(d + 1)
    ensures SideLength(MAX_OCT_TREE_DEPTH) == 1
  {
    ChunkLengthValue();
  }

  /** Every branch in the tree has its eight slots and a depth at which the
      side-length shift is defined. */
  predicate WellFormed<T>(n: Node<T>)
    decreases n, 1, 0
  {
    match n
    case Leaf(_, _, _) => true
    case Branch(cs, d, _) => |cs| == 8 && d <= MAX_OCT_TREE_DEPTH && ChildrenWellFormed(n, 0)
  }

  predicate ChildrenWellFormed<T>(n: Node<T>, k: nat)
    requires n.Branch? && k <= |n.children|
    decreases n, 0, |n.children| - k
  {
    k == |n.children| ||
    ((n.children[k].Some? ==> WellFormed(n.children[k].value)) && ChildrenWellFormed(n, k + 1))
  }

  lemma {:induction false} ChildWellFormed<T>(n: Node<T>, k: nat, j: nat)
    requires n.Branch? && k <= j < |n.children|
    requires ChildrenWellFormed(n, k)
    requires n.children[j].Some?
    ensures WellFormed(n.children[j].value)
    decreases j - k
  {
    if k < j {
      ChildWellFormed(n, k + 1, j);
    }
  }

  lemma {:induction false} ReplaceChildWellFormed<T>(n: Node<T>, k: nat, j: nat, c: Node<T>)
    requires n.Branch? && k <= |n.children| && j < |n.children|
    requires ChildrenWellFormed(n, k)
    requires WellFormed(c)
    ensures ChildrenWellFormed(n.(children := n.children[j := Some(c)]), k)
    decreases |n.children| - k
  {
    if k < |n.children| {
      ReplaceChildWellFormed(n, k + 1, j, c);
    }
  }

  /** `insert`. On a leaf the parameter `data` shadows the member, so the
      assignment moves the parameter into itself and the leaf is unchanged.
      On a branch the selector picks one slot; the call recurses into that
      slot if it holds a child and does nothing if it is empty. */
  function Insert<T>(n: Node<T>, data: T, index: IVec3, select: Selector): (r: Node<T>)
    requires WellFormed(n)
    ensures WellFormed(r)
    ensures r.depth == n.depth && r.origin == n.origin && r.Leaf? == n.Leaf?
    ensures n.Leaf? ==> r == n
    ensures n.Branch? ==> |r.children| == 8
    ensures n.Branch? ==> forall j :: 0 <= j < 8 && j != select(index, SideLength(n.depth)) ==>
              r.children[j] == n.children[j]
    ensures n.Branch? ==> forall j :: 0 <= j < 8 ==> (r.children[j].Some? <==> n.children[j].Some?)
    decreases n
  {
    match n
    case Leaf(_, _, _) => n
    case Branch(cs, d, o) =>
      var slot := select(index, SideLength(d));
      match cs[slot]
      case Some(child) =>
        ChildWellFormed(n, 0, slot);
        var c := Insert(child, data, index, select);
        ReplaceChildWellFormed(n, 0, slot, c);
        Branch(cs[slot := Some(c)], d, o)
      case None => n
  }

  /** Since the leaf never takes the new value, an insertion changes neither
      the shape of the tree nor any value in it. */
  lemma {:induction false} InsertChangesNothing<T>(n: Node<T>, data: T, index: IVec3, select: Selector)
    requires WellFormed(n)
    ensures Insert(n, data, index, select) == n
    decreases n
  {
    match n
    case Leaf(_, _, _) =>
    case Branch(cs, d, o) =>
      var slot := select(index, SideLength(d));
      if cs[slot].Some? {
        ChildWellFormed(n, 0, slot);
        InsertChangesNothing(cs[slot].value, data, index, select);
        assert cs[slot := Some(cs[slot].value)] == cs;
      }
  }

  /** `forEach`: the values the callback receives, in order. A leaf gives its
      value; a branch gives its children's sequences in slot order, skipping
      empty slots. */
  function ForEach<T>(n: Node<T>): seq<T>
    decreases n, 1, 0
  {
    match n
    case Leaf(v, _, _) => [v]
    case Branch(_, _, _) => ForEachFrom(n, 0)
  }

  function ForEachFrom<T>(n: Node<T>, k: nat): seq<T>
    requires n.Branch? && k <= |n.children|
    decreases n, 0, |n.children| - k
  {
    if k == |n.children| then []
    else (match n.children[k] case None => [] case Some(c) => ForEach(c)) + ForEachFrom(n, k + 1)
  }

  /** `enumerate`: like `forEach`, with each value paired with the depth of
      the leaf holding it. */
  function Enumerate<T>(n: Node<T>): seq<(T, nat)>
    decreases n, 1, 0
  {
    match n
    case Leaf(v, d, _) => [(v, d)]
    case Branch(_, _, _) => EnumerateFrom(n, 0)
  }

  function EnumerateFrom<T>(n: Node<T>, k: nat): seq<(T, nat)>
    requires n.Branch? && k <= |n.children|
    decreases n, 0, |n.children| - k
  {
    if k == |n.children| then []
    else (match n.children[k] case None => [] case Some(c) => Enumerate(c)) + EnumerateFrom(n, k + 1)
  }

  /** The leaves reachable from a node, in slot order: the reference both
      traversals are measured against. */
  function Leaves<T>(n: Node<T>): (r: seq<Node<T>>)
    ensures forall i :: 0 <= i < |r| ==> r[i].Leaf?
    decreases n, 1, 0
  {
    match n
    case Leaf(_, _, _) => [n]
    case Branch(_, _, _) => LeavesFrom(n, 0)
  }

  function LeavesFrom<T>(n: Node<T>, k: nat): (r: seq<Node<T>>)
    requires n.Branch? && k <= |n.children|
    ensures forall i :: 0 <= i < |r| ==> r[i].Leaf?
    decreases n, 0, |n.children| - k
  {
    if k == |n.children| then []
    else (match n.children[k] case None => [] case Some(c) => Leaves(c)) + LeavesFrom(n, k + 1)
  }

  /** The values held by a sequence of leaves. */
  function Values<T>(s: seq<Node<T>>): (r: seq<T>)
    requires forall i :: 0 <= i < |s| ==> s[i].Leaf?
    ensures |r| == |s|
  {
    if |s| == 0 then [] else [s[0].data] + Values(s[1..])
  }

  /** The values held by a sequence of leaves, each with that leaf's depth. */
  function ValuesWithDepth<T>(s: seq<Node<T>>): (r: seq<(T, nat)>)
    requires forall i :: 0 <= i < |s| ==> s[i].Leaf?
    ensures |r| == |s|
  {
    if |s| == 0 then [] else [(s[0].data, s[0].depth as nat)] + ValuesWithDepth(s[1..])
  }

  lemma {:induction false} ValuesAppend<T>(a: seq<Node<T>>, b: seq<Node<T>>)
    requires forall i :: 0 <= i < |a| ==> a[i].Leaf?
    requires forall i :: 0 <= i < |b| ==> b[i].Leaf?
    ensures Values(a + b) == Values(a) + Values(b)
    ensures ValuesWithDepth(a + b) == ValuesWithDepth(a) + ValuesWithDepth(b)
    decreases |a|
  {
    if |a| == 0 {
      assert a + b == b;
    } else {
      assert (a + b)[1..] == a[1..] + b;
      ValuesAppend(a[1..], b);
    }
  }

  /** `forEach` visits every reachable leaf once, in slot order, and nothing
      else; `enumerate` visits the same leaves in the same order and pairs
      each value with its own leaf's depth. */
  lemma {:induction false} TraversalsVisitLeaves<T>(n: Node<T>)
    ensures ForEach(n) == Values(Leaves(n))
    ensures Enumerate(n) == ValuesWithDepth(Leaves(n))
    ensures |ForEach(n)| == |Enumerate(n)| == |Leaves(n)|
    decreases n, 1, 0
  {
    match n
    case Leaf(_, _, _) =>
    case Branch(_, _, _) => TraversalsVisitLeavesFrom(n, 0);
  }

  lemma {:induction false} TraversalsVisitLeavesFrom<T>(n: Node<T>, k: nat)
    requires n.Branch? && k <= |n.children|
    ensures ForEachFrom(n, k) == Values(LeavesFrom(n, k))
    ensures EnumerateFrom(n, k) == ValuesWithDepth(LeavesFrom(n, k))
    decreases n, 0, |n.children| - k
  {
    if k < |n.children| {
      TraversalsVisitLeavesFrom(n, k + 1);
      match n.children[k]
      case None =>
        assert LeavesFrom(n, k) == LeavesFrom(n, k + 1) by {
          assert [] + LeavesFrom(n, k + 1) == LeavesFrom(n, k + 1);
        }
        assert ForEachFrom(n, k) == ForEachFrom(n, k + 1) by {
          assert [] + ForEachFrom(n, k + 1) == ForEachFrom(n, k + 1);
        }
        assert EnumerateFrom(n, k) == EnumerateFrom(n, k + 1) by {
          assert [] + EnumerateFrom(n, k + 1) == EnumerateFrom(n, k + 1);
        }
      case Some(c) =>
        TraversalsVisitLeaves(c);
        ValuesAppend(Leaves(c), LeavesFrom(n, k + 1));
    }
  }

  /** An insertion leaves both traversals as they were. */
  lemma InsertKeepsTraversals<T>(n: Node<T>, data: T, index: IVec3, select: Selector)
    requires WellFormed(n)
    ensures ForEach(Insert(n, data, index, select)) == ForEach(n)
    ensures Enumerate(Insert(n, data, index, select)) == Enumerate(n)
  {
    InsertChangesNothing(n, data, index, select);
  }

  /** A root branch holding the value `x` in the octant of (1, 1, 1) keeps
      `x` when `a` is inserted there with `SignSelector`: the insertion
      reaches the leaf, and the leaf keeps its value. */
  lemma RootInsertExample<T>(x: T, a: T)
    ensures var leaf := Leaf(x, 1, IVec3(0, 0, 0));
            var root := Branch([None, None, None, None, None, Some(leaf), None, None], 0, IVec3(0, 0, 0));
            && SignSelector(IVec3(1, 1, 1), SideLength(0)) == 5
            && WellFormed(root)
            && ForEach(Insert(root, a, IVec3(1, 1, 1), SignSelector)) == [x]
  {
    var leaf := Leaf(x, 1, IVec3(0, 0, 0));
    var root := Branch([None, None, None, None, None, Some(leaf), None, None], 0, IVec3(0, 0, 0));
    AxisTests(IVec3(1, 1, 1));
    assert ChildrenWellFormed(root, 8);
    assert ChildrenWellFormed(root, 7);
    assert ChildrenWellFormed(root, 6);
    assert ChildrenWellFormed(root, 5);
    assert ChildrenWellFormed(root, 4);
    assert ChildrenWellFormed(root, 3);
    assert ChildrenWellFormed(root, 2);
    assert ChildrenWellFormed(root, 1);
    assert ChildrenWellFormed(root, 0);
    InsertChangesNothing(root, a, IVec3(1, 1, 1), SignSelector);
    assert ForEachFrom(root, 8) == [];
    assert ForEachFrom(root, 7) == [];
    assert ForEachFrom(root, 6) == [];
    assert ForEachFrom(root, 5) == [x];
    assert ForEachFrom(root, 4) == [x];
    assert ForEachFrom(root, 3) == [x];
    assert ForEachFrom(root, 2) == [x];
    assert ForEachFrom(root, 1) == [x];
    assert ForEachFrom(root, 0) == [x];
  }
}
