/**
 * The bounding volume hierarchy (src/bvh.rs): a binary tree over scene objects,
 * built top-down by sorting on a randomly drawn axis and splitting at the
 * median, and queried by pruning on each node's box.
 */
module Bvh {
  import opened Wrappers
  import opened Vectors
  import opened Intervals
  import Aabb
  import opened Hittable

  /** A child: an object of the scene or a sub-tree. */
  datatype Node<O> = Leaf(obj: O) | Sub(tree: BVH<O>)

  /** A node: two children and the box enclosing them. */
  datatype BVH<O> = BVH(left: Node<O>, right: Node<O>, aabb: Aabb.AABB)

  /** The split axis `i`, drawn uniformly from `0..3` by the renderer's RNG. */
  datatype Axis = X | Y | Z

  /** The two results the comparators ever give. */
  datatype Ordering = Less | Greater

  // ---------------------------------------------------------------------------
  // Sorting.

  /** `box_x_compare` as written: it compares the boxes' `z.min`, so it is `box_z_compare`. */
  function BoxXCompare<O>(boxOf: O -> Aabb.AABB, a: O, b: O): (r: Ordering)
    ensures r == BoxZCompare(boxOf, a, b)
  {
    if boxOf(a).z.min < boxOf(b).z.min then Less else Greater
  }

  /** `box_y_compare` as written: it compares the boxes' `z.min`, so it is `box_z_compare`. */
  function BoxYCompare<O>(boxOf: O -> Aabb.AABB, a: O, b: O): (r: Ordering)
    ensures r == BoxZCompare(boxOf, a, b)
  {
    if boxOf(a).z.min < boxOf(b).z.min then Less else Greater
  }

  /** `box_z_compare`: it orders the boxes by `z.min`, as its name promises. */
  function BoxZCompare<O>(boxOf: O -> Aabb.AABB, a: O, b: O): (r: Ordering)
    ensures r == CompareOnAxis(Z, boxOf, a, b)
  {
    if boxOf(a).z.min < boxOf(b).z.min then Less else Greater
  }

  /** The comparator `build` passes to `sort_by`, as written: whatever the axis, it orders by `z.min`. */
  function CompareAsWritten<O>(axis: Axis, boxOf: O -> Aabb.AABB, a: O, b: O): (r: Ordering)
    ensures r == CompareOnAxis(Z, boxOf, a, b)
  {
    match axis
    case X => BoxXCompare(boxOf, a, b)
    case Y => BoxYCompare(boxOf, a, b)
    case Z => BoxZCompare(boxOf, a, b)
  }

  function AxisIndex(axis: Axis): nat {
    match axis
    case X => 0
    case Y => 1
    case Z => 2
  }

  /** The low end of an object's box on `axis`. */
  function AxisKey<O>(axis: Axis, boxOf: O -> Aabb.AABB, o: O): real {
    Aabb.Axis(boxOf(o), AxisIndex(axis)).min
  }

  /** The comparator the three `box_*_compare` names promise: each on its own axis. */
  function CompareOnAxis<O>(axis: Axis, boxOf: O -> Aabb.AABB, a: O, b: O): Ordering {
    if AxisKey(axis, boxOf, a) < AxisKey(axis, boxOf, b) then Less else Greater
  }

  /** `cmp` answers `Less` exactly when `key` is smaller. */
  ghost predicate KeyedBy<O(!new)>(cmp: (O, O) -> Ordering, key: O -> real) {
    forall a, b :: cmp(a, b) == Less <==> key(a) < key(b)
  }

  ghost predicate SortedBy<O>(s: seq<O>, key: O -> real) {
    forall i, j :: 0 <= i < j < |s| ==> key(s[i]) <= key(s[j])
  }

  /**
   * The library's `sort_by`, represented by an insertion sort with the same
   * contract: a permutation ordered by the comparator's key.
   */
  function Insert<O>(x: O, s: seq<O>, cmp: (O, O) -> Ordering): seq<O>
    decreases |s|
  {
    if s == [] then [x]
    else if cmp(x, s[0]) == Less then [x] + s
    else [s[0]] + Insert(x, s[1..], cmp)
  }

  function SortBy<O>(s: seq<O>, cmp: (O, O) -> Ordering): seq<O>
    decreases |s|
  {
    if s == [] then [] else Insert(s[0], SortBy(s[1..], cmp), cmp)
  }

  lemma {:induction false} InsertSorted<O(!new)>(x: O, s: seq<O>, cmp: (O, O) -> Ordering, key: O -> real)
    requires KeyedBy(cmp, key) && SortedBy(s, key)
    ensures multiset(Insert(x, s, cmp)) == multiset(s) + multiset{x}
    ensures SortedBy(Insert(x, s, cmp), key)
    decreases |s|
  {
    if s != [] && cmp(x, s[0]) != Less {
      var rest := Insert(x, s[1..], cmp);
      assert SortedBy(s[1..], key);
      InsertSorted(x, s[1..], cmp, key);
      assert s == [s[0]] + s[1..];
      forall j | 0 <= j < |rest|
        ensures key(s[0]) <= key(rest[j])
      {
        assert rest[j] in multiset(rest);
        if rest[j] != x {
          assert rest[j] in multiset(s[1..]);
          var k :| 0 <= k < |s[1..]| && s[1..][k] == rest[j];
          assert s[k + 1] == rest[j];
        }
      }
    }
  }

  lemma {:induction false} SortBySorted<O(!new)>(s: seq<O>, cmp: (O, O) -> Ordering, key: O -> real)
    requires KeyedBy(cmp, key)
    ensures multiset(SortBy(s, cmp)) == multiset(s)
    ensures SortedBy(SortBy(s, cmp), key)
    decreases |s|
  {
    if s != [] {
      var rest := SortBy(s[1..], cmp);
      SortBySorted(s[1..], cmp, key);
      InsertSorted(s[0], rest, cmp, key);
      assert SortBy(s, cmp) == Insert(s[0], rest, cmp);
      assert s == [s[0]] + s[1..];
      assert multiset(s) == multiset{s[0]} + multiset(s[1..]);
    }
  }

  /**
   * The sort in `build` as written: a permutation of the input ordered by the
   * boxes' `z.min`, whichever axis was drawn.
   */
  function SortAsWritten<O(!new)>(s: seq<O>, axis: Axis, boxOf: O -> Aabb.AABB): (r: seq<O>)
    ensures multiset(r) == multiset(s)
    ensures forall i, j :: 0 <= i < j < |r| ==> boxOf(r[i]).z.min <= boxOf(r[j]).z.min
  {
    var cmp := (a, b) => CompareAsWritten(axis, boxOf, a, b);
    SortBySorted(s, cmp, o => boxOf(o).z.min);
    SortBy(s, cmp)
  }

  /** The sort `build` evidently intends: a permutation ordered by the drawn axis. */
  function SortObjects<O(!new)>(s: seq<O>, axis: Axis, boxOf: O -> Aabb.AABB): (r: seq<O>)
    ensures multiset(r) == multiset(s)
    ensures forall i, j :: 0 <= i < j < |r| ==> AxisKey(axis, boxOf, r[i]) <= AxisKey(axis, boxOf, r[j])
  {
    var cmp := (a, b) => CompareOnAxis(axis, boxOf, a, b);
    SortBySorted(s, cmp, o => AxisKey(axis, boxOf, o));
    SortBy(s, cmp)
  }

  lemma {:induction false} InsertSameComparator<O>(x: O, s: seq<O>, cmp1: (O, O) -> Ordering, cmp2: (O, O) -> Ordering)
    requires forall a, b :: cmp1(a, b) == cmp2(a, b)
    ensures Insert(x, s, cmp1) == Insert(x, s, cmp2)
    decreases |s|
  {
    if s != [] {
      InsertSameComparator(x, s[1..], cmp1, cmp2);
    }
  }

  lemma {:induction false} SortBySameComparator<O>(s: seq<O>, cmp1: (O, O) -> Ordering, cmp2: (O, O) -> Ordering)
    requires forall a, b :: cmp1(a, b) == cmp2(a, b)
    ensures SortBy(s, cmp1) == SortBy(s, cmp2)
    decreases |s|
  {
    if s != [] {
      SortBySameComparator(s[1..], cmp1, cmp2);
      InsertSameComparator(s[0], SortBy(s[1..], cmp1), cmp1, cmp2);
    }
  }

  /** As written, the drawn axis makes no difference to the order `build` produces. */
  lemma AsWrittenSortIgnoresAxis<O(!new)>(s: seq<O>, a1: Axis, a2: Axis, boxOf: O -> Aabb.AABB)
    ensures SortAsWritten(s, a1, boxOf) == SortAsWritten(s, a2, boxOf)
  {
    SortBySameComparator(s, (a, b) => CompareAsWritten(a1, boxOf, a, b), (a, b) => CompareAsWritten(a2, boxOf, a, b));
  }

  /**
   * Two boxes whose x order is the reverse of their z order: drawing the x axis,
   * the as-written sort still orders them by z, so the result is not ordered by x.
   */
  lemma AsWrittenXSortIsNotByX()
    ensures var first := Aabb.AABB(Interval(0.0, 1.0), Interval(0.0, 1.0), Interval(5.0, 6.0));
      var second := Aabb.AABB(Interval(2.0, 3.0), Interval(0.0, 1.0), Interval(0.0, 1.0));
      var sorted := SortAsWritten([first, second], X, b => b);
      sorted == [second, first] && sorted[0].x.min > sorted[1].x.min
  {
    var first := Aabb.AABB(Interval(0.0, 1.0), Interval(0.0, 1.0), Interval(5.0, 6.0));
    var second := Aabb.AABB(Interval(2.0, 3.0), Interval(0.0, 1.0), Interval(0.0, 1.0));
    var cmp := (a, b) => CompareAsWritten(X, (b': Aabb.AABB) => b', a, b);
    assert [first, second][1..] == [second];
    assert SortBy([second], cmp) == [second];
    assert cmp(first, second) == Greater;
    assert Insert(first, [second], cmp) == [second] + Insert(first, [], cmp);
  }

  // ---------------------------------------------------------------------------
  // The tree's shape.

  function NodeBox<O>(n: Node<O>, boxOf: O -> Aabb.AABB): Aabb.AABB {
    match n
    case Leaf(o) => boxOf(o)
    case Sub(t) => t.aabb
  }

  /**
   * `bounding_box` of a BVH node: its stored box, which for a consistent tree
   * encloses the box of every object below it.
   */
  function BoundingBox<O>(t: BVH<O>, boxOf: O -> Aabb.AABB): (box: Aabb.AABB)
    ensures Consistent(t, boxOf) ==> forall o :: o in LeafSet(t) ==> Aabb.EnclosesBox(box, boxOf(o))
  {
    assert Consistent(t, boxOf) ==> forall o :: o in LeafSet(t) ==> Aabb.EnclosesBox(t.aabb, boxOf(o)) by {
      if Consistent(t, boxOf) {
        BoxEnclosesLeaves(t, boxOf);
      }
    }
    t.aabb
  }

  /** Every node's box is `to_contain` of its children's boxes. */
  ghost predicate Consistent<O>(t: BVH<O>, boxOf: O -> Aabb.AABB)
    decreases t
  {
    && t.aabb == Aabb.ToContain(NodeBox(t.left, boxOf), NodeBox(t.right, boxOf))
    && NodeConsistent(t.left, boxOf)
    && NodeConsistent(t.right, boxOf)
  }

  ghost predicate NodeConsistent<O>(n: Node<O>, boxOf: O -> Aabb.AABB)
    decreases n
  {
    match n
    case Leaf(_) => true
    case Sub(t) => Consistent(t, boxOf)
  }

  ghost function LeafSet<O>(t: BVH<O>): set<O>
    decreases t
  {
    NodeLeaves(t.left) + NodeLeaves(t.right)
  }

  ghost function NodeLeaves<O>(n: Node<O>): set<O>
    decreases n
  {
    match n
    case Leaf(o) => {o}
    case Sub(t) => LeafSet(t)
  }

  /**
   * The objects of the tree, counting a node whose two children are the same
   * child once (that is how `build` places a single object).
   */
  ghost function Members<O>(t: BVH<O>): multiset<O>
    decreases t
  {
    if t.left == t.right then NodeMembers(t.left) else NodeMembers(t.left) + NodeMembers(t.right)
  }

  ghost function NodeMembers<O>(n: Node<O>): multiset<O>
    decreases n
  {
    match n
    case Leaf(o) => multiset{o}
    case Sub(t) => Members(t)
  }

  /** No object occurs twice in the list. */
  ghost predicate Distinct<O>(s: seq<O>) {
    forall x | x in multiset(s) :: multiset(s)[x] == 1
  }

  /** A node's box encloses the box of every object under it. */
  lemma {:induction false} BoxEnclosesLeaves<O>(t: BVH<O>, boxOf: O -> Aabb.AABB)
    requires Consistent(t, boxOf)
    ensures forall o :: o in LeafSet(t) ==> Aabb.EnclosesBox(t.aabb, boxOf(o))
    decreases t
  {
    NodeBoxEnclosesLeaves(t.left, boxOf);
    NodeBoxEnclosesLeaves(t.right, boxOf);
    forall o | o in LeafSet(t)
      ensures Aabb.EnclosesBox(t.aabb, boxOf(o))
    {
      if o in NodeLeaves(t.left) {
        Aabb.EnclosesBoxTransitive(t.aabb, NodeBox(t.left, boxOf), boxOf(o));
      } else {
        Aabb.EnclosesBoxTransitive(t.aabb, NodeBox(t.right, boxOf), boxOf(o));
      }
    }
  }

  lemma {:induction false} NodeBoxEnclosesLeaves<O>(n: Node<O>, boxOf: O -> Aabb.AABB)
    requires NodeConsistent(n, boxOf)
    ensures forall o :: o in NodeLeaves(n) ==> Aabb.EnclosesBox(NodeBox(n, boxOf), boxOf(o))
    decreases n
  {
    match n
    case Leaf(_) =>
    case Sub(t) => BoxEnclosesLeaves(t, boxOf);
  }

  // ---------------------------------------------------------------------------
  // Construction.

  /**
   * The loop of `build` that hands the first `mid` sorted objects to the left list
   * and the rest to the right list, keeping their order.
   */
  method Split<O>(sortedObjects: seq<O>, mid: nat) returns (leftList: seq<O>, rightList: seq<O>)
    ensures leftList + rightList == sortedObjects
    ensures |leftList| == if mid <= |sortedObjects| then mid else |sortedObjects|
  {
    leftList, rightList := [], [];
    for i := 0 to |sortedObjects|
      invariant i <= mid ==> leftList == sortedObjects[..i] && rightList == []
      invariant i > mid ==> leftList == sortedObjects[..mid] && rightList == sortedObjects[mid..i]
    {
      if i < mid {
        leftList := leftList + [sortedObjects[i]];
      } else {
        rightList := rightList + [sortedObjects[i]];
      }
    }
    if |sortedObjects| <= mid {
      assert sortedObjects[..|sortedObjects|] == sortedObjects;
    }
  }

  lemma DistinctParts<O>(s: seq<O>, a: seq<O>, b: seq<O>)
    requires Distinct(s) && a + b == s
    ensures Distinct(a) && Distinct(b)
    ensures Elements(a) !! Elements(b)
  {
    assert multiset(s) == multiset(a) + multiset(b);
    forall x | x in multiset(a)
      ensures multiset(a)[x] == 1
    {
      assert multiset(s)[x] == multiset(a)[x] + multiset(b)[x];
    }
    forall x | x in multiset(b)
      ensures multiset(b)[x] == 1
    {
      assert multiset(s)[x] == multiset(a)[x] + multiset(b)[x];
    }
    forall x | x in Elements(a)
      ensures x !in Elements(b)
    {
      assert x in multiset(a);
      assert multiset(s)[x] == multiset(a)[x] + multiset(b)[x];
    }
  }

  lemma DistinctPermutation<O>(s: seq<O>, p: seq<O>)
    requires Distinct(s) && multiset(p) == multiset(s)
    ensures Distinct(p) && Elements(p) == Elements(s)
  {
    forall x
      ensures x in Elements(p) <==> x in Elements(s)
    {
      assert x in p <==> x in multiset(p);
      assert x in s <==> x in multiset(s);
    }
  }

  lemma SameElements<O>(s: seq<O>, p: seq<O>)
    requires multiset(p) == multiset(s)
    ensures Elements(p) == Elements(s)
  {
    forall x
      ensures x in Elements(p) <==> x in Elements(s)
    {
      assert x in p <==> x in multiset(p);
      assert x in s <==> x in multiset(s);
    }
  }

  /** The node `build` makes over a single object: both children are its leaf. */
  lemma JoinOne<O>(hitList: seq<O>, sortedObjects: seq<O>, boxOf: O -> Aabb.AABB)
    requires |sortedObjects| == 1 && multiset(sortedObjects) == multiset(hitList)
    requires Elements(sortedObjects) == Elements(hitList)
    ensures var o := sortedObjects[0];
      && Consistent(BVH(Leaf(o), Leaf(o), boxOf(o)), boxOf)
      && LeafSet(BVH(Leaf(o), Leaf(o), boxOf(o))) == Elements(hitList)
      && Members(BVH(Leaf(o), Leaf(o), boxOf(o))) == multiset(hitList)
      && BuildShape(hitList, BVH(Leaf(o), Leaf(o), boxOf(o)), boxOf)
  {
    Aabb.ToContainIdempotent(boxOf(sortedObjects[0]));
    assert |hitList| == |multiset(hitList)| == 1;
    assert sortedObjects == [sortedObjects[0]];
    assert hitList == [hitList[0]];
    assert sortedObjects[0] in multiset(hitList);
  }

  /**
   * The node `build` makes over a sorted pair: two leaves, which are distinct
   * when the list has no repeats.
   */
  lemma JoinPair<O>(hitList: seq<O>, sortedObjects: seq<O>, boxOf: O -> Aabb.AABB)
    requires |sortedObjects| == 2 && multiset(sortedObjects) == multiset(hitList)
    requires Elements(sortedObjects) == Elements(hitList)
    requires boxOf(sortedObjects[0]).z.min <= boxOf(sortedObjects[1]).z.min
    ensures var t := BVH(Leaf(sortedObjects[0]), Leaf(sortedObjects[1]),
                         Aabb.ToContain(boxOf(sortedObjects[0]), boxOf(sortedObjects[1])));
      && Consistent(t, boxOf)
      && LeafSet(t) == Elements(hitList)
      && (Distinct(hitList) ==> Members(t) == multiset(hitList))
      && BuildShape(hitList, t, boxOf)
  {
    assert |hitList| == |multiset(hitList)| == 2;
    assert sortedObjects == [sortedObjects[0], sortedObjects[1]];
    if Distinct(hitList) {
      DistinctPermutation(hitList, sortedObjects);
      assert multiset(sortedObjects)[sortedObjects[0]] == 1;
    }
  }

  /** The node `build` makes over two sub-trees built from the two halves. */
  lemma JoinHalves<O>(hitList: seq<O>, sortedObjects: seq<O>, leftList: seq<O>, rightList: seq<O>,
                      left: BVH<O>, right: BVH<O>, boxOf: O -> Aabb.AABB)
    requires multiset(sortedObjects) == multiset(hitList) && Elements(sortedObjects) == Elements(hitList)
    requires leftList + rightList == sortedObjects && |leftList| >= 1
    requires Consistent(left, boxOf) && Consistent(right, boxOf)
    requires LeafSet(left) == Elements(leftList) && LeafSet(right) == Elements(rightList)
    requires Distinct(leftList) ==> Members(left) == multiset(leftList)
    requires Distinct(rightList) ==> Members(right) == multiset(rightList)
    requires |hitList| >= 3
    requires forall i, j :: 0 <= i < j < |sortedObjects| ==> boxOf(sortedObjects[i]).z.min <= boxOf(sortedObjects[j]).z.min
    ensures Consistent(BVH(Sub(left), Sub(right), Aabb.ToContain(left.aabb, right.aabb)), boxOf)
    ensures LeafSet(BVH(Sub(left), Sub(right), Aabb.ToContain(left.aabb, right.aabb))) == Elements(hitList)
    ensures Distinct(hitList) ==> Members(BVH(Sub(left), Sub(right), Aabb.ToContain(left.aabb, right.aabb))) == multiset(hitList)
    ensures BuildShape(hitList, BVH(Sub(left), Sub(right), Aabb.ToContain(left.aabb, right.aabb)), boxOf)
  {
    HalvesOrdered(sortedObjects, leftList, rightList, boxOf);
    var tree := BVH(Sub(left), Sub(right), Aabb.ToContain(left.aabb, right.aabb));
    assert Elements(sortedObjects) == Elements(leftList) + Elements(rightList);
    if Distinct(hitList) {
      DistinctPermutation(hitList, sortedObjects);
      DistinctParts(sortedObjects, leftList, rightList);
      assert leftList[0] in LeafSet(left);
      assert leftList[0] !in LeafSet(right);
      assert Sub(left) != Sub(right);
      assert multiset(sortedObjects) == multiset(leftList) + multiset(rightList);
    }
  }

  /**
   * The node shape `build` makes: for one object, both children are that
   * object's leaf; for two, two leaves ordered by `z.min`; from three up, two
   * sub-trees, every object of the left one at or below every object of the
   * right one in `z.min`.
   */
  ghost predicate BuildShape<O>(hitList: seq<O>, tree: BVH<O>, boxOf: O -> Aabb.AABB) {
    && (|hitList| == 1 ==> tree.left == Leaf(hitList[0]) && tree.right == Leaf(hitList[0]))
    && (|hitList| == 2 ==> tree.left.Leaf? && tree.right.Leaf?
                           && boxOf(tree.left.obj).z.min <= boxOf(tree.right.obj).z.min)
    && (|hitList| >= 3 ==> tree.left.Sub? && tree.right.Sub? && ZOrdered(LeafSet(tree.left.tree), LeafSet(tree.right.tree), boxOf))
  }

  /** Every object of `lo` is at or below every object of `hi` in `z.min`. */
  ghost predicate ZOrdered<O>(lo: set<O>, hi: set<O>, boxOf: O -> Aabb.AABB) {
    forall x, y :: x in lo && y in hi ==> boxOf(x).z.min <= boxOf(y).z.min
  }

  /**
   * `build`: draws an axis, sorts as written (by `z.min`, whatever the axis), and makes a node — both children the same leaf
   * for one object, two leaves for two, and two sub-trees over the halves
   * `[..span/2]` and `[span/2..]` otherwise. Each node's box is the union of its
   * children's boxes, the tree's leaves are exactly the input objects, and for a
   * list without repeats each object appears once. `draws(next)` is the draw of
   * this call; the draws of the sub-builds follow, and `after` is the next unused.
   * `build` needs a non-empty list: on an empty one it recurses on empty lists
   * without end.
   */
  method Build<O(!new)>(hitList: seq<O>, boxOf: O -> Aabb.AABB, draws: nat -> Axis, next: nat)
    returns (tree: BVH<O>, after: nat)
    requires |hitList| >= 1
    ensures after > next
    ensures Consistent(tree, boxOf)
    ensures LeafSet(tree) == Elements(hitList)
    ensures Distinct(hitList) ==> Members(tree) == multiset(hitList)
    ensures BuildShape(hitList, tree, boxOf)
    decreases |hitList|
  {
    var axis := draws(next);
    var span := |hitList|;
    var sortedObjects := SortAsWritten(hitList, axis, boxOf);
    SameElements(hitList, sortedObjects);
    assert |sortedObjects| == |multiset(sortedObjects)| == |multiset(hitList)| == span;
    if span == 1 {
      var left := sortedObjects[0];
      tree := BVH(Leaf(left), Leaf(left), boxOf(left));
      after := next + 1;
      JoinOne(hitList, sortedObjects, boxOf);
    } else if span == 2 {
      var left := sortedObjects[0];
      var right := sortedObjects[1];
      tree := BVH(Leaf(left), Leaf(right), Aabb.ToContain(boxOf(left), boxOf(right)));
      after := next + 1;
      JoinPair(hitList, sortedObjects, boxOf);
    } else {
      var mid := SplitSizes(span).0;
      var leftList, rightList := Split(sortedObjects, mid);
      var left, afterLeft := Build(leftList, boxOf, draws, next + 1);
      var right, afterRight := Build(rightList, boxOf, draws, afterLeft);
      tree := BVH(Sub(left), Sub(right), Aabb.ToContain(BoundingBox(left, boxOf), BoundingBox(right, boxOf)));
      after := afterRight;
      JoinHalves(hitList, sortedObjects, leftList, rightList, left, right, boxOf);
    }
  }

  /** Cut in two, a list sorted by `z.min` has every object of the first part at or below every object of the second. */
  lemma HalvesOrdered<O>(s: seq<O>, a: seq<O>, b: seq<O>, boxOf: O -> Aabb.AABB)
    requires a + b == s
    requires forall i, j :: 0 <= i < j < |s| ==> boxOf(s[i]).z.min <= boxOf(s[j]).z.min
    ensures ZOrdered(Elements(a), Elements(b), boxOf)
  {
    forall x, y | x in Elements(a) && y in Elements(b)
      ensures boxOf(x).z.min <= boxOf(y).z.min
    {
      var i :| 0 <= i < |a| && a[i] == x;
      var j :| 0 <= j < |b| && b[j] == y;
      assert s[i] == x && s[|a| + j] == y;
    }
  }

  /**
   * The lengths `build` passes to its two recursive calls when `span` is neither
   * 1 nor 2, as written: `span / 2` and the rest.
   */
  function SplitSizes(span: nat): (nat, nat) {
    (span / 2, span - span / 2)
  }

  /**
   * From three objects up both halves are non-empty and shorter than the list, so
   * `build` terminates; on an empty list both halves are as long as the list, so
   * it recurses without end.
   */
  lemma SplitSizesProgress(span: nat)
    ensures span >= 3 ==> 1 <= SplitSizes(span).0 < span && 1 <= SplitSizes(span).1 < span
    ensures span == 0 ==> SplitSizes(span) == (span, span)
  {
  }

  /**
   * `BVH::new`, failing fast on an empty list instead of recursing without end;
   * otherwise it is `build`.
   */
  method New<O(!new)>(hitList: seq<O>, boxOf: O -> Aabb.AABB, draws: nat -> Axis, next: nat)
    returns (bvh: Option<BVH<O>>, after: nat)
    ensures bvh.None? <==> hitList == []
    ensures bvh.Some? ==> Consistent(bvh.value, boxOf) && LeafSet(bvh.value) == Elements(hitList)
  {
    if hitList == [] {
      return None, next;
    }
    var tree;
    tree, after := Build(hitList, boxOf, draws, next);
    bvh := Some(tree);
  }

  // ---------------------------------------------------------------------------
  // The query.

  /**
   * `hit`: `None` when the node's box rejects the ray; otherwise both children are
   * asked about the same `rayT`, and the hit with the smaller `t` wins (the left
   * one on a tie). Whatever it returns is some leaf's own hit, and only when the
   * node's box passed the slab test.
   */
  function Hit<O>(t: BVH<O>, hitFn: (O, Ray, Interval) -> Option<HitRecord>, r: Ray, rayT: Interval): (res: Option<HitRecord>)
    ensures res.Some? ==> Aabb.SlabHit(t.aabb, r, rayT)
    ensures Aabb.SlabHit(t.aabb, r, rayT) ==>
      (res.Some? <==> NodeHit(t.left, hitFn, r, rayT).Some? || NodeHit(t.right, hitFn, r, rayT).Some?)
    ensures res.Some? ==> res == NodeHit(t.left, hitFn, r, rayT) || res == NodeHit(t.right, hitFn, r, rayT)
    ensures res.Some? && NodeHit(t.left, hitFn, r, rayT).Some? ==> res.value.t <= NodeHit(t.left, hitFn, r, rayT).value.t
    ensures res.Some? && NodeHit(t.right, hitFn, r, rayT).Some? ==> res.value.t <= NodeHit(t.right, hitFn, r, rayT).value.t
    ensures var (lh, rh) := (NodeHit(t.left, hitFn, r, rayT), NodeHit(t.right, hitFn, r, rayT));
      res.Some? && lh.Some? && rh.Some? && lh.value.t == rh.value.t ==> res == lh
    ensures res.Some? ==> exists o :: o in LeafSet(t) && hitFn(o, r, rayT) == res
    decreases t
  {
    if !Aabb.SlabHit(t.aabb, r, rayT) then None
    else
      var leftHit := NodeHit(t.left, hitFn, r, rayT);
      var rightHit := NodeHit(t.right, hitFn, r, rayT);
      if rightHit.Some? && leftHit.Some? then
        if leftHit.value.t <= rightHit.value.t then leftHit else rightHit
      else if leftHit.Some? then leftHit else rightHit
  }

  function NodeHit<O>(n: Node<O>, hitFn: (O, Ray, Interval) -> Option<HitRecord>, r: Ray, rayT: Interval): (res: Option<HitRecord>)
    ensures res.Some? ==> exists o :: o in NodeLeaves(n) && hitFn(o, r, rayT) == res
    decreases n
  {
    match n
    case Leaf(o) => hitFn(o, r, rayT)
    case Sub(t) => Hit(t, hitFn, r, rayT)
  }

  /**
   * The node `build` makes for a single object (the object on both sides): it
   * answers exactly as the object does when the slab test passes, and misses
   * when it fails.
   */
  lemma SingleLeafHit<O>(o: O, box: Aabb.AABB, hitFn: (O, Ray, Interval) -> Option<HitRecord>, r: Ray, rayT: Interval)
    ensures Aabb.SlabHit(box, r, rayT) ==> Hit(BVH(Leaf(o), Leaf(o), box), hitFn, r, rayT) == hitFn(o, r, rayT)
    ensures !Aabb.SlabHit(box, r, rayT) ==> Hit(BVH(Leaf(o), Leaf(o), box), hitFn, r, rayT).None?
  {
  }

  /**
   * Box-hit soundness of a set of objects: each hit an object reports for `rayT`
   * lies in `rayT`, at a point strictly inside the object's box.
   */
  ghost predicate HitsInsideBoxes<O>(objs: set<O>, boxOf: O -> Aabb.AABB, hitFn: (O, Ray, Interval) -> Option<HitRecord>, r: Ray, rayT: Interval) {
    forall o :: o in objs && hitFn(o, r, rayT).Some? ==>
      Contains(rayT, hitFn(o, r, rayT).value.t)
      && Aabb.StrictlyInside(boxOf(o), At(r, hitFn(o, r, rayT).value.t))
  }

  lemma StrictlyInsideEnclosing(outer: Aabb.AABB, inner: Aabb.AABB, p: Vec3)
    requires Aabb.EnclosesBox(outer, inner) && Aabb.StrictlyInside(inner, p)
    ensures Aabb.StrictlyInside(outer, p)
  {
  }

  /**
   * The headline property: over a tree whose boxes are unions of their children's
   * and whose objects' hits lie inside their boxes, `hit` is the closest-hit
   * search over all leaves — it prunes no leaf that is hit, returns `None` exactly
   * when no leaf is hit, and otherwise a leaf's hit with the least `t`.
   */
  lemma {:induction false} HitFindsClosest<O>(t: BVH<O>, boxOf: O -> Aabb.AABB, hitFn: (O, Ray, Interval) -> Option<HitRecord>, r: Ray, rayT: Interval)
    requires Consistent(t, boxOf)
    requires rayT.min < rayT.max
    requires HitsInsideBoxes(LeafSet(t), boxOf, hitFn, r, rayT)
    ensures Hit(t, hitFn, r, rayT).None? <==> NoHit(LeafSet(t), hitFn, r, rayT)
    ensures Hit(t, hitFn, r, rayT).Some? ==> IsClosestHit(LeafSet(t), hitFn, r, rayT, Hit(t, hitFn, r, rayT).value)
    decreases t
  {
    NodeHitFindsClosest(t.left, boxOf, hitFn, r, rayT);
    NodeHitFindsClosest(t.right, boxOf, hitFn, r, rayT);
    if !NoHit(LeafSet(t), hitFn, r, rayT) {
      var o :| o in LeafSet(t) && hitFn(o, r, rayT).Some?;
      var hitT := hitFn(o, r, rayT).value.t;
      BoxEnclosesLeaves(t, boxOf);
      StrictlyInsideEnclosing(t.aabb, boxOf(o), At(r, hitT));
      Aabb.SlabHitSound(t.aabb, r, rayT, hitT);
    }
  }

  lemma {:induction false} NodeHitFindsClosest<O>(n: Node<O>, boxOf: O -> Aabb.AABB, hitFn: (O, Ray, Interval) -> Option<HitRecord>, r: Ray, rayT: Interval)
    requires NodeConsistent(n, boxOf)
    requires rayT.min < rayT.max
    requires HitsInsideBoxes(NodeLeaves(n), boxOf, hitFn, r, rayT)
    ensures NodeHit(n, hitFn, r, rayT).None? <==> NoHit(NodeLeaves(n), hitFn, r, rayT)
    ensures NodeHit(n, hitFn, r, rayT).Some? ==> IsClosestHit(NodeLeaves(n), hitFn, r, rayT, NodeHit(n, hitFn, r, rayT).value)
    decreases n
  {
    match n
    case Leaf(o) =>
    case Sub(t) => HitFindsClosest(t, boxOf, hitFn, r, rayT);
  }

  /**
   * The BVH and the list agree: over the same objects, for narrowing-consistent
   * objects whose hits lie inside their boxes, the tree query and the list's
   * closest-so-far loop both miss or both hit at the same `t`.
   */
  lemma BvhAgreesWithList<O(!new)>(t: BVH<O>, objects: seq<O>, boxOf: O -> Aabb.AABB, hitFn: (O, Ray, Interval) -> Option<HitRecord>, r: Ray, rayT: Interval)
    requires Consistent(t, boxOf) && LeafSet(t) == Elements(objects)
    requires rayT.min < rayT.max
    requires HitsInsideBoxes(Elements(objects), boxOf, hitFn, r, rayT)
    requires RespectsInterval(hitFn, r) && NarrowingConsistent(hitFn, r, rayT)
    ensures Hit(t, hitFn, r, rayT).None? <==> Scan(objects, hitFn, r, rayT).0.None?
    ensures Hit(t, hitFn, r, rayT).Some? ==> Hit(t, hitFn, r, rayT).value.t == Scan(objects, hitFn, r, rayT).0.value.t
  {
    HitFindsClosest(t, boxOf, hitFn, r, rayT);
    ScanFindsClosest(objects, hitFn, r, rayT);
    var h := Hit(t, hitFn, r, rayT);
    var s := Scan(objects, hitFn, r, rayT).0;
    if h.Some? && s.Some? {
      var o1 :| o1 in Elements(objects) && hitFn(o1, r, rayT) == Some(h.value);
      var o2 :| o2 in Elements(objects) && hitFn(o2, r, rayT) == Some(s.value);
      assert h.value.t <= s.value.t;
      assert s.value.t <= h.value.t;
    }
  }
}
