/** The nodes of the left-leaning red-black tree that backs a sorted set, and the
    abstract views (stored elements, in-order sequence, ordering, black height and
    colour shape) in which the tree operations are specified. */
module Nodes {

  /** A subtree. `Nil` is the nil child pointer; a `Node` holds the stored element,
      its colour (`red`, a nil link counts as black) and its two children. Every node
      is owned by exactly one parent, so a subtree is a value. */
  datatype Tree = Nil | Node(element: int, red: bool, left: Tree, right: Tree)

  /** isRed: true only for a non-nil red node, so a nil link counts as black; a
      red link adds nothing to the black height. */
  predicate IsRed(t: Tree)
    ensures IsRed(t) ==> t.Node? && Bh(t) == Bh(t.left)
  {
    t.Node? && t.red
  }

  /** The set of elements stored in a subtree. */
  ghost function Elements(t: Tree): set<int>
  {
    match t
    case Nil => {}
    case Node(e, _, l, r) => Elements(l) + {e} + Elements(r)
  }

  /** The elements in the order an in-order walk (left, node, right) meets them. */
  ghost function InOrder(t: Tree): seq<int>
  {
    match t
    case Nil => []
    case Node(e, _, l, r) => InOrder(l) + [e] + InOrder(r)
  }

  /** Binary-search-tree order: everything left of a node is smaller than its
      element, everything right of it is larger. */
  ghost predicate Ordered(t: Tree)
  {
    match t
    case Nil => true
    case Node(e, _, l, r) =>
      Ordered(l) && Ordered(r) &&
      (forall x :: x in Elements(l) ==> x < e) &&
      (forall x :: x in Elements(r) ==> e < x)
  }

  ghost predicate StrictlyAscending(s: seq<int>)
  {
    forall i, j :: 0 <= i < j < |s| ==> s[i] < s[j]
  }

  /** Black height: the number of black nodes down the leftmost path, the node
      itself included. For a `Balanced` tree every path gives the same number. */
  ghost function Bh(t: Tree): nat
  {
    match t
    case Nil => 0
    case Node(_, red, l, _) => (if red then 0 else 1) + Bh(l)
  }

  /** Equal black height on every path from the node to a nil link. */
  ghost predicate Balanced(t: Tree)
  {
    match t
    case Nil => true
    case Node(_, _, l, r) => Balanced(l) && Balanced(r) && Bh(l) == Bh(r)
  }

  /** The colour shape of a left-leaning red-black tree that emulates a 2-3 tree:
      no red right link and no red node with a red left child. The node itself
      may be red (it is then the lower half of its parent's 3-node). */
  ghost predicate LeftLeaning(t: Tree)
  {
    match t
    case Nil => true
    case Node(_, red, l, r) =>
      !IsRed(r) && (red ==> !IsRed(l)) && LeftLeaning(l) && LeftLeaning(r)
  }

  /** The whole-tree invariant a completed operation leaves behind. */
  ghost predicate IsLlrb(t: Tree)
  {
    Ordered(t) && Balanced(t) && LeftLeaning(t) && !IsRed(t)
  }

  /** The element at the end of the left spine, which is where `first` stops. */
  function Min(t: Tree): (m: int)
    requires t.Node?
    ensures m in Elements(t)
  {
    if t.left.Nil? then t.element else Min(t.left)
  }

  /** The same subtree with its root coloured black (nil stays nil): the same
      elements in the same order under a non-red root. */
  function Blacken(t: Tree): (r: Tree)
    ensures !IsRed(r) && r.Nil? == t.Nil? && InOrder(r) == InOrder(t)
    ensures Elements(r) == Elements(t) && (Ordered(r) <==> Ordered(t))
  {
    if t.Node? then t.(red := false) else t
  }

  lemma {:induction false} InOrderHasElements(t: Tree)
    ensures forall x :: x in InOrder(t) <==> x in Elements(t)
  {
    match t
    case Nil =>
    case Node(_, _, l, r) =>
      InOrderHasElements(l);
      InOrderHasElements(r);
  }

  /** In a search tree the in-order walk is strictly ascending, so it lists every
      stored element exactly once. */
  lemma {:induction false} OrderedInOrder(t: Tree)
    requires Ordered(t)
    ensures StrictlyAscending(InOrder(t))
    ensures |InOrder(t)| == |Elements(t)|
  {
    match t
    case Nil =>
    case Node(e, _, l, r) =>
      OrderedInOrder(l);
      OrderedInOrder(r);
      InOrderHasElements(l);
      InOrderHasElements(r);
      JoinAscending(InOrder(l), e, InOrder(r));
      SeparatedSize(Elements(l), e, Elements(r));
  }

  lemma JoinAscending(a: seq<int>, e: int, b: seq<int>)
    requires StrictlyAscending(a) && StrictlyAscending(b)
    requires forall x :: x in a ==> x < e
    requires forall x :: x in b ==> e < x
    ensures StrictlyAscending(a + [e] + b)
  {
    var s := a + [e] + b;
    var n := |a|;
    forall i, j | 0 <= i < j < |s| ensures s[i] < s[j] {
      if j < n {
        assert s[i] == a[i] && s[j] == a[j];
      } else if i < n {
        assert s[i] == a[i] && a[i] in a;
        if j > n {
          assert s[j] == b[j - n - 1] && b[j - n - 1] in b;
        }
      } else if i == n {
        assert s[j] == b[j - n - 1] && b[j - n - 1] in b;
      } else {
        assert s[i] == b[i - n - 1] && s[j] == b[j - n - 1];
      }
    }
  }

  lemma SeparatedSize(a: set<int>, e: int, b: set<int>)
    requires forall x :: x in a ==> x < e
    requires forall x :: x in b ==> e < x
    ensures |a + {e} + b| == |a| + 1 + |b|
  {
    assert a !! b by {
      forall x | x in a ensures x !in b { }
    }
    assert e !in a + b;
    assert a + {e} + b == (a + b) + {e};
  }

  /** Two subtrees with the same in-order sequence store the same elements, and
      one is a search tree exactly when the other is. */
  lemma SameInOrder(a: Tree, b: Tree)
    requires InOrder(a) == InOrder(b)
    ensures Elements(a) == Elements(b)
    ensures Ordered(a) <==> Ordered(b)
  {
    InOrderHasElements(a);
    InOrderHasElements(b);
    assert Elements(a) <= Elements(b) by {
      forall x | x in Elements(a) ensures x in Elements(b) { assert x in InOrder(a); }
    }
    assert Elements(b) <= Elements(a) by {
      forall x | x in Elements(b) ensures x in Elements(a) { assert x in InOrder(b); }
    }
    if Ordered(a) { OrderedInOrder(a); AscendingOrdered(b); }
    if Ordered(b) { OrderedInOrder(b); AscendingOrdered(a); }
  }

  /** The converse of `OrderedInOrder`: an ascending in-order walk means a search tree. */
  lemma {:induction false} AscendingOrdered(t: Tree)
    requires StrictlyAscending(InOrder(t))
    ensures Ordered(t)
  {
    match t
    case Nil =>
    case Node(e, _, l, r) =>
      var s := InOrder(t);
      var n := |InOrder(l)|;
      assert s == InOrder(l) + [e] + InOrder(r);
      assert InOrder(l) == s[..n];
      assert InOrder(r) == s[n + 1..];
      AscendingOrdered(l);
      AscendingOrdered(r);
      InOrderHasElements(l);
      InOrderHasElements(r);
      assert s[n] == e;
      forall x | x in Elements(l) ensures x < e {
        var i :| 0 <= i < n && s[i] == x;
      }
      forall x | x in Elements(r) ensures e < x {
        var i :| 0 <= i < |InOrder(r)| && InOrder(r)[i] == x;
        assert s[n + 1 + i] == x;
      }
  }

  /** `Min` is the least stored element of a non-empty search tree. */
  lemma {:induction false} MinIsLeast(t: Tree)
    requires t.Node? && Ordered(t)
    ensures Min(t) in Elements(t)
    ensures forall x :: x in Elements(t) ==> Min(t) <= x
  {
    if t.left.Node? {
      MinIsLeast(t.left);
    }
  }

  /** A black node that is not nil lies above at least one black level, so a
      nil sibling beside it would break the balance. */
  lemma BlackHeightOfNode(t: Tree)
    requires t.Node? && !t.red
    ensures Bh(t) >= 1
  {
  }

  lemma {:induction false} ZeroHeightIsRedOrNil(t: Tree)
    requires Balanced(t) && LeftLeaning(t) && Bh(t) == 0
    ensures t.Nil? || (t.red && t.left.Nil? && t.right.Nil?)
  {
    if t.Node? {
      assert t.red;
    }
  }
}
