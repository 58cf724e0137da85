/** Insertion into the tree. `InsertTopDown` is `insert` as written: it splits a
    node with two red children on the way down, before descending, which is the
    2-3-4 variant of the left-leaning tree. `Insert` performs the split on the way
    back up, after `insertRotation`; that is the 2-3 variant, the one whose
    shape `delete_` relies on, and it is the insertion the sorted set uses. */
module Insertion {
  import opened Nodes
  import opened Rotations

  /** insert, as written: returns the new subtree root and whether `x` was added. */
  function InsertTopDown(t: Tree, x: int): (r: (Tree, bool))
    ensures r.0.Node? && Elements(r.0) == Elements(t) + {x}
    ensures !r.1 ==> x in Elements(t)
    decreases |InOrder(t)|
  {
    if t.Nil? then
      (Node(x, true, Nil, Nil), true)
    else
      var h := if IsRed(t.left) && IsRed(t.right) then ColorFlip(t) else t;
      if x < h.element then
        var (l, inserted) := InsertTopDown(h.left, x);
        (InsertRotation(h.(left := l)), inserted)
      else if h.element < x then
        var (r', inserted) := InsertTopDown(h.right, x);
        (InsertRotation(h.(right := r')), inserted)
      else
        (InsertRotation(h), false)
  }

  /** The insert as written keeps search-tree order and reports exactly whether
      the element was new: what goes wrong is the colour shape only. */
  lemma {:induction false} InsertTopDownCorrect(t: Tree, x: int)
    requires Ordered(t)
    ensures Ordered(InsertTopDown(t, x).0)
    ensures InsertTopDown(t, x).1 <==> x !in Elements(t)
    decreases |InOrder(t)|
  {
    if t.Node? {
      var h := if IsRed(t.left) && IsRed(t.right) then ColorFlip(t) else t;
      SameInOrder(h, t);
      if x < h.element {
        InsertTopDownCorrect(h.left, x);
        LeftGrown(h, InsertTopDown(h.left, x).0, x);
      } else if h.element < x {
        InsertTopDownCorrect(h.right, x);
        RightGrown(h, InsertTopDown(h.right, x).0, x);
      } else {
        SameInOrder(InsertRotation(h), h);
      }
    }
  }

  /** A left subtree that has gained `x`, smaller than the node, is put back in
      order, and the rotation keeps that order. */
  lemma LeftGrown(h: Tree, l: Tree, x: int)
    requires h.Node? && Ordered(h) && x < h.element
    requires Ordered(l) && Elements(l) == Elements(h.left) + {x}
    ensures Ordered(InsertRotation(h.(left := l)))
  {
    var u := h.(left := l);
    assert Ordered(u);
    SameInOrder(InsertRotation(u), u);
  }

  /** The same for a right subtree that has gained `x`, larger than the node. */
  lemma RightGrown(h: Tree, r: Tree, x: int)
    requires h.Node? && Ordered(h) && h.element < x
    requires Ordered(r) && Elements(r) == Elements(h.right) + {x}
    ensures Ordered(InsertRotation(h.(right := r)))
  {
    var u := h.(right := r);
    assert Ordered(u);
    SameInOrder(InsertRotation(u), u);
  }

  /** The colour flip moved from before the descent to after the rotations:
      a node left with two red children is split on the way back up. */
  function SplitFourNode(t: Tree): (r: Tree)
    requires t.Node?
    ensures r.Node? && InOrder(r) == InOrder(t) && Elements(r) == Elements(t)
    ensures !(IsRed(r.left) && IsRed(r.right))
  {
    if IsRed(t.left) && IsRed(t.right) then ColorFlip(t) else t
  }

  /** insert with the split done on the way back up. */
  function Insert(t: Tree, x: int): (r: (Tree, bool))
    ensures r.0.Node? && Elements(r.0) == Elements(t) + {x}
    ensures !r.1 ==> x in Elements(t)
  {
    if t.Nil? then
      (Node(x, true, Nil, Nil), true)
    else if x < t.element then
      var (l, inserted) := Insert(t.left, x);
      (SplitFourNode(InsertRotation(t.(left := l))), inserted)
    else if t.element < x then
      var (r', inserted) := Insert(t.right, x);
      (SplitFourNode(InsertRotation(t.(right := r'))), inserted)
    else
      (SplitFourNode(InsertRotation(t)), false)
  }

  /** A red node with a red left child: the temporary shape an insertion below a
      red node hands up, which the parent's `insertRotation` takes apart. */
  ghost predicate RedLeftRed(t: Tree)
  {
    t.Node? && t.red && IsRed(t.left) && !IsRed(t.right) &&
    LeftLeaning(t.left) && LeftLeaning(t.right)
  }

  /** What an insertion may hand back in place of a subtree: a left-leaning tree,
      or, only where the old subtree was red, a red node with a red left child. */
  ghost predicate InsertedShape(old_t: Tree, t: Tree)
  {
    Balanced(t) && Bh(t) == Bh(old_t) &&
    (LeftLeaning(t) || (IsRed(old_t) && RedLeftRed(t)))
  }

  /** In a search tree, insertion keeps the order and reports exactly whether the
      element was new. */
  lemma {:induction false} InsertCorrect(t: Tree, x: int)
    requires Ordered(t)
    ensures Ordered(Insert(t, x).0)
    ensures Insert(t, x).1 <==> x !in Elements(t)
  {
    if t.Nil? {
    } else if x < t.element {
      InsertCorrect(t.left, x);
      var u := t.(left := Insert(t.left, x).0);
      assert Ordered(u);
      SameInOrder(SplitFourNode(InsertRotation(u)), u);
    } else if t.element < x {
      InsertCorrect(t.right, x);
      var u := t.(right := Insert(t.right, x).0);
      assert Ordered(u);
      SameInOrder(SplitFourNode(InsertRotation(u)), u);
    } else {
      SameInOrder(SplitFourNode(InsertRotation(t)), t);
    }
  }

  /** Insertion keeps the black height and the left-leaning shape; below a red
      node it may leave a red node with a red left child for the parent to fix. */
  lemma {:induction false} InsertKeepsShape(t: Tree, x: int)
    requires Balanced(t) && LeftLeaning(t)
    ensures InsertedShape(t, Insert(t, x).0)
  {
    if t.Nil? {
    } else if x < t.element {
      InsertKeepsShape(t.left, x);
      LeftRebuilt(t, Insert(t.left, x).0);
    } else if t.element < x {
      InsertKeepsShape(t.right, x);
      RightRebuilt(t, Insert(t.right, x).0);
    } else {
      assert InsertRotation(t) == t;
    }
  }

  /** Putting back a left subtree in the shape an insertion leaves, then rotating
      and splitting, restores the shape at the node. */
  lemma LeftRebuilt(t: Tree, l: Tree)
    requires t.Node? && Balanced(t) && LeftLeaning(t) && InsertedShape(t.left, l)
    ensures InsertedShape(t, SplitFourNode(InsertRotation(t.(left := l))))
  {
    var u := t.(left := l);
    if RedLeftRed(l) && !LeftLeaning(l) {
      var v := RotateRight(u);
      assert InsertRotation(u) == v;
      assert Balanced(l.left) && Balanced(v.right);
    }
  }

  /** The same for a right subtree. */
  lemma RightRebuilt(t: Tree, r: Tree)
    requires t.Node? && Balanced(t) && LeftLeaning(t) && InsertedShape(t.right, r)
    ensures InsertedShape(t, SplitFourNode(InsertRotation(t.(right := r))))
  {
    var u := t.(right := r);
    assert LeftLeaning(r);
    if IsRed(r) && !IsRed(t.left) {
      var v := RotateLeft(u);
      assert InsertRotation(u) == v;
      assert Balanced(v.left);
    }
  }

  /** Insert at the root of a complete tree, followed by blackening the root,
      leaves a complete tree holding the old elements and `x`, and the flag says
      whether `x` was new. */
  lemma InsertFromRoot(t: Tree, x: int)
    requires IsLlrb(t)
    ensures var (r, inserted) := Insert(t, x);
      IsLlrb(Blacken(r)) && Elements(r) == Elements(t) + {x} &&
      (inserted <==> x !in Elements(t))
  {
    InsertCorrect(t, x);
    InsertKeepsShape(t, x);
  }
}
