/** The local restructuring steps of the tree: colour flip, the two rotations, the
    insertion fix-up, the deletion fix-up and the two "move red" steps that deletion
    takes before it descends. Each step but the colour flip returns the new root of
    the subtree it was given, which the caller stores back in place of the old one;
    the colour flip recolours in place, and here returns the recoloured node. */
module Rotations {
  import opened Nodes

  /** colorFlip: inverts the colour of the node and of each non-nil child and
      changes nothing else (a child is unchanged apart from its colour). */
  function ColorFlip(t: Tree): (r: Tree)
    requires t.Node?
    ensures r.Node? && r.element == t.element && r.red == !t.red
    ensures IsRed(r.left) == (t.left.Node? && !t.left.red)
    ensures IsRed(r.right) == (t.right.Node? && !t.right.red)
    ensures Blacken(r.left) == Blacken(t.left) && Blacken(r.right) == Blacken(t.right)
    ensures InOrder(r) == InOrder(t) && Elements(r) == Elements(t)
  {
    Node(t.element, !t.red, Invert(t.left), Invert(t.right))
  }

  function Invert(t: Tree): Tree
  {
    if t.Node? then t.(red := !t.red) else t
  }

  /** rotateLeft: the right child becomes the subtree root and takes over the old
      root's colour; the old root becomes its red left child. */
  function RotateLeft(t: Tree): (r: Tree)
    requires t.Node? && t.right.Node?
    ensures r.Node? && r.left.Node?
    ensures r.element == t.right.element && r.left.element == t.element
    ensures r.red == t.red && r.left.red
    ensures InOrder(r) == InOrder(t) && Elements(r) == Elements(t)
  {
    var x := t.right;
    Node(x.element, t.red, Node(t.element, true, t.left, x.left), x.right)
  }

  /** rotateRight: the mirror image of `RotateLeft`. */
  function RotateRight(t: Tree): (r: Tree)
    requires t.Node? && t.left.Node?
    ensures r.Node? && r.right.Node?
    ensures r.element == t.left.element && r.right.element == t.element
    ensures r.red == t.red && r.right.red
    ensures InOrder(r) == InOrder(t) && Elements(r) == Elements(t)
  {
    var x := t.left;
    Node(x.element, t.red, x.left, Node(t.element, true, x.right, t.right))
  }

  /** insertRotation: turns a lone red right link into a left one, then splits a
      pair of consecutive red left links by rotating right. */
  function InsertRotation(t: Tree): (r: Tree)
    requires t.Node?
    ensures r.Node? && InOrder(r) == InOrder(t) && Elements(r) == Elements(t)
  {
    var h := if IsRed(t.right) && !IsRed(t.left) then RotateLeft(t) else t;
    if IsRed(h.left) && IsRed(h.left.left) then RotateRight(h) else h
  }

  /** fixUp: the repair applied on the way back up from a deletion. */
  function FixUp(t: Tree): (r: Tree)
    requires t.Node?
    ensures r.Node? && InOrder(r) == InOrder(t) && Elements(r) == Elements(t)
  {
    var h := if IsRed(t.right) then RotateLeft(t) else t;
    var h' := if IsRed(h.left) && IsRed(h.left.left) then RotateRight(h) else h;
    if IsRed(h'.left) && IsRed(h'.right) then ColorFlip(h') else h'
  }

  /** moveRedLeft: borrows a red link for the left child before deletion descends
      into it, taking it from the right child's left child when that one is red. */
  function MoveRedLeft(t: Tree): (r: Tree)
    requires t.Node?
    ensures r.Node? && InOrder(r) == InOrder(t) && Elements(r) == Elements(t)
    ensures t.left.Node? ==> r.left.Node?
  {
    var h := ColorFlip(t);
    if h.right.Node? && IsRed(h.right.left) then
      ColorFlip(RotateLeft(h.(right := RotateRight(h.right))))
    else
      h
  }

  /** moveRedRight: the mirror step before deletion descends to the right. */
  function MoveRedRight(t: Tree): (r: Tree)
    requires t.Node?
    ensures r.Node? && InOrder(r) == InOrder(t) && Elements(r) == Elements(t)
    ensures t.right.Node? ==> r.right.Node?
  {
    var h := ColorFlip(t);
    if h.left.Node? && IsRed(h.left.left) then ColorFlip(RotateRight(h)) else h
  }

  /** A node whose two children are left-leaning trees of the same black height and
      that is not red above a red child: what `FixUp` is handed during deletion. */
  ghost predicate FixUpReady(t: Tree)
  {
    t.Node? && Balanced(t) && LeftLeaning(t.left) && LeftLeaning(t.right) &&
    (t.red ==> !IsRed(t.left) && !IsRed(t.right))
  }

  /** Sedgewick's deletion invariant: the node or its left child is red, so there is
      a red link that the deletion below may consume. */
  ghost predicate SpareRed(t: Tree)
  {
    t.Node? && Balanced(t) && LeftLeaning(t) && (t.red || IsRed(t.left))
  }

  /** The one shape that is not left-leaning but that deletion hands down: a black
      node whose right child is red and whose left child is not (it is what
      `MoveRedRight` leaves behind to the right when it rotates). */
  ghost predicate LeansRight(t: Tree)
  {
    t.Node? && Balanced(t) && !t.red && !IsRed(t.left) && IsRed(t.right) &&
    LeftLeaning(t.left) && LeftLeaning(t.right)
  }

  /** Flipping twice restores the node. */
  lemma ColorFlipTwice(t: Tree)
    requires t.Node?
    ensures ColorFlip(ColorFlip(t)) == t
  {
  }

  /** A rotation is undone by the opposite rotation, except that the child that was
      moved back down is now red. */
  lemma RotationsUndo(t: Tree)
    ensures t.Node? && t.right.Node? ==>
      RotateRight(RotateLeft(t)) == t.(right := t.right.(red := true))
    ensures t.Node? && t.left.Node? ==>
      RotateLeft(RotateRight(t)) == t.(left := t.left.(red := true))
  {
  }

  /** fixUp leaves a left-leaning tree of the same black height; the result is red
      exactly when the node was red or it had to split a temporary 4-node. */
  lemma FixUpRepairs(t: Tree)
    requires FixUpReady(t)
    ensures var r := FixUp(t);
      Balanced(r) && Bh(r) == Bh(t) && LeftLeaning(r) &&
      r.red == (t.red || (IsRed(t.left) && IsRed(t.right)))
  {
    if IsRed(t.right) {
      var x := RotateLeft(t);
      assert Balanced(x.left);
      if IsRed(t.left) {
        var y := RotateRight(x);
        assert y == t.(right := t.right.(red := true));
      }
    }
  }

  /** moveRedLeft, applied where deletion applies it (a red node whose left child
      and left grandchild are black), makes the left child or its left child red
      without changing the black height. */
  lemma MoveRedLeftLends(t: Tree)
    requires t.Node? && Balanced(t) && LeftLeaning(t) && t.red
    requires t.left.Node? && !IsRed(t.left.left)
    ensures var r := MoveRedLeft(t);
      Balanced(r) && Bh(r) == Bh(t) && LeftLeaning(r.right) &&
      SpareRed(r.left) && (r.red ==> !r.left.red && !IsRed(r.right))
    ensures Ordered(t) ==> t.element <= MoveRedLeft(t).element
  {
    var Node(e, _, a, b) := t;
    BlackHeightOfNode(a);
    var h := ColorFlip(t);
    assert b.Node? && !b.red;
    if IsRed(b.left) {
      var c := b.left;
      var r := Node(c.element, true, Node(e, false, a.(red := true), c.left),
                    Node(b.element, false, c.right, b.right));
      assert MoveRedLeft(t) == r;
      assert Balanced(a) && Balanced(b) && Balanced(c);
      assert Bh(a.left) == Bh(a) - 1 == Bh(c.left) == Bh(c.right) == Bh(b.right);
      assert Balanced(r.left) && Balanced(r.right);
      assert LeftLeaning(b) && LeftLeaning(c);
      if Ordered(t) {
        assert c.element in Elements(b);
      }
    }
  }

  /** moveRedRight, applied where deletion applies it (a red node whose right
      child and its left child are black), either leaves a black node with two red
      children, or rotates so that the old node ends up, leaning right, as the
      right child of a red node that holds a smaller element. */
  lemma MoveRedRightLends(t: Tree)
    requires t.Node? && Balanced(t) && LeftLeaning(t) && t.red
    requires t.right.Node? && !IsRed(t.right.left)
    ensures var r := MoveRedRight(t);
      Balanced(r) && Bh(r) == Bh(t) &&
      ((r.red && !IsRed(r.left) && LeftLeaning(r.left) && LeansRight(r.right) &&
        r.right.element == t.element && (Ordered(t) ==> r.element < t.element)) ||
       (!r.red && r.element == t.element && SpareRed(r.left) && SpareRed(r.right) &&
        r.left.red && r.right.red))
  {
    var Node(e, _, a, b) := t;
    BlackHeightOfNode(b);
    assert a.Node? && !a.red;
    if IsRed(a.left) {
      var c := a.left;
      var r := Node(a.element, true, c.(red := false),
                    Node(e, false, a.right, b.(red := true)));
      assert MoveRedRight(t) == r;
      assert Balanced(a) && Balanced(b) && Balanced(c);
      assert Bh(c) == Bh(a) - 1 == Bh(a.right) == Bh(b.left) == Bh(b.right);
      assert Bh(b.(red := true)) == Bh(b.left) && Balanced(b.(red := true));
      assert LeftLeaning(a) && LeftLeaning(c) && LeftLeaning(c.(red := false));
      assert LeftLeaning(b) && LeftLeaning(b.(red := true));
      if Ordered(t) {
        assert a.element in Elements(a);
        assert a.element < e;
      }
    }
  }

  /* The deletion steps look at the colours of a node's descendants but never at
     the node's own colour, except to pass it on to the subtree root they return.
     Two subtrees that differ only in the root's colour therefore give results
     that differ only in the root's colour. */

  lemma RotateRightColourBlind(a: Tree, b: Tree)
    requires a.Node? && a.left.Node? && Blacken(a) == Blacken(b)
    ensures Blacken(RotateRight(a)) == Blacken(RotateRight(b))
  {
  }

  lemma FixUpColourBlind(a: Tree, b: Tree)
    requires a.Node? && Blacken(a) == Blacken(b)
    ensures Blacken(FixUp(a)) == Blacken(FixUp(b))
  {
  }

  lemma MoveRedLeftColourBlind(a: Tree, b: Tree)
    requires a.Node? && Blacken(a) == Blacken(b)
    ensures Blacken(MoveRedLeft(a)) == Blacken(MoveRedLeft(b))
  {
  }

  lemma MoveRedRightColourBlind(a: Tree, b: Tree)
    requires a.Node? && Blacken(a) == Blacken(b)
    ensures Blacken(MoveRedRight(a)) == Blacken(MoveRedRight(b))
  {
  }
}
