/** Deletion from the tree: `delete_` and `deleteRight` (mutually recursive),
    `deleteMinimum`, and `first`, which finds the in-order successor that replaces a
    deleted element that has a right subtree. */
module Deletion {
  import opened Nodes
  import opened Rotations

  /** first: follows left links down to the last node of the left spine and
      returns its element, the least element of a search tree. */
  method First(t: Tree) returns (e: int)
    requires t.Node?
    ensures e == Min(t)
    ensures Ordered(t) ==> e in Elements(t) && forall x :: x in Elements(t) ==> e <= x
  {
    var n := t;
    while n.left.Node?
      invariant n.Node? && Min(n) == Min(t)
      decreases n
    {
      n := n.left;
    }
    e := n.element;
    if Ordered(t) {
      MinIsLeast(t);
    }
  }

  /** deleteMinimum: removes the leftmost node, borrowing a red link on the way
      down wherever the left child is a 2-node. */
  function DeleteMinimum(t: Tree): (r: Tree)
    requires t.Node?
    ensures Elements(r) <= Elements(t)
    decreases |InOrder(t)|
  {
    if t.left.Nil? then
      Nil
    else
      var h := if !IsRed(t.left) && !IsRed(t.left.left) then MoveRedLeft(t) else t;
      FixUp(h.(left := DeleteMinimum(h.left)))
  }

  /** delete_: removes `k` from the subtree and reports whether it was there. */
  function Delete(t: Tree, k: int): (r: (Tree, bool))
    requires t.Node?
    ensures Elements(r.0) <= Elements(t)
    ensures r.1 ==> k in Elements(t)
    decreases |InOrder(t)|, 1
  {
    if k < t.element then
      if t.left.Node? then
        var h := if !IsRed(t.left) && !IsRed(t.left.left) then MoveRedLeft(t) else t;
        var (l, deleted) := Delete(h.left, k);
        (FixUp(h.(left := l)), deleted)
      else
        (FixUp(t), false)
    else
      var h := if IsRed(t.left) then RotateRight(t) else t;
      if k == h.element && h.right.Nil? then
        (Nil, true)
      else if h.right.Node? then
        var (h', deleted) := DeleteRight(h, k);
        (FixUp(h'), deleted)
      else
        (FixUp(h), false)
  }

  /** deleteRight: removes `k`, which is not smaller than the node's element, from
      a node with a right subtree; when the node itself holds `k`, its element is
      overwritten by the successor and the successor is removed from the right. */
  function DeleteRight(t: Tree, k: int): (r: (Tree, bool))
    requires t.Node? && t.right.Node?
    ensures r.0.Node?
    ensures Elements(r.0) <= Elements(t)
    ensures r.1 ==> k in Elements(t)
    decreases |InOrder(t)|, 0
  {
    var h := if !IsRed(t.right) && !IsRed(t.right.left) then MoveRedRight(t) else t;
    if k == h.element then
      (h.(element := Min(h.right), right := DeleteMinimum(h.right)), true)
    else
      var (r', deleted) := Delete(h.right, k);
      (h.(right := r'), deleted)
  }

  /** Where `delete_` is called: the node or its left child is red, or the node
      leans right (then it was left so by `moveRedRight` and `k` is not smaller). */
  ghost predicate DeleteReady(t: Tree, k: int)
  {
    SpareRed(t) || (LeansRight(t) && t.element <= k)
  }

  /** Where `deleteRight` is called: a red node with a spare red link, or one that
      leans right, holding an element not larger than `k`. */
  ghost predicate DeleteRightReady(t: Tree, k: int)
  {
    t.Node? && t.right.Node? && t.element <= k &&
    ((t.red && SpareRed(t)) || LeansRight(t))
  }

  /** The least element is the first one of the in-order walk. */
  lemma {:induction false} MinIsFirst(t: Tree)
    requires t.Node?
    ensures |InOrder(t)| > 0 && InOrder(t)[0] == Min(t)
  {
    if t.left.Node? {
      MinIsFirst(t.left);
    }
  }

  /** deleteMinimum, on a node with a spare red link, keeps the tree balanced and
      left-leaning at the same black height; a black root stays black. */
  lemma {:induction false} DeleteMinimumCorrect(t: Tree)
    requires SpareRed(t)
    ensures var r := DeleteMinimum(t);
      Balanced(r) && Bh(r) == Bh(t) && LeftLeaning(r) && (!t.red ==> !IsRed(r))
    decreases |InOrder(t)|, 1
  {
    if t.left.Nil? {
      ZeroHeightIsRedOrNil(t.right);
    } else {
      DeleteMinimumBelow(t);
    }
  }

  /** The recursive case of `DeleteMinimumCorrect`. */
  lemma {:induction false} DeleteMinimumBelow(t: Tree)
    requires SpareRed(t) && t.left.Node?
    ensures var r := DeleteMinimum(t);
      Balanced(r) && Bh(r) == Bh(t) && LeftLeaning(r) && (!t.red ==> !IsRed(r))
    decreases |InOrder(t)|, 0
  {
    var h := if !IsRed(t.left) && !IsRed(t.left.left) then MoveRedLeft(t) else t;
    BorrowLeft(t);
    DeleteMinimumCorrect(h.left);
    var l := DeleteMinimum(h.left);
    assert DeleteMinimum(t) == FixUp(h.(left := l));
    LeftRepaired(h, l);
  }

  /** deleteMinimum removes exactly the first element of the in-order walk. */
  lemma {:induction false} DeleteMinimumDropsFirst(t: Tree)
    requires SpareRed(t)
    ensures InOrder(DeleteMinimum(t)) == InOrder(t)[1..]
    decreases |InOrder(t)|
  {
    if t.left.Nil? {
      ZeroHeightIsRedOrNil(t.right);
    } else {
      var h := if !IsRed(t.left) && !IsRed(t.left.left) then MoveRedLeft(t) else t;
      BorrowLeft(t);
      DeleteMinimumDropsFirst(h.left);
      var l := DeleteMinimum(h.left);
      assert DeleteMinimum(t) == FixUp(h.(left := l));
      DropFirstOnLeft(h, l);
    }
  }

  lemma DropFirstOnLeft(h: Tree, l: Tree)
    requires h.Node? && h.left.Node? && InOrder(l) == InOrder(h.left)[1..]
    ensures InOrder(FixUp(h.(left := l))) == InOrder(h)[1..]
  {
    assert InOrder(h) == InOrder(h.left) + [h.element] + InOrder(h.right);
    assert InOrder(h)[1..] == InOrder(h.left)[1..] + [h.element] + InOrder(h.right);
  }

  /** What deletion finds below a node having a spare red link, once the left
      child has been given a red link (by `moveRedLeft`, if it had none). */
  lemma BorrowLeft(t: Tree)
    requires SpareRed(t) && t.left.Node?
    ensures var h := if !IsRed(t.left) && !IsRed(t.left.left) then MoveRedLeft(t) else t;
      Balanced(h) && Bh(h) == Bh(t) && SpareRed(h.left) && LeftLeaning(h.right) &&
      (h.red ==> !h.left.red && !IsRed(h.right)) && (!t.red ==> !h.red && !IsRed(h.right)) &&
      InOrder(h) == InOrder(t) && (Ordered(t) ==> t.element <= h.element)
  {
    if !IsRed(t.left) && !IsRed(t.left.left) {
      MoveRedLeftLends(t);
    }
  }

  /** Putting back a left subtree that kept its black height and shape and that is
      black below a red node, then calling `fixUp`, restores the shape. */
  lemma LeftRepaired(h: Tree, l: Tree)
    requires h.Node? && Balanced(h) && LeftLeaning(h.right)
    requires Balanced(l) && Bh(l) == Bh(h.left) && LeftLeaning(l)
    requires h.red ==> !IsRed(l) && !IsRed(h.right)
    ensures var r := FixUp(h.(left := l));
      Balanced(r) && Bh(r) == Bh(h) && LeftLeaning(r) &&
      r.red == (h.red || (IsRed(l) && IsRed(h.right)))
  {
    FixUpRepairs(h.(left := l));
  }

  /** In a search tree, deleteMinimum removes the least element and nothing else. */
  lemma DeleteMinimumRemovesMin(t: Tree)
    requires SpareRed(t) && Ordered(t)
    ensures Ordered(DeleteMinimum(t))
    ensures Elements(DeleteMinimum(t)) == Elements(t) - {Min(t)}
  {
    DeleteMinimumDropsFirst(t);
    WithoutFirst(t, DeleteMinimum(t));
  }

  /** A tree whose in-order walk is that of a search tree without its first
      element is a search tree holding everything but the least element. */
  lemma WithoutFirst(t: Tree, r: Tree)
    requires t.Node? && Ordered(t) && InOrder(r) == InOrder(t)[1..]
    ensures Ordered(r) && Elements(r) == Elements(t) - {Min(t)}
  {
    MinIsFirst(t);
    OrderedInOrder(t);
    var s := InOrder(t);
    AscendingTail(s);
    AscendingOrdered(r);
    InOrderHasElements(t);
    InOrderHasElements(r);
    forall x ensures x in Elements(r) <==> x in Elements(t) - {Min(t)} {
      assert x in Elements(r) <==> x in s[1..];
      assert x in Elements(t) <==> x in s;
    }
  }

  lemma AscendingTail(s: seq<int>)
    requires StrictlyAscending(s) && |s| > 0
    ensures StrictlyAscending(s[1..])
    ensures forall x :: x in s[1..] <==> x in s && x != s[0]
  {
    forall x | x in s && x != s[0] ensures x in s[1..] {
      var i :| 0 <= i < |s| && s[i] == x;
      assert s[1..][i - 1] == x;
    }
  }

  /** delete_ on a subtree in the shape deletion maintains removes exactly `k`,
      reports whether it was present, keeps order, balance, black height and the
      left-leaning shape, and leaves a black subtree black. */
  lemma {:induction false} DeleteCorrect(t: Tree, k: int)
    requires DeleteReady(t, k) && Ordered(t)
    ensures var (r, d) := Delete(t, k);
      Balanced(r) && Bh(r) == Bh(t) && LeftLeaning(r) && (!t.red ==> !IsRed(r)) &&
      Ordered(r) && Elements(r) == Elements(t) - {k} && (d <==> k in Elements(t))
    decreases |InOrder(t)|, 1
  {
    if k < t.element {
      if t.left.Node? {
        DeleteLeftCorrect(t, k);
      } else {
        FixUpRepairs(t);
        SameInOrder(FixUp(t), t);
      }
    } else {
      var h := if IsRed(t.left) then RotateRight(t) else t;
      SameInOrder(h, t);
      if k == h.element && h.right.Nil? {
        ZeroHeightIsRedOrNil(t.left);
      } else if h.right.Node? {
        if IsRed(t.left) {
          RotatedLeansRight(t);
        }
        assert DeleteRightReady(h, k);
        DeleteRightCorrect(h, k);
        var (u, d) := DeleteRight(h, k);
        FixUpRepairs(u);
        SameInOrder(FixUp(u), u);
      } else {
        ZeroHeightIsRedOrNil(t.left);
        FixUpRepairs(t);
        SameInOrder(FixUp(t), t);
      }
    }
  }

  /** Rotating right a black node whose left child is red and whose right child
      is not gives a node that leans right and holds a smaller element. */
  lemma RotatedLeansRight(t: Tree)
    requires t.Node? && Balanced(t) && LeftLeaning(t) && !t.red && IsRed(t.left)
    ensures LeansRight(RotateRight(t))
    ensures Ordered(t) ==> RotateRight(t).element < t.element
  {
    var Node(e, _, a, b) := t;
    assert Balanced(a) && LeftLeaning(a) && LeftLeaning(b);
    var h := Node(a.element, false, a.left, Node(e, true, a.right, b));
    assert RotateRight(t) == h;
    assert Bh(a.left) == Bh(a.right) == Bh(b);
    if Ordered(t) {
      assert a.element in Elements(a);
    }
  }

  /** The branch of `DeleteCorrect` that descends to the left. */
  lemma {:induction false} DeleteLeftCorrect(t: Tree, k: int)
    requires DeleteReady(t, k) && Ordered(t) && k < t.element && t.left.Node?
    ensures var (r, d) := Delete(t, k);
      Balanced(r) && Bh(r) == Bh(t) && LeftLeaning(r) && (!t.red ==> !IsRed(r)) &&
      Ordered(r) && Elements(r) == Elements(t) - {k} && (d <==> k in Elements(t))
    decreases |InOrder(t)|, 0
  {
    var h := if !IsRed(t.left) && !IsRed(t.left.left) then MoveRedLeft(t) else t;
    BorrowLeft(t);
    SameInOrder(h, t);
    DeleteCorrect(h.left, k);
    LeftReplaced(h, Delete(h.left, k).0, k);
  }

  /** Putting back a left subtree from which `k`, smaller than the node's element,
      was removed, then calling `fixUp`, removes exactly `k` from the node. */
  lemma LeftReplaced(h: Tree, l: Tree, k: int)
    requires h.Node? && Balanced(h) && Ordered(h) && LeftLeaning(h.right) && k < h.element
    requires Balanced(l) && Bh(l) == Bh(h.left) && LeftLeaning(l)
    requires Ordered(l) && Elements(l) == Elements(h.left) - {k}
    requires h.red ==> !IsRed(l) && !IsRed(h.right)
    ensures var r := FixUp(h.(left := l));
      Balanced(r) && Bh(r) == Bh(h) && LeftLeaning(r) &&
      r.red == (h.red || (IsRed(l) && IsRed(h.right))) &&
      Ordered(r) && Elements(r) == Elements(h) - {k} &&
      (k in Elements(h) <==> k in Elements(h.left))
  {
    LeftRepaired(h, l);
    var u := h.(left := l);
    assert Ordered(u);
    SameInOrder(FixUp(u), u);
  }

  /** deleteRight on a node in the shape deletion hands it removes exactly `k`,
      keeps order and black height, and leaves a node `fixUp` can repair; a node
      that leaned right comes back black with a black left child. */
  lemma {:induction false} DeleteRightCorrect(t: Tree, k: int)
    requires DeleteRightReady(t, k) && Ordered(t)
    ensures var (r, d) := DeleteRight(t, k);
      FixUpReady(r) && Bh(r) == Bh(t) && (LeansRight(t) ==> !r.red && !IsRed(r.left)) &&
      Ordered(r) && Elements(r) == Elements(t) - {k} && (d <==> k in Elements(t))
    decreases |InOrder(t)|, 0
  {
    var h := if !IsRed(t.right) && !IsRed(t.right.left) then MoveRedRight(t) else t;
    BorrowRight(t, k);
    if k == h.element {
      DeleteMinimumCorrect(h.right);
      DeleteMinimumRemovesMin(h.right);
      SuccessorReplaces(h, DeleteMinimum(h.right));
    } else {
      DeleteCorrect(h.right, k);
      RightReplaced(h, Delete(h.right, k).0, k);
    }
  }

  /** What `deleteRight` finds once the right child has been given a red link (by
      `moveRedRight`, if it had none): either the node holds `k` and its right
      subtree has a spare red link for `deleteMinimum`, or `k` is larger and the
      right subtree is ready for `delete_`. */
  lemma BorrowRight(t: Tree, k: int)
    requires DeleteRightReady(t, k) && Ordered(t)
    ensures var h := if !IsRed(t.right) && !IsRed(t.right.left) then MoveRedRight(t) else t;
      h.Node? && h.right.Node? && Balanced(h) && Bh(h) == Bh(t) && Ordered(h) &&
      Elements(h) == Elements(t) && LeftLeaning(h.left) &&
      (h.red ==> !IsRed(h.left) && !h.right.red) && (LeansRight(t) ==> h == t) &&
      (k == h.element ==> SpareRed(h.right)) &&
      (k != h.element ==> h.element < k && DeleteReady(h.right, k))
  {
    var h := if !IsRed(t.right) && !IsRed(t.right.left) then MoveRedRight(t) else t;
    if !IsRed(t.right) && !IsRed(t.right.left) {
      MoveRedRightLends(t);
    }
    SameInOrder(h, t);
  }

  /** Overwriting a node's element with its successor and putting back the right
      subtree without the successor removes exactly the node's own element. */
  lemma SuccessorReplaces(h: Tree, r: Tree)
    requires h.Node? && h.right.Node? && Balanced(h) && Ordered(h) && LeftLeaning(h.left)
    requires Balanced(r) && Bh(r) == Bh(h.right) && LeftLeaning(r)
    requires Ordered(r) && Elements(r) == Elements(h.right) - {Min(h.right)}
    requires h.red ==> !IsRed(h.left) && !IsRed(r)
    ensures var u := h.(element := Min(h.right), right := r);
      FixUpReady(u) && Bh(u) == Bh(h) && Ordered(u) &&
      Elements(u) == Elements(h) - {h.element}
  {
    MinIsLeast(h.right);
    SuccessorKeepsOrder(h, Min(h.right), r);
  }

  /** The order and contents half of `SuccessorReplaces`, for any least element
      `m` of the right subtree. */
  lemma SuccessorKeepsOrder(h: Tree, m: int, r: Tree)
    requires h.Node? && Ordered(h)
    requires m in Elements(h.right) && forall x :: x in Elements(h.right) ==> m <= x
    requires Ordered(r) && Elements(r) == Elements(h.right) - {m}
    ensures var u := h.(element := m, right := r);
      Ordered(u) && Elements(u) == Elements(h) - {h.element}
  {
    var u := h.(element := m, right := r);
    assert forall x :: x in Elements(r) ==> m < x;
    assert Ordered(u);
    assert h.element !in Elements(h.left) + Elements(h.right);
    assert Elements(h) - {h.element} == Elements(h.left) + Elements(h.right);
    assert Elements(u) == Elements(h.left) + Elements(h.right);
  }

  /** Putting back a right subtree from which `k`, larger than the node's element,
      was removed removes exactly `k` from the node. */
  lemma RightReplaced(h: Tree, r: Tree, k: int)
    requires h.Node? && Balanced(h) && Ordered(h) && LeftLeaning(h.left) && h.element < k
    requires Balanced(r) && Bh(r) == Bh(h.right) && LeftLeaning(r)
    requires Ordered(r) && Elements(r) == Elements(h.right) - {k}
    requires h.red ==> !IsRed(h.left) && !IsRed(r)
    ensures var u := h.(right := r);
      FixUpReady(u) && Bh(u) == Bh(h) && Ordered(u) && Elements(u) == Elements(h) - {k} &&
      (k in Elements(h) <==> k in Elements(h.right))
  {
  }

  /** deleteRight never looks at the node's own colour except to pass it on. */
  lemma DeleteRightColourBlind(a: Tree, b: Tree, k: int)
    requires a.Node? && a.right.Node? && Blacken(a) == Blacken(b)
    ensures Blacken(DeleteRight(a, k).0) == Blacken(DeleteRight(b, k).0)
    ensures DeleteRight(a, k).1 == DeleteRight(b, k).1
  {
    MoveRedRightColourBlind(a, b);
  }

  /** Neither does delete_: recolouring the root changes at most the result's root
      colour. */
  lemma DeleteColourBlind(a: Tree, b: Tree, k: int)
    requires a.Node? && Blacken(a) == Blacken(b)
    ensures Blacken(Delete(a, k).0) == Blacken(Delete(b, k).0)
    ensures Delete(a, k).1 == Delete(b, k).1
  {
    if k < a.element {
      DeleteLeftColourBlind(a, b, k);
    } else {
      DeleteHereOrRightColourBlind(a, b, k);
    }
  }

  /** The branch of delete_ that descends to the left. */
  lemma DeleteLeftColourBlind(a: Tree, b: Tree, k: int)
    requires a.Node? && Blacken(a) == Blacken(b) && k < a.element
    ensures Blacken(Delete(a, k).0) == Blacken(Delete(b, k).0)
    ensures Delete(a, k).1 == Delete(b, k).1
  {
    if a.left.Node? {
      var ha := if !IsRed(a.left) && !IsRed(a.left.left) then MoveRedLeft(a) else a;
      var hb := if !IsRed(b.left) && !IsRed(b.left.left) then MoveRedLeft(b) else b;
      MoveRedLeftColourBlind(a, b);
      FixUpColourBlind(ha.(left := Delete(ha.left, k).0), hb.(left := Delete(hb.left, k).0));
    } else {
      FixUpColourBlind(a, b);
    }
  }

  /** The branch of delete_ that removes at this node or descends to the right. */
  lemma DeleteHereOrRightColourBlind(a: Tree, b: Tree, k: int)
    requires a.Node? && Blacken(a) == Blacken(b) && !(k < a.element)
    ensures Blacken(Delete(a, k).0) == Blacken(Delete(b, k).0)
    ensures Delete(a, k).1 == Delete(b, k).1
  {
    var ha := if IsRed(a.left) then RotateRight(a) else a;
    var hb := if IsRed(b.left) then RotateRight(b) else b;
    if IsRed(a.left) {
      RotateRightColourBlind(a, b);
    }
    if ha.right.Node? {
      DeleteRightColourBlind(ha, hb, k);
      FixUpColourBlind(DeleteRight(ha, k).0, DeleteRight(hb, k).0);
    } else {
      FixUpColourBlind(ha, hb);
    }
  }

  /** Delete at the root of a complete tree: the root may be black above two
      black children, a shape `delete_` is not otherwise handed, but as the
      result does not depend on the root's colour it behaves as if the root were
      red. After the root is blackened the tree is a complete tree again, holding
      the old elements without `k`, and the flag says whether `k` was present. */
  lemma DeleteFromRoot(t: Tree, k: int)
    requires t.Node? && IsLlrb(t)
    ensures var (r, d) := Delete(t, k);
      IsLlrb(Blacken(r)) && Elements(r) == Elements(t) - {k} && (d <==> k in Elements(t))
  {
    if IsRed(t.left) {
      DeleteCorrect(t, k);
    } else {
      var u := t.(red := true);
      assert SpareRed(u);
      DeleteCorrect(u, k);
      DeleteColourBlind(t, u, k);
      var r := Delete(u, k).0;
      assert Ordered(Blacken(r)) && Balanced(Blacken(r)) && LeftLeaning(Blacken(r));
    }
  }
}
