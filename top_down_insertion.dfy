/** Insert as written (`Insertion.InsertTopDown`) combined with delete_. The
    top-down insertion keeps 4-nodes (a black node with two red children) in the
    tree, a shape the 2-3 deletion does not expect. Concrete runs of the public
    operations show the tree breaking its invariant and then losing an element
    that was never deleted. */
module TopDownInsertion {
  import opened Nodes
  import opened Rotations
  import Insertion
  import Deletion

  /** The public Insert with insert as written: insert, then blacken the root. */
  function AddTopDown(t: Tree, x: int): (r: Tree)
    ensures r.Node? && !r.red && Elements(r) == Elements(t) + {x}
  {
    Blacken(Insertion.InsertTopDown(t, x).0)
  }

  /** The public Delete's handling of the root: nothing to do on an empty tree,
      otherwise delete_ and blacken a remaining root. */
  function Remove(t: Tree, k: int): (r: (Tree, bool))
    ensures !IsRed(r.0) && Elements(r.0) <= Elements(t)
  {
    if t.Nil? then (Nil, false) else (Blacken(Deletion.Delete(t, k).0), Deletion.Delete(t, k).1)
  }

  /** Three insertions, 2, 1 and 3, leave a node with two red children at the
      root: the tree is no longer left-leaning, although the tree it was inserted
      into was. */
  lemma TopDownBreaksShape()
    ensures var t := AddTopDown(AddTopDown(Nil, 2), 1);
      IsLlrb(t) && !IsLlrb(AddTopDown(t, 3))
  {
    var t1 := AddTopDown(Nil, 2);
    assert t1 == Node(2, false, Nil, Nil);
    var t2 := AddTopDown(t1, 1);
    assert t2 == Node(2, false, Node(1, true, Nil, Nil), Nil);
    var t3 := AddTopDown(t2, 3);
    assert t3 == Node(2, false, Node(1, true, Nil, Nil), Node(3, true, Nil, Nil));
  }

  const T2: Tree := Node(2, false, Node(1, true, Nil, Nil), Nil)
  const T3: Tree := Node(2, false, Node(1, true, Nil, Nil), Node(10, true, Nil, Nil))
  const T4: Tree := Node(2, false, Node(1, false, Nil, Nil), Node(10, false, Node(9, true, Nil, Nil), Nil))
  const T5: Tree :=
    Node(2, false, Node(1, false, Nil, Nil), Node(9, false, Node(5, true, Nil, Nil), Node(10, true, Nil, Nil)))
  const U: Tree := Node(5, false, Node(2, false, Nil, Nil), Node(9, false, Nil, Node(10, true, Nil, Nil)))
  const W: Tree := Node(9, false, Node(2, true, Nil, Nil), Nil)

  lemma InsertionsGiveT5()
    ensures AddTopDown(AddTopDown(AddTopDown(AddTopDown(AddTopDown(Nil, 2), 1), 10), 9), 5) == T5
  {
    InsertionsGiveT3();
    InsertingNineGivesT4();
    InsertingFiveGivesT5();
  }

  lemma InsertionsGiveT3()
    ensures AddTopDown(AddTopDown(AddTopDown(Nil, 2), 1), 10) == T3
  {
    assert AddTopDown(Nil, 2) == Node(2, false, Nil, Nil);
    assert AddTopDown(Node(2, false, Nil, Nil), 1) == T2;
  }

  lemma InsertingNineGivesT4()
    ensures AddTopDown(T3, 9) == T4
  {
    assert Insertion.InsertTopDown(Node(10, false, Nil, Nil), 9) ==
           (Node(10, false, Node(9, true, Nil, Nil), Nil), true);
  }

  lemma InsertingFiveGivesT5()
    ensures AddTopDown(T4, 5) == T5
  {
    assert Insertion.InsertTopDown(Node(10, false, Node(9, true, Nil, Nil), Nil), 5) ==
           (Node(9, false, Node(5, true, Nil, Nil), Node(10, true, Nil, Nil)), true);
  }

  lemma DeletingOneGivesU()
    ensures Remove(T5, 1) == (U, true)
  {
  }

  lemma DeletingFiveGivesW()
    ensures Remove(U, 5) == (W, true)
  {
    var right := Node(9, true, Nil, Node(10, true, Nil, Nil));
    assert MoveRedRight(U) == Node(5, true, Node(2, true, Nil, Nil), right);
    assert Min(right) == 9;
    assert Deletion.DeleteMinimum(right) == Nil;
    assert Deletion.DeleteRight(U, 5) == (Node(9, true, Node(2, true, Nil, Nil), Nil), true);
    assert FixUp(Node(9, true, Node(2, true, Nil, Nil), Nil)) == Node(9, true, Node(2, true, Nil, Nil), Nil);
  }

  /** Inserting 2, 1, 10, 9, 5 and then deleting 1 and 5 (both reported deleted)
      leaves a tree without 10, which was inserted and never deleted; the size
      kept by the set, 5 - 2 = 3, no longer matches the 2 elements stored. */
  lemma TopDownLosesElement()
    ensures AddTopDown(AddTopDown(AddTopDown(AddTopDown(AddTopDown(Nil, 2), 1), 10), 9), 5) == T5
    ensures Remove(T5, 1) == (U, true) && Remove(U, 5) == (W, true)
    ensures Elements(T5) == {1, 2, 5, 9, 10} && Elements(W) == {2, 9}
  {
    InsertionsGiveT5();
    DeletingOneGivesU();
    DeletingFiveGivesW();
    ContentsOfT5AndW();
  }

  lemma ContentsOfT5AndW()
    ensures Elements(T5) == {1, 2, 5, 9, 10} && Elements(W) == {2, 9}
  {
  }
}
