/** The sorted set: a left-leaning red-black tree held by its root, together with
    the number of stored elements. The zero value is an empty, usable set. */
module SortedSets {
  import opened Nodes
  import Insertion
  import Deletion
  import Traversal

  class SortedSet {
    var root: Tree
    var size: int

    /** The root is the root of a complete tree (ordered, balanced, left-leaning,
        black), and `size` counts its elements. */
    ghost predicate Valid()
      reads this
    {
      IsLlrb(root) && size == |Elements(root)|
    }

    ghost function Contents(): set<int>
      reads this
    {
      Elements(root)
    }

    /** The zero value. */
    constructor ()
      ensures Valid() && Contents() == {}
    {
      root := Nil;
      size := 0;
    }

    /** Insert adds `x` and reports whether it was new; `size` grows by one
        exactly then. */
    method Insert(x: int) returns (inserted: bool)
      requires Valid()
      modifies this
      ensures Valid()
      ensures Contents() == old(Contents()) + {x}
      ensures inserted <==> x !in old(Contents())
      ensures !inserted ==> Contents() == old(Contents())
      ensures size == old(size) + (if inserted then 1 else 0)
    {
      ghost var before := Elements(root);
      var (r, added) := Insertion.Insert(root, x);
      Insertion.InsertFromRoot(root, x);
      root := Blacken(r);
      assert Elements(root) == before + {x};
      inserted := added;
      if inserted {
        assert |before + {x}| == |before| + 1;
        size := size + 1;
      } else {
        assert before + {x} == before;
      }
    }

    /** Delete removes `x` and reports whether it was present; `size` drops by
        one exactly then. An empty set is left as it is. */
    method Delete(x: int) returns (deleted: bool)
      requires Valid()
      modifies this
      ensures Valid()
      ensures Contents() == old(Contents()) - {x}
      ensures deleted <==> x in old(Contents())
      ensures !deleted ==> Contents() == old(Contents())
      ensures size == old(size) - (if deleted then 1 else 0)
    {
      ghost var before := Elements(root);
      deleted := false;
      if root.Node? {
        var (r, removed) := Deletion.Delete(root, x);
        Deletion.DeleteFromRoot(root, x);
        root := Blacken(r);
        assert Elements(root) == before - {x};
        deleted := removed;
      }
      if deleted {
        assert |before - {x}| == |before| - 1;
        size := size - 1;
      } else {
        assert before - {x} == before;
      }
    }

    /** Contains descends from the root, going left or right by comparison,
        until it meets `x` or a nil link. */
    method Contains(x: int) returns (found: bool)
      requires Valid()
      ensures found <==> x in Contents()
    {
      var t := root;
      while t.Node?
        invariant Ordered(t)
        invariant x in Elements(root) <==> x in Elements(t)
        decreases t
      {
        if x < t.element {
          t := t.left;
        } else if t.element < x {
          t := t.right;
        } else {
          return true;
        }
      }
      return false;
    }

    /** Len is the number of stored elements. */
    function Len(): (n: int)
      reads this
      requires Valid()
      ensures n == |Contents()|
    {
      size
    }

    /** All: the elements a range loop over the set is handed, when the loop body
        (`visit`) says whether to go on. They come in strictly ascending order,
        each a stored element, and no stored element below the last one handed
        over is skipped. Every one but the last was accepted; if the loop refuses
        some element, the last one handed over is refused, and if it accepts
        every element, it is handed all `Len()` of them. */
    function All(visit: int -> bool): (calls: seq<int>)
      reads this
      requires Valid()
      ensures StrictlyAscending(calls)
      ensures forall i :: 0 <= i < |calls| ==> calls[i] in Contents()
      ensures forall x :: x in Contents() && 0 < |calls| && x < calls[|calls| - 1] ==> x in calls
      ensures forall i :: 0 <= i < |calls| - 1 ==> visit(calls[i])
      ensures (exists x :: x in Contents() && !visit(x)) ==> 0 < |calls| && !visit(calls[|calls| - 1])
      ensures (forall x :: x in Contents() ==> visit(x)) ==>
                |calls| == Len() && forall x :: x in Contents() ==> x in calls
    {
      Traversal.WalkOfSearchTree(root, visit);
      var calls := Traversal.All(root, visit).0;
      assert Traversal.SortedWalk(Contents(), visit, calls);
      calls
    }

    /** Clear empties the set: the length is 0 and a walk hands over nothing. */
    method Clear()
      modifies this
      ensures Valid() && Contents() == {} && Len() == 0
      ensures forall visit :: All(visit) == []
    {
      root := Nil;
      size := 0;
    }
  }
}
