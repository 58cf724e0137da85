/** The in-order walk behind `All`. The callback (`yield` in the source, `visit`
    here) is a pure predicate on elements; a walk is described by the elements it
    handed to the callback, in the order it handed them, and by the walk's own
    result. */
module Traversal {
  import opened Nodes

  /** `visit` accepts every element of `s`. */
  ghost predicate AllAccepted(s: seq<int>, visit: int -> bool)
  {
    forall i :: 0 <= i < |s| ==> visit(s[i])
  }

  /** `calls` is `s` up to and including the first element `visit` refuses. */
  ghost predicate StoppedAtFirstRefusal(s: seq<int>, visit: int -> bool, calls: seq<int>)
  {
    0 < |calls| <= |s| && calls == s[..|calls|] && !visit(calls[|calls| - 1]) &&
    forall i :: 0 <= i < |calls| - 1 ==> visit(calls[i])
  }

  /** all: the left subtree, then the node's element, then the right subtree,
      giving up, with false, as soon as one of them does. */
  function All(t: Tree, visit: int -> bool): (r: (seq<int>, bool))
    ensures r.1 <==> AllAccepted(InOrder(t), visit)
    ensures r.1 ==> r.0 == InOrder(t)
    ensures !r.1 ==> StoppedAtFirstRefusal(InOrder(t), visit, r.0)
  {
    if t.Nil? then
      ([], true)
    else
      var (a, ok) := All(t.left, visit);
      if !ok then
        RefusedOnLeft(InOrder(t.left), t.element, InOrder(t.right), visit, a);
        (a, false)
      else if !visit(t.element) then
        RefusedAtNode(InOrder(t.left), t.element, InOrder(t.right), visit);
        (a + [t.element], false)
      else
        var (b, ok') := All(t.right, visit);
        AcceptedUpToRight(InOrder(t.left), t.element, InOrder(t.right), visit, b, ok');
        (a + [t.element] + b, ok')
  }

  /** A walk that stops in the left part stops at the same place in the whole. */
  lemma RefusedOnLeft(a: seq<int>, e: int, b: seq<int>, visit: int -> bool, calls: seq<int>)
    requires StoppedAtFirstRefusal(a, visit, calls)
    ensures StoppedAtFirstRefusal(a + [e] + b, visit, calls)
    ensures !AllAccepted(a + [e] + b, visit)
  {
    var s := a + [e] + b;
    assert s[..|calls|] == a[..|calls|];
    assert s[|calls| - 1] == calls[|calls| - 1];
  }

  /** A walk through an accepted left part that is refused at the node stops there. */
  lemma RefusedAtNode(a: seq<int>, e: int, b: seq<int>, visit: int -> bool)
    requires AllAccepted(a, visit) && !visit(e)
    ensures StoppedAtFirstRefusal(a + [e] + b, visit, a + [e])
    ensures !AllAccepted(a + [e] + b, visit)
  {
    var s := a + [e] + b;
    assert s[..|a| + 1] == a + [e];
    assert s[|a|] == e;
  }

  /** After an accepted left part and node, the walk of the whole ends as the walk
      of the right part does. */
  lemma AcceptedUpToRight(a: seq<int>, e: int, b: seq<int>, visit: int -> bool,
                          calls: seq<int>, done: bool)
    requires AllAccepted(a, visit) && visit(e)
    requires done <==> AllAccepted(b, visit)
    requires done ==> calls == b
    requires !done ==> StoppedAtFirstRefusal(b, visit, calls)
    ensures done <==> AllAccepted(a + [e] + b, visit)
    ensures !done ==> StoppedAtFirstRefusal(a + [e] + b, visit, a + [e] + calls)
  {
    var s := a + [e] + b;
    var n := |a| + 1;
    if !AllAccepted(b, visit) {
      var i :| 0 <= i < |b| && !visit(b[i]);
      assert s[n + i] == b[i];
    }
    if !done {
      assert s[..n + |calls|] == a + [e] + calls;
      assert s[n + |calls| - 1] == calls[|calls| - 1];
      forall i | 0 <= i < n + |calls| - 1 ensures visit((a + [e] + calls)[i]) {
        if i >= n {
          assert (a + [e] + calls)[i] == calls[i - n];
        }
      }
    }
  }

  /** A callback that breaks out at the element of rank `k` (it accepts exactly
      the smaller elements) makes a walk over a search tree stop after exactly
      `k + 1` calls, the first `k + 1` elements in ascending order. */
  lemma StopAfter(t: Tree, k: nat)
    requires Ordered(t) && k < |InOrder(t)|
    ensures var s := InOrder(t);
      All(t, x => x < s[k]) == (s[..k + 1], false)
  {
    var s := InOrder(t);
    OrderedInOrder(t);
    var visit := x => x < s[k];
    var r := All(t, visit);
    assert !visit(s[k]);
    StopAtRank(s, k, visit, r.0);
  }

  /** On an ascending sequence, stopping at the first element not below `s[k]`
      means stopping right after `s[k]`. */
  lemma StopAtRank(s: seq<int>, k: nat, visit: int -> bool, calls: seq<int>)
    requires StrictlyAscending(s) && k < |s|
    requires forall x :: visit(x) <==> x < s[k]
    requires StoppedAtFirstRefusal(s, visit, calls)
    ensures calls == s[..k + 1]
  {
    var m := |calls|;
    assert calls[m - 1] == s[m - 1];
  }

  /** What a range loop over a set of `elements` may be handed: stored elements
      in strictly ascending order, none skipped below the last one; all but the
      last accepted, the last refused if `visit` refuses anything, and all of
      them if `visit` accepts every one. */
  ghost predicate SortedWalk(elements: set<int>, visit: int -> bool, calls: seq<int>)
  {
    StrictlyAscending(calls) &&
    (forall i :: 0 <= i < |calls| ==> calls[i] in elements) &&
    (forall x :: x in elements && 0 < |calls| && x < calls[|calls| - 1] ==> x in calls) &&
    (forall i :: 0 <= i < |calls| - 1 ==> visit(calls[i])) &&
    ((exists x :: x in elements && !visit(x)) ==> 0 < |calls| && !visit(calls[|calls| - 1])) &&
    ((forall x :: x in elements ==> visit(x)) ==>
       |calls| == |elements| && forall x :: x in elements ==> x in calls)
  }

  /** Over a search tree the walk is a sorted walk of the stored elements. */
  lemma WalkOfSearchTree(t: Tree, visit: int -> bool)
    requires Ordered(t)
    ensures SortedWalk(Elements(t), visit, All(t, visit).0)
  {
    OrderedInOrder(t);
    InOrderHasElements(t);
    var r := All(t, visit);
    WalkOfAscending(InOrder(t), Elements(t), visit, r.0, r.1);
  }

  /** Any walk result that meets the contract of `All` on an ascending sequence
      listing the set `elements` is a sorted walk of `elements`. */
  lemma WalkOfAscending(s: seq<int>, elements: set<int>, visit: int -> bool, calls: seq<int>, done: bool)
    requires StrictlyAscending(s) && |s| == |elements|
    requires forall x :: x in s <==> x in elements
    requires done <==> AllAccepted(s, visit)
    requires done ==> calls == s
    requires !done ==> StoppedAtFirstRefusal(s, visit, calls)
    ensures SortedWalk(elements, visit, calls)
  {
    var m := |calls|;
    assert calls == s[..m];
    PrefixWithin(s, elements, calls);
    PrefixSkipsNothing(s, elements, calls);
    if exists x :: x in elements && !visit(x) {
      var x :| x in elements && !visit(x);
      var j :| 0 <= j < |s| && s[j] == x;
      assert !AllAccepted(s, visit);
    }
    if forall x :: x in elements ==> visit(x) {
      forall i | 0 <= i < |s| ensures visit(s[i]) {
        assert s[i] in s;
      }
      assert AllAccepted(s, visit);
    }
  }

  /** A prefix of an ascending listing of `elements` is ascending and lists
      elements only. */
  lemma PrefixWithin(s: seq<int>, elements: set<int>, calls: seq<int>)
    requires StrictlyAscending(s) && (forall x :: x in s <==> x in elements)
    requires |calls| <= |s| && calls == s[..|calls|]
    ensures StrictlyAscending(calls)
    ensures forall i :: 0 <= i < |calls| ==> calls[i] in elements
  {
    forall i | 0 <= i < |calls| ensures calls[i] in elements {
      assert calls[i] == s[i] && s[i] in s;
    }
  }

  /** A prefix of an ascending listing of `elements` holds every element below
      its last one. */
  lemma PrefixSkipsNothing(s: seq<int>, elements: set<int>, calls: seq<int>)
    requires StrictlyAscending(s) && (forall x :: x in s <==> x in elements)
    requires |calls| <= |s| && calls == s[..|calls|]
    ensures forall x :: x in elements && 0 < |calls| && x < calls[|calls| - 1] ==> x in calls
  {
    var m := |calls|;
    forall x | x in elements && 0 < m && x < calls[m - 1] ensures x in calls {
      var j :| 0 <= j < |s| && s[j] == x;
      assert calls[m - 1] == s[m - 1];
      assert j < m - 1;
      assert calls[j] == x;
    }
  }
}
