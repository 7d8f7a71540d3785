/**
 * Rebalancing a rope: flatten it into its ordered leaves with an explicit
 * stack, then rebuild a tree by splitting the leaves at their midpoint.
 */
module Balancing {
  import opened Log2
  import opened Ropes

  /** Every internal node's children differ in height by at most one. */
  predicate HeightBalanced(r: Rope)
  {
    match r
    case Leaf(_, _, _) => true
    case Node(_, _, l, rr) =>
      HeightBalanced(l) && HeightBalanced(rr) && l.h <= rr.h + 1 && rr.h <= l.h + 1
  }

  /**
   * `makeABalancedTree(list)`: one element is returned as it is; otherwise
   * the two halves `list[..|list|/2]` and `list[|list|/2..]` are rebuilt and
   * joined under a new node. An empty list has no base case to reach.
   */
  function MakeBalancedTree(list: seq<Rope>): (t: Rope)
    requires |list| >= 1
    ensures AllWellFormed(list) ==> WellFormed(t)
    ensures Leaves(t) == AllLeaves(list)
    ensures |list| == 1 ==> t == list[0]
    decreases |list|
  {
    if |list| == 1 then
      assert AllLeaves(list) == Leaves(list[0]) + AllLeaves([]);
      list[0]
    else
      var mid := |list| / 2;
      assert list == list[..mid] + list[mid..];
      AllLeavesAppend(list[..mid], list[mid..]);
      NewNode(MakeBalancedTree(list[..mid]), MakeBalancedTree(list[mid..]))
  }

  lemma SliceKeepsLeaves(list: seq<Rope>, i: nat, j: nat)
    requires i <= j <= |list| && AllLeaf(list) && AllWellFormed(list)
    ensures AllLeaf(list[i..j]) && AllWellFormed(list[i..j])
  {
    assert forall k :: 0 <= k < j - i ==> list[i..j][k] == list[i + k];
  }

  /** Over L leaves the rebuilt tree has height ceil(log2 L) and is height-balanced. */
  lemma {:induction false} MakeBalancedTreeHeight(list: seq<Rope>)
    requires |list| >= 1 && AllLeaf(list) && AllWellFormed(list)
    ensures MakeBalancedTree(list).h == CeilLog2(|list|)
    ensures HeightBalanced(MakeBalancedTree(list))
    decreases |list|
  {
    var n := |list|;
    if n >= 2 {
      var mid := n / 2;
      SliceKeepsLeaves(list, 0, mid);
      SliceKeepsLeaves(list, mid, n);
      assert list[0..mid] == list[..mid];
      assert list[mid..n] == list[mid..];
      MakeBalancedTreeHeight(list[..mid]);
      MakeBalancedTreeHeight(list[mid..]);
      CeilLog2Halves(n);
    }
  }

  /** No well-formed tree over the same leaves is lower than the rebuilt one. */
  lemma MakeBalancedTreeMinimal(list: seq<Rope>, t: Rope)
    requires |list| >= 1 && AllLeaf(list) && AllWellFormed(list)
    requires WellFormed(t) && Leaves(t) == list
    ensures MakeBalancedTree(list).h <= t.h
  {
    MakeBalancedTreeHeight(list);
    LeafCountBound(t);
    CeilLog2Least(|list|, t.h);
  }

  /** What the midpoint rebuild over a rope's own leaves gives back. */
  lemma RebuiltTreeFacts(r: Rope)
    requires WellFormed(r)
    ensures var b := MakeBalancedTree(Leaves(r));
      && WellFormed(b) && HeightBalanced(b)
      && Leaves(b) == Leaves(r)
      && Content(b) == Content(r) && b.n == r.n
      && b.h == CeilLog2(|Leaves(r)|) && b.h <= r.h
  {
    var ls := Leaves(r);
    var b := MakeBalancedTree(ls);
    AllLeavesOfLeaves(ls);
    MakeBalancedTreeHeight(ls);
    SameLeavesSameContent(b, r);
    LengthIsContentLength(b);
    LengthIsContentLength(r);
    MakeBalancedTreeMinimal(ls, r);
  }

  /** Total node count of the ropes on the work stack. */
  function StackSize(stack: seq<Rope>): nat
  {
    if stack == [] then 0 else Size(stack[0]) + StackSize(stack[1..])
  }

  /** Popping a leaf off the stack moves it, and only it, to the output. */
  lemma PopLeaf(stack: seq<Rope>)
    requires stack != [] && AllWellFormed(stack) && stack[0].h == 0
    ensures AllLeaves(stack) == [stack[0]] + AllLeaves(stack[1..])
    ensures AllWellFormed(stack[1..])
    ensures StackSize(stack[1..]) < StackSize(stack)
  {
    assert WellFormed(stack[0]);
  }

  /** Pushing a rope onto the stack puts its leaves in front of the stack's leaves. */
  lemma PushLeaves(x: Rope, rest: seq<Rope>)
    ensures AllLeaves([x] + rest) == Leaves(x) + AllLeaves(rest)
  {
    assert ([x] + rest)[1..] == rest;
  }

  lemma PushSize(x: Rope, rest: seq<Rope>)
    ensures StackSize([x] + rest) == Size(x) + StackSize(rest)
  {
    assert ([x] + rest)[1..] == rest;
  }

  lemma PushWellFormed(x: Rope, rest: seq<Rope>)
    requires WellFormed(x) && AllWellFormed(rest)
    ensures AllWellFormed([x] + rest)
  {
    assert forall i :: 1 <= i < |rest| + 1 ==> ([x] + rest)[i] == rest[i - 1];
  }

  /** Replacing an internal node on top by its left child above its right child keeps the leaf order. */
  lemma ExpandNode(stack: seq<Rope>)
    requires stack != [] && AllWellFormed(stack) && stack[0].h != 0
    ensures stack[0].Node?
    ensures var next := [stack[0].left] + ([stack[0].right] + stack[1..]);
      && AllLeaves(next) == AllLeaves(stack)
      && AllWellFormed(next)
      && StackSize(next) < StackSize(stack)
  {
    var top, rest := stack[0], stack[1..];
    assert WellFormed(top);
    assert AllWellFormed(rest);
    PushLeaves(top.right, rest);
    PushLeaves(top.left, [top.right] + rest);
    PushSize(top.right, rest);
    PushSize(top.left, [top.right] + rest);
    PushWellFormed(top.right, rest);
    PushWellFormed(top.left, [top.right] + rest);
  }

  /**
   * `balance()`: a depth-first walk with an explicit stack (its top is
   * `stack[0]`) collects the leaves from left to right, and the midpoint
   * rebuild turns them into a tree of least height.
   */
  method Balance(r: Rope) returns (b: Rope)
    requires WellFormed(r)
    ensures b == MakeBalancedTree(Leaves(r))
    ensures WellFormed(b) && HeightBalanced(b)
    ensures Leaves(b) == Leaves(r)
    ensures Content(b) == Content(r) && b.n == r.n
    ensures b.h == CeilLog2(|Leaves(r)|) && b.h <= r.h
  {
    var stack := [r];
    var ordered: seq<Rope> := [];
    assert AllLeaves([r]) == Leaves(r) + AllLeaves([]);
    while stack != []
      invariant AllWellFormed(stack)
      invariant ordered + AllLeaves(stack) == Leaves(r)
      decreases StackSize(stack)
    {
      var top := stack[0];
      if top.h == 0 {
        PopLeaf(stack);
        ordered := ordered + [top];
        stack := stack[1..];
      } else {
        ExpandNode(stack);
        stack := [top.left] + ([top.right] + stack[1..]);
      }
    }
    assert ordered == Leaves(r);
    b := MakeBalancedTree(ordered);
    RebuiltTreeFacts(r);
  }

  /** Balancing the result of a balance gives the same tree back. */
  lemma BalanceIdempotent(r: Rope)
    ensures MakeBalancedTree(Leaves(MakeBalancedTree(Leaves(r)))) == MakeBalancedTree(Leaves(r))
  {
    AllLeavesOfLeaves(Leaves(r));
  }
}
