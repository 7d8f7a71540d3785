/** Small ropes worked through lookup and rebalancing. */
module RopeExamples {
  import opened Log2
  import opened Ropes
  import opened Balancing

  /** Three leaf strings, built as ((a b) c). */
  function ThreeLeaves(a: JavaString, b: JavaString, c: JavaString): (r: Rope)
    ensures WellFormed(r) && r.n == |a| + |b| + |c| && r.h == 2
    ensures Content(r) == a + b + c
    ensures Leaves(r) == [NewLeaf(a), NewLeaf(b), NewLeaf(c)]
  {
    NewNode(NewNode(NewLeaf(a), NewLeaf(b)), NewLeaf(c))
  }

  /** The left-leaning chain (((a b) c) d) over any four leaf strings. */
  function LeftChain(a: JavaString, b: JavaString, c: JavaString, d: JavaString): (r: Rope)
    ensures WellFormed(r) && r.h == 3
    ensures Content(r) == a + b + c + d
    ensures |Leaves(r)| == 4
  {
    NewNode(NewNode(NewNode(NewLeaf(a), NewLeaf(b)), NewLeaf(c)), NewLeaf(d))
  }

  /** Over three two-unit leaves ("ab", "cd", "ef"), index 4 is the first unit of the third leaf. */
  lemma ThreeLeavesLookup(a: JavaString, b: JavaString, c: JavaString)
    requires |a| == 2 && |b| == 2 && |c| == 2
    ensures CharAt(ThreeLeaves(a, b, c), 4) == Ok(c[0])
    ensures CharAt(ThreeLeaves(a, b, c), 6) == Err(IndexExceedsLength)
    ensures CharAt(ThreeLeaves(a, b, c), -1) == Err(StringIndexOutOfBounds)
  {
    assert (a + b + c)[4] == c[0];
  }

  /**
   * U+1F600 is the surrogate pair D83D DE00: a leaf over it has length 2,
   * and index 1 is the low surrogate.
   */
  lemma SurrogatePairLookup()
    ensures NewLeaf([0xD83D, 0xDE00]).n == 2
    ensures CharAt(NewLeaf([0xD83D, 0xDE00]), 1) == Ok(0xDE00)
  {
  }

  /** Balancing the chain lowers it from height 3 to height 2 and keeps its content. */
  lemma LeftChainRebalanced(a: JavaString, b: JavaString, c: JavaString, d: JavaString)
    ensures var t := MakeBalancedTree(Leaves(LeftChain(a, b, c, d)));
      t.h == 2 && Content(t) == a + b + c + d
  {
    RebuiltTreeFacts(LeftChain(a, b, c, d));
    assert CeilLog2(4) == 2 by {
      assert CeilLog2(2) == 1 + CeilLog2(1);
    }
  }

  /** An empty leaf has no valid index. */
  lemma EmptyLeafLookup()
    ensures CharAt(NewLeaf([]), 0) == Err(IndexExceedsLength)
  {
  }

  /**
   * Over three leaves the midpoint split puts a single leaf (height 0) beside
   * a node (height 1): two ropes on the same level with different heights.
   */
  lemma ThreeLeavesSiblingHeightsDiffer(a: JavaString, b: JavaString, c: JavaString)
    ensures var t := MakeBalancedTree(Leaves(ThreeLeaves(a, b, c)));
      t.Node? && t.left.h == 0 && t.right.h == 1
  {
    var x, y, z := NewLeaf(a), NewLeaf(b), NewLeaf(c);
    var ls := Leaves(ThreeLeaves(a, b, c));
    assert ls[..1] == [x] && ls[1..] == [y, z];
    assert [y, z][..1] == [y] && [y, z][1..] == [z];
  }
}
