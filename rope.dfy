/**
 * An immutable rope: a string stored as a binary tree whose leaves hold
 * literal strings and whose internal nodes stand for the concatenation of
 * their two children. Every node caches its length `n` and its height `h`.
 */
module Ropes {
  import opened Log2

  /** A Java `char`: one UTF-16 code unit, surrogates included. */
  newtype Char16 = x: int | 0 <= x < 0x1_0000

  /**
   * A Java `String` as its UTF-16 code units: `length()` counts them and
   * `charAt` indexes them.
   */
  type JavaString = seq<Char16>

  /** The two ways `charAt` fails. */
  datatype Error =
    | IndexExceedsLength      // the rope's own exception, raised when index >= n
    | StringIndexOutOfBounds  // raised by the leaf string's own lookup, reached only by a negative index

  datatype Result<T> = Ok(value: T) | Err(error: Error)

  /**
   * A leaf owns a string and no children; a node owns two children and no
   * string. Both carry the cached height `h` and length `n`.
   */
  datatype Rope =
    | Leaf(h: nat, n: nat, s: JavaString)
    | Node(h: nat, n: nat, left: Rope, right: Rope)

  function Max(a: nat, b: nat): nat { if a < b then b else a }

  /** The cached fields agree with the structure below them, as the two constructors establish. */
  predicate WellFormed(r: Rope)
  {
    match r
    case Leaf(h, n, s) => h == 0 && n == |s|
    case Node(h, n, l, rr) =>
      WellFormed(l) && WellFormed(rr) && n == l.n + rr.n && h == 1 + Max(l.h, rr.h)
  }

  /** The string a rope stands for. */
  function Content(r: Rope): JavaString
  {
    match r
    case Leaf(_, _, s) => s
    case Node(_, _, l, rr) => Content(l) + Content(rr)
  }

  /** The leaves of a rope, from left to right. */
  function Leaves(r: Rope): (ls: seq<Rope>)
    ensures |ls| >= 1
    ensures AllLeaf(ls)
    ensures WellFormed(r) ==> AllWellFormed(ls)
  {
    match r
    case Leaf(_, _, _) => [r]
    case Node(_, _, l, rr) => Leaves(l) + Leaves(rr)
  }

  /** Number of rope nodes, leaves and internal nodes alike. */
  function Size(r: Rope): nat
  {
    match r
    case Leaf(_, _, _) => 1
    case Node(_, _, l, rr) => 1 + Size(l) + Size(rr)
  }

  predicate AllWellFormed(rs: seq<Rope>)
  {
    forall i :: 0 <= i < |rs| ==> WellFormed(rs[i])
  }

  predicate AllLeaf(rs: seq<Rope>)
  {
    forall i :: 0 <= i < |rs| ==> rs[i].Leaf?
  }

  /** The leaves of a sequence of ropes, the first rope's leaves first. */
  function AllLeaves(rs: seq<Rope>): seq<Rope>
  {
    if rs == [] then [] else Leaves(rs[0]) + AllLeaves(rs[1..])
  }

  /** The concatenated contents of a sequence of ropes. */
  function Concat(rs: seq<Rope>): JavaString
  {
    if rs == [] then [] else Content(rs[0]) + Concat(rs[1..])
  }

  // ---------------------------------------------------------------------
  // Construction
  // ---------------------------------------------------------------------

  /** `Rope(String)`: a leaf over `s`. */
  function NewLeaf(s: JavaString): (r: Rope)
    ensures r.Leaf? && r.h == 0 && r.n == |s|
    ensures WellFormed(r)
    ensures Content(r) == s && Leaves(r) == [r]
  {
    Leaf(0, |s|, s)
  }

  /** `Rope(Rope, Rope)`: the concatenation of two existing ropes. */
  function NewNode(l: Rope, r: Rope): (t: Rope)
    ensures t.Node? && t.left == l && t.right == r
    ensures t.n == l.n + r.n && t.h == 1 + Max(l.h, r.h) && t.h >= 1
    ensures WellFormed(l) && WellFormed(r) ==> WellFormed(t)
    ensures Content(t) == Content(l) + Content(r)
    ensures Leaves(t) == Leaves(l) + Leaves(r)
  {
    Node(Max(l.h + 1, r.h + 1), l.n + r.n, l, r)
  }

  /** Every well-formed rope is what one of the two constructors builds from its parts. */
  lemma WellFormedIsConstructed(r: Rope)
    requires WellFormed(r)
    ensures r.Leaf? ==> r == NewLeaf(r.s)
    ensures r.Node? ==> r == NewNode(r.left, r.right)
  {
  }

  /** `getH() == 0` tells leaves from internal nodes. */
  lemma HeightZeroIffLeaf(r: Rope)
    requires WellFormed(r)
    ensures r.h == 0 <==> r.Leaf?
  {
  }

  /** The cached length is the length of the string the rope stands for. */
  lemma {:induction false} LengthIsContentLength(r: Rope)
    requires WellFormed(r)
    ensures r.n == |Content(r)|
  {
    match r
    case Leaf(_, _, _) =>
    case Node(_, _, l, rr) =>
      LengthIsContentLength(l);
      LengthIsContentLength(rr);
  }

  lemma {:induction false} ConcatAppend(a: seq<Rope>, b: seq<Rope>)
    ensures Concat(a + b) == Concat(a) + Concat(b)
  {
    if a == [] {
      assert a + b == b;
    } else {
      assert (a + b)[1..] == a[1..] + b;
      ConcatAppend(a[1..], b);
    }
  }

  lemma {:induction false} AllLeavesAppend(a: seq<Rope>, b: seq<Rope>)
    ensures AllLeaves(a + b) == AllLeaves(a) + AllLeaves(b)
  {
    if a == [] {
      assert a + b == b;
    } else {
      assert (a + b)[1..] == a[1..] + b;
      AllLeavesAppend(a[1..], b);
    }
  }

  /** A sequence made only of leaves is its own sequence of leaves. */
  lemma {:induction false} AllLeavesOfLeaves(rs: seq<Rope>)
    requires AllLeaf(rs)
    ensures AllLeaves(rs) == rs
  {
    if rs != [] {
      AllLeavesOfLeaves(rs[1..]);
    }
  }

  /** A rope's content is the concatenation of its leaf strings, left to right. */
  lemma {:induction false} ContentIsConcatOfLeaves(r: Rope)
    ensures Concat(Leaves(r)) == Content(r)
  {
    match r
    case Leaf(_, _, s) =>
      assert Concat([r]) == s + Concat([]);
    case Node(_, _, l, rr) =>
      ContentIsConcatOfLeaves(l);
      ContentIsConcatOfLeaves(rr);
      ConcatAppend(Leaves(l), Leaves(rr));
  }

  /** Two ropes with the same leaves in the same order stand for the same string. */
  lemma SameLeavesSameContent(a: Rope, b: Rope)
    requires Leaves(a) == Leaves(b)
    ensures Content(a) == Content(b)
  {
    ContentIsConcatOfLeaves(a);
    ContentIsConcatOfLeaves(b);
  }

  /** A tree of height h has at most 2^h leaves. */
  lemma {:induction false} LeafCountBound(r: Rope)
    requires WellFormed(r)
    ensures |Leaves(r)| <= Pow2(r.h)
  {
    match r
    case Leaf(_, _, _) =>
    case Node(h, _, l, rr) =>
      LeafCountBound(l);
      LeafCountBound(rr);
      Pow2Monotone(l.h, h - 1);
      Pow2Monotone(rr.h, h - 1);
  }

  // ---------------------------------------------------------------------
  // Indexed lookup
  // ---------------------------------------------------------------------

  /**
   * `charAt(index)`: walks from the root to one leaf, going left when the
   * index falls inside the left child and right, shifted by the left
   * child's length, otherwise.
   */
  function CharAt(r: Rope, index: int): (res: Result<Char16>)
    requires WellFormed(r)
    ensures 0 <= index < |Content(r)| ==> res == Ok(Content(r)[index])
    ensures index >= r.n ==> res == Err(IndexExceedsLength)
    ensures index < 0 ==> res == Err(StringIndexOutOfBounds)
    decreases r
  {
    LengthIsContentLength(r);
    if index < r.n then
      if r.h == 0 then
        if 0 <= index then Ok(r.s[index]) else Err(StringIndexOutOfBounds)
      else
        LengthIsContentLength(r.left);
        if r.left.n > index then CharAt(r.left, index)
        else CharAt(r.right, index - r.left.n)
    else
      Err(IndexExceedsLength)
  }

  /** Lookup succeeds exactly on the indices 0 .. n-1. */
  lemma CharAtDefinedIff(r: Rope, index: int)
    requires WellFormed(r)
    ensures CharAt(r, index).Ok? <==> 0 <= index < r.n
  {
    LengthIsContentLength(r);
  }
}
