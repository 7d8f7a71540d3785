# Ropes: a verified model of an immutable rope

This project models `ropes.Rope`, a string held as a binary tree. Each leaf
holds a literal string. Each internal node stands for the concatenation of
its left and right children. Every node caches its length `n` and its
height `h`. The model covers the two constructors, indexed lookup
(`charAt`) and rebalancing (`balance` and `makeABalancedTree`).

Layout:

- `rope.dfy`, module `Ropes`: the `Rope` datatype with its cached `h` and
  `n`, the `WellFormed` invariant the constructors establish, the meaning
  functions `Content` (the string a rope stands for) and `Leaves` (its
  leaves, left to right), the constructors `NewLeaf` and `NewNode`, and
  `CharAt`.
- `balance.dfy`, module `Balancing`: the stack-based flatten loop of
  `balance` as the method `Balance`, and the midpoint rebuild
  `MakeBalancedTree` with its height and optimality lemmas.
- `log2.dfy`, module `Log2`: `Pow2` and `CeilLog2`. `CeilLog2(n)` is proved
  to be the least `k` with `n <= 2^k`.
- `examples.dfy`, module `RopeExamples`: small worked ropes.

Modelling decisions:

- A Java `Rope` is either a leaf (string set, children null) or an internal
  node (two children, string null). The datatype keeps these two cases
  apart, and both carry the cached `h` and `n` as fields.
- `WellFormed(r)` says the cached fields agree with the structure. Java
  builds every rope through the two constructors and keeps the fields
  private, so every Java rope is well formed. `WellFormedIsConstructed`
  shows that the well-formed values are exactly what `NewLeaf` and
  `NewNode` build. `CharAt` and `Balance` therefore require `WellFormed`.
- `charAt` is total over `int` and has two ways to fail. An index `>= n`
  raises the rope's own exception (`IndexExceedsLength`). A negative index
  passes the `index < getN()` test. It then always descends left, because
  `leftRope.getN() > index` holds, and it fails inside the leaf string's
  own `charAt` (`StringIndexOutOfBounds`). Both are out-of-range failures,
  but Java raises two different exceptions: `Exception` at
  src/ropes/Rope.java:115, and `StringIndexOutOfBoundsException` from
  `String.charAt` at src/ropes/Rope.java:106. The model keeps them apart.
- A leaf string is a `JavaString`, a sequence of `Char16` values. Each
  value is one UTF-16 code unit, as a Java `char` is, and lone surrogates
  are allowed. `String.length()` (src/ropes/Rope.java:30) and
  `String.charAt` (src/ropes/Rope.java:106) count and index code units, so
  a character outside the Basic Multilingual Plane takes two positions
  (`RopeExamples.SurrogatePairLookup`).
- `charAt` and the flatten loop use `getH() == 0` to recognise a leaf, and
  the model does the same. `HeightZeroIffLeaf` is what makes that test
  sound.
- The work stack of `balance` is a sequence whose top is element 0. Push
  prepends and pop drops the head. The loop's measure is the total node
  count of the stack.
- The Javadoc of `balance` (src/ropes/Rope.java:120-123) describes the
  result as a tree whose ropes on the same level all have the same height.
  The midpoint split does not give that: over three leaves it puts a leaf
  beside a node (`RopeExamples.ThreeLeavesSiblingHeightsDiffer`). What the
  model proves instead is that every node's children differ in height by
  at most one (`HeightBalanced`), that the height is `ceil(log2 L)` for `L`
  leaves, and that no well-formed tree over the same leaves is lower.

## Model

| member | source | states |
|---|---|---|
| `Ropes.NewLeaf` | src/ropes/Rope.java:28-34 | A leaf built from `s` is well formed and has height 0 and length `|s|`. It stands for `s` and is its own only leaf. |
| `Ropes.NewNode` | src/ropes/Rope.java:43-49 | An internal node has length `left.n + right.n` and height `1 + max(left.h, right.h)`, so its height is at least 1. It is well formed when both children are. Its content is the left content followed by the right content, and the same holds for its leaves. |
| `Ropes.WellFormedIsConstructed` | src/ropes/Rope.java:28-49 | Every rope whose cached fields are consistent is exactly what one of the two constructors builds from its parts. |
| `Ropes.HeightZeroIffLeaf` | src/ropes/Rope.java:43-45 | In a well-formed rope, `h == 0` holds exactly for leaves. This makes the `getH() == 0` leaf tests sound. |
| `Ropes.LengthIsContentLength` | src/ropes/Rope.java:28-49 | The cached `n` equals the length, in UTF-16 code units, of the string the rope stands for. The proof is by induction over the tree: the leaf case is line 30 and the node case is line 44. |
| `Ropes.Leaves` | src/ropes/Rope.java:131-143 | The left-to-right leaf sequence is never empty. It holds only leaves, and they are well formed when the rope is. |
| `Ropes.ContentIsConcatOfLeaves` | src/ropes/Rope.java:7-11 | A rope's content is the concatenation of its leaf strings, left to right. |
| `Ropes.SameLeavesSameContent` | src/ropes/Rope.java:144 | Two ropes with the same leaves in the same order stand for the same string. |
| `Ropes.LeafCountBound` | src/ropes/Rope.java:45 | A well-formed rope of height `h` has at most `2^h` leaves. |
| `Ropes.CharAt` | src/ropes/Rope.java:103-117 | For `0 <= index < n` the result is the character at `index` of the rope's content. For `index >= n` it is the out-of-range error. For a negative index it is the leaf string's index error. |
| `Ropes.CharAtDefinedIff` | src/ropes/Rope.java:104-116 | Lookup succeeds exactly when `0 <= index < n`. |
| `Balancing.MakeBalancedTree` | src/ropes/Rope.java:155-162 | On a non-empty list it returns a tree whose leaves are the leaves of the list elements, in order. A one-element list returns that element itself. The tree is well formed when every element is. |
| `Balancing.MakeBalancedTreeHeight` | src/ropes/Rope.java:159-160 | Over `L` leaves, the midpoint rebuild has height `ceil(log2 L)`, and every node's children differ in height by at most one. |
| `Balancing.MakeBalancedTreeMinimal` | src/ropes/Rope.java:119-126 | No well-formed tree over the same leaves has a smaller height than the rebuilt tree. |
| `Balancing.PopLeaf` | src/ropes/Rope.java:133-135 | Popping a leaf from the top of the stack moves exactly that leaf to the output. It keeps the order of the remaining leaves and lowers the stack's node count. |
| `Balancing.ExpandNode` | src/ropes/Rope.java:136-142 | Replacing an internal node on top of the stack by its left child above its right child keeps the stack's leaf sequence and its well-formedness. It lowers the node count. |
| `Balancing.Balance` | src/ropes/Rope.java:127-146 | The flatten loop keeps `output ++ leaves(stack, top first) == Leaves(r)` and terminates. The result is the midpoint rebuild over `Leaves(r)`. It is well formed and height-balanced, with the same leaves, content and length as `r`. Its height is `ceil(log2 L)` and is never above `r`'s height. |
| `Balancing.RebuiltTreeFacts` | src/ropes/Rope.java:144 | The rebuild over a rope's own leaves is well formed and height-balanced. It keeps the content, the length and the leaf order. Its height is `ceil(log2 L)` and never above the original's height. |
| `Balancing.BalanceIdempotent` | src/ropes/Rope.java:127-146 | Balancing the result of a balance gives the same tree back. |
| `RopeExamples.ThreeLeavesLookup` | src/ropes/Rope.java:103-117 | In `((a b) c)` over three two-unit leaf strings (such as "ab", "cd", "ef"), index 4 is the first unit of `c`. Index 6 is out of range, and index -1 fails in the leaf string. |
| `RopeExamples.SurrogatePairLookup` | src/ropes/Rope.java:28-34 | A leaf over U+1F600 (the surrogate pair D83D DE00) has length 2, and index 1 is the low surrogate DE00. |
| `RopeExamples.EmptyLeafLookup` | src/ropes/Rope.java:104-115 | An empty leaf has no valid index. |
| `RopeExamples.LeftChainRebalanced` | src/ropes/Rope.java:127-146 | A left-leaning chain of four leaves, of height 3, balances to height 2 with the same content. |
| `RopeExamples.ThreeLeavesSiblingHeightsDiffer` | src/ropes/Rope.java:120-123 | Over three leaves, the rebuilt root has a leaf (height 0) beside a node (height 1). |

## Left out

- Reference identity: the Java balanced tree reuses the original leaf objects. Here leaves are values, so "the same leaf" means an equal value.
- `getAssociatedString`, `getLeftRope` and `getRightRope` return `null` on the wrong kind of node. The datatype's destructors make those cases impossible to express, so there is nothing to model beyond pattern matching. `getH` and `getN` are the fields `h` and `n`.
- The literal text of the exception message at src/ropes/Rope.java:115. It is the single value `IndexExceedsLength`.
- Java `int` overflow of the cached `n` and `h`. They are unbounded `nat`.
- The internals of `java.util.Stack`, `ArrayList` and `List.subList`. The stack, the output list and the sublists are sequences.
- `MakeBalancedTree` requires a non-empty list. On an empty list the Java method recurses until the call stack overflows. `balance` never passes one.
