/** The signer's merkle root against a top-down definition of the tree, with
    authentication branches. Pair hashing is a parameter; nothing is assumed of it. */
module Merkle {

  type Hasher<!H> = (H, H) -> H

  /** One pass of the loop: pad an odd level with its last node, hash pairs. */
  function Padded<H>(level: seq<H>): (r: seq<H>)
    requires |level| > 0
    ensures |r| % 2 == 0 && |level| <= |r| <= |level| + 1
    ensures forall i :: 0 <= i < |level| ==> r[i] == level[i]
    ensures |r| > |level| ==> r[|level|] == level[|level| - 1]
  {
    if |level| % 2 == 1 then level + [level[|level| - 1]] else level
  }

  function Pairs<H>(pair: Hasher<H>, level: seq<H>): (r: seq<H>)
    requires |level| % 2 == 0
    ensures |r| == |level| / 2
  {
    seq(|level| / 2, i requires 0 <= i < |level| / 2 => pair(level[2 * i], level[2 * i + 1]))
  }

  function Next<H>(pair: Hasher<H>, level: seq<H>): (r: seq<H>)
    requires |level| > 0
    ensures |r| == (|level| + 1) / 2
  {
    Pairs(pair, Padded(level))
  }

  /** The value the level loop computes. */
  function Root<H>(pair: Hasher<H>, level: seq<H>): H
    requires |level| > 0
    decreases |level|
  {
    if |level| == 1 then level[0] else Root(pair, Next(pair, level))
  }

  /** Width of the tree `height` levels above `n` leaves. */
  function Width(n: nat, height: nat): nat
    requires n > 0
  {
    if height == 0 then n else (Width(n, height - 1) + 1) / 2
  }

  lemma {:induction false} WidthPositive(n: nat, height: nat)
    requires n > 0
    ensures 0 < Width(n, height) <= n
  {
    if height > 0 { WidthPositive(n, height - 1); }
  }

  /** Top-down definition of an inner node: its left child, and its right child
      or the left one again where the tree has no right child. */
  function Node<H>(pair: Hasher<H>, leaves: seq<H>, height: nat, pos: nat): H
    requires |leaves| > 0 && pos < Width(|leaves|, height)
  {
    if height == 0 then leaves[pos]
    else
      var left := Node(pair, leaves, height - 1, 2 * pos);
      var right := if 2 * pos + 1 < Width(|leaves|, height - 1)
                   then Node(pair, leaves, height - 1, 2 * pos + 1) else left;
      pair(left, right)
  }

  /** The first height at which one node is left. */
  function Height(n: nat): nat
    requires n > 0
  {
    if n == 1 then 0 else 1 + Height((n + 1) / 2)
  }

  lemma {:induction false} WidthShift(n: nat, height: nat)
    requires n > 0
    ensures Width(n, height + 1) == Width((n + 1) / 2, height)
  {
    if height > 0 { WidthShift(n, height - 1); }
  }

  /** A node over the leaves is the node one level lower over the next level. */
  lemma {:induction false} NodeShift<H>(pair: Hasher<H>, leaves: seq<H>, height: nat, pos: nat)
    requires |leaves| > 0 && pos < Width(|leaves|, height + 1)
    ensures pos < Width(|Next(pair, leaves)|, height)
    ensures Node(pair, leaves, height + 1, pos) == Node(pair, Next(pair, leaves), height, pos)
    decreases height
  {
    WidthShift(|leaves|, height);
    if height > 0 {
      WidthShift(|leaves|, height - 1);
      NodeShift(pair, leaves, height - 1, 2 * pos);
      if 2 * pos + 1 < Width(|leaves|, height) {
        NodeShift(pair, leaves, height - 1, 2 * pos + 1);
      }
    }
  }

  lemma {:induction false} WidthTop(n: nat)
    requires n > 0
    ensures Width(n, Height(n)) == 1
  {
    if n > 1 {
      WidthTop((n + 1) / 2);
      WidthShift(n, Height((n + 1) / 2));
    }
  }

  /** The top node of the tree over a non-empty list. */
  function Top<H>(pair: Hasher<H>, leaves: seq<H>): H
    requires |leaves| > 0
  {
    WidthTop(|leaves|);
    Node(pair, leaves, Height(|leaves|), 0)
  }

  lemma TopStep<H>(pair: Hasher<H>, leaves: seq<H>)
    requires |leaves| > 1
    ensures Top(pair, leaves) == Top(pair, Next(pair, leaves))
  {
    hide Node, Next;
    var next := Next(pair, leaves);
    WidthTop(|leaves|);
    NodeShift(pair, leaves, Height(|next|), 0);
  }

  /** The level loop computes the top node of the tree. */
  lemma {:induction false} RootIsTop<H>(pair: Hasher<H>, leaves: seq<H>)
    requires |leaves| > 0
    ensures Root(pair, leaves) == Top(pair, leaves)
    decreases |leaves|
  {
    hide Next;
    if |leaves| > 1 {
      TopStep(pair, leaves);
      hide Top;
      RootIsTop(pair, Next(pair, leaves));
    }
  }

  /** `merkle_root`: the loop that halves `leaves` until one hash is left. */
  method MerkleRoot<H>(pair: Hasher<H>, zero: H, input: seq<H>) returns (root: H)
    ensures input == [] ==> root == zero
    ensures input != [] ==> root == Top(pair, input)
  {
    if |input| == 0 {
      return zero;
    }
    var leaves := input;
    while |leaves| > 1
      invariant |leaves| > 0 && Root(pair, leaves) == Root(pair, input)
      decreases |leaves|
    {
      ghost var level := leaves;
      if |leaves| % 2 == 1 {
        var last := leaves[|leaves| - 1];
        leaves := leaves + [last];
      }
      leaves := Pairs(pair, leaves);
      assert leaves == Next(pair, level);
    }
    RootIsTop(pair, input);
    root := leaves[0];
  }

  /** The sibling of a node on its own padded level. */
  function Sibling(i: nat): nat { if i % 2 == 0 then i + 1 else i - 1 }

  /** Siblings met on the way from leaf `i` to the root. */
  function Branch<H>(pair: Hasher<H>, level: seq<H>, i: nat): (r: seq<H>)
    requires i < |level|
    ensures |r| == Height(|level|)
    decreases |level|
  {
    if |level| == 1 then []
    else [Padded(level)[Sibling(i)]] + Branch(pair, Next(pair, level), i / 2)
  }

  /** What a verifier recomputes from a leaf, its index and a branch. */
  function Fold<H>(pair: Hasher<H>, node: H, i: nat, branch: seq<H>): H
    decreases |branch|
  {
    if branch == [] then node
    else if i % 2 == 0 then Fold(pair, pair(node, branch[0]), i / 2, branch[1..])
    else Fold(pair, pair(branch[0], node), i / 2, branch[1..])
  }

  lemma FoldStep<H>(pair: Hasher<H>, node: H, i: nat, sibling: H, rest: seq<H>)
    ensures Fold(pair, node, i, [sibling] + rest)
         == Fold(pair, if i % 2 == 0 then pair(node, sibling) else pair(sibling, node), i / 2, rest)
  {
    assert ([sibling] + rest)[1..] == rest;
  }

  lemma ParentOf<H>(pair: Hasher<H>, leaves: seq<H>, i: nat)
    requires i < |leaves| && |leaves| > 1
    ensures Sibling(i) < |Padded(leaves)|
    ensures i % 2 == 0 ==> Next(pair, leaves)[i / 2] == pair(leaves[i], Padded(leaves)[Sibling(i)])
    ensures i % 2 == 1 ==> Next(pair, leaves)[i / 2] == pair(Padded(leaves)[Sibling(i)], leaves[i])
  {
  }

  /** Every leaf's branch folds back to the root. */
  lemma {:induction false} BranchFoldsToRoot<H>(pair: Hasher<H>, leaves: seq<H>, i: nat)
    requires i < |leaves|
    ensures Fold(pair, leaves[i], i, Branch(pair, leaves, i)) == Root(pair, leaves)
    decreases |leaves|
  {
    if |leaves| > 1 {
      var next, sibling := Next(pair, leaves), Padded(leaves)[Sibling(i)];
      ParentOf(pair, leaves, i);
      hide Next, Padded;
      BranchFoldsToRoot(pair, next, i / 2);
      FoldStep(pair, leaves[i], i, sibling, Branch(pair, next, i / 2));
    }
  }

  /** The two nodes hashed at place `j` of a level. */
  function Children<H>(level: seq<H>, j: nat): (H, H)
    requires |level| > 0 && 2 * j + 1 < |Padded(level)|
  {
    (Padded(level)[2 * j], Padded(level)[2 * j + 1])
  }

  /** Different nodes under one parent at place `j` of two levels. */
  ghost predicate CollideAt<H>(pair: Hasher<H>, a: seq<H>, b: seq<H>, j: nat)
    requires |a| == |b| > 0 && 2 * j + 1 < |Padded(a)|
  {
    var x, y := Children(a, j), Children(b, j);
    x != y && pair(x.0, x.1) == pair(y.0, y.1)
  }

  /** Somewhere the trees over two lists hash different nodes at one place to
      the same parent. */
  ghost predicate TreesCollide<H>(pair: Hasher<H>, a: seq<H>, b: seq<H>)
    requires |a| == |b| > 0
    decreases |a|
  {
    |a| > 1 && ((exists j: nat :: 2 * j + 1 < |Padded(a)| && CollideAt(pair, a, b, j))
                || TreesCollide(pair, Next(pair, a), Next(pair, b)))
  }

  /** Equal levels above come from equal levels, or two places collide. */
  lemma NextInjective<H>(pair: Hasher<H>, a: seq<H>, b: seq<H>)
    requires |a| == |b| > 0 && Next(pair, a) == Next(pair, b)
    ensures a == b || exists j: nat :: 2 * j + 1 < |Padded(a)| && CollideAt(pair, a, b, j)
  {
    if a != b {
      var k :| 0 <= k < |a| && a[k] != b[k];
      var j: nat := k / 2;
      assert Next(pair, a)[j] == pair(Children(a, j).0, Children(a, j).1);
      assert Next(pair, b)[j] == pair(Children(b, j).0, Children(b, j).1);
      assert CollideAt(pair, a, b, j);
    }
  }

  /** Lists of one length with one root are the same list exactly when their
      trees do not collide. */
  lemma {:induction false} RootBindsLeaves<H>(pair: Hasher<H>, a: seq<H>, b: seq<H>)
    requires |a| == |b| > 0 && Root(pair, a) == Root(pair, b)
    ensures a == b <==> !TreesCollide(pair, a, b)
    decreases |a|
  {
    if |a| > 1 {
      RootBindsLeaves(pair, Next(pair, a), Next(pair, b));
      if Next(pair, a) == Next(pair, b) {
        NextInjective(pair, a, b);
      }
    }
  }

  /** What the fold hashes first for the node at `i`. */
  function Claimed<H>(i: nat, node: H, sibling: H): (H, H) {
    if i % 2 == 0 then (node, sibling) else (sibling, node)
  }

  /** On its way up the fold hashes a pair that is not the tree's pair at that
      place but has the same hash. */
  ghost predicate FoldCollides<H>(pair: Hasher<H>, leaves: seq<H>, i: nat, node: H, branch: seq<H>)
    requires i < |leaves| && |branch| == Height(|leaves|)
    decreases |leaves|
  {
    |leaves| > 1
    && var claimed, actual := Claimed(i, node, branch[0]), Children(leaves, i / 2);
       var up := pair(claimed.0, claimed.1);
       (claimed != actual && up == pair(actual.0, actual.1))
       || FoldCollides(pair, Next(pair, leaves), i / 2, up, branch[1..])
  }

  /** A leaf and its sibling are the two nodes hashed at their place. */
  lemma OwnChildren<H>(pair: Hasher<H>, leaves: seq<H>, i: nat)
    requires i < |leaves| && |leaves| > 1
    ensures Sibling(i) < |Padded(leaves)|
    ensures Children(leaves, i / 2) == Claimed(i, leaves[i], Padded(leaves)[Sibling(i)])
    ensures Next(pair, leaves)[i / 2] == pair(Children(leaves, i / 2).0, Children(leaves, i / 2).1)
  {
  }

  lemma SplitHead<H>(b: seq<H>, head: H, rest: seq<H>)
    requires b != []
    ensures b == [head] + rest <==> b[0] == head && b[1..] == rest
  {
    assert b == [b[0]] + b[1..];
    assert ([head] + rest)[1..] == rest;
  }

  lemma SameBranch<H>(pair: Hasher<H>, leaves: seq<H>, i: nat, node: H, branch: seq<H>)
    requires i < |leaves| && |leaves| > 1 && |branch| == Height(|leaves|)
    ensures node == leaves[i] && branch == Branch(pair, leaves, i)
       <==> Claimed(i, node, branch[0]) == Children(leaves, i / 2)
            && branch[1..] == Branch(pair, Next(pair, leaves), i / 2)
  {
    OwnChildren(pair, leaves, i);
    SplitHead(branch, Padded(leaves)[Sibling(i)], Branch(pair, Next(pair, leaves), i / 2));
    hide Next, Padded, Children, Sibling;
  }

  /** A branch of the right length that folds to the root carries the leaf and
      its own siblings exactly when the fold does not collide with the tree. */
  lemma {:induction false} BranchBindsLeaf<H>(pair: Hasher<H>, leaves: seq<H>, i: nat, node: H, branch: seq<H>)
    requires i < |leaves| && |branch| == Height(|leaves|)
    requires Fold(pair, node, i, branch) == Root(pair, leaves)
    ensures node == leaves[i] && branch == Branch(pair, leaves, i) <==> !FoldCollides(pair, leaves, i, node, branch)
    decreases |leaves|
  {
    if |leaves| > 1 {
      var next, claimed := Next(pair, leaves), Claimed(i, node, branch[0]);
      var up := pair(claimed.0, claimed.1);
      assert branch == [branch[0]] + branch[1..];
      FoldStep(pair, node, i, branch[0], branch[1..]);
      OwnChildren(pair, leaves, i);
      SameBranch(pair, leaves, i, node, branch);
      hide Next, Padded, Children, Branch;
      BranchBindsLeaf(pair, next, i / 2, up, branch[1..]);
    }
  }

  /** The root does not determine the length: repeating the last leaf of an
      odd list of three or more leaves the root unchanged. */
  lemma DuplicateLastKeepsRoot<H>(pair: Hasher<H>, leaves: seq<H>)
    requires |leaves| >= 3 && |leaves| % 2 == 1
    ensures Root(pair, leaves + [leaves[|leaves| - 1]]) == Root(pair, leaves)
  {
    var longer := leaves + [leaves[|leaves| - 1]];
    assert Padded(longer) == Padded(leaves) == longer;
    assert Next(pair, longer) == Next(pair, leaves);
  }
}
