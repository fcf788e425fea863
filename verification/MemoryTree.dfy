/** The in-memory log tree (merkle/memory_merkle_tree.go): a two-dimensional array of hashes, level by level,
    evaluated lazily up to `leavesProcessed`. Where the code panics, the model has a precondition or `assert false`. */
module MemoryTree {
  import opened Bits
  import opened Hashing
  import opened Rfc6962
  import opened LogTree
  import opened LogVerifier

  /** The entries of `row` are the first nodes of level `l` of the tree over the first `n` leaves of `d`. */
  ghost predicate AreNodes(h: LogHasher, d: seq<Hash>, l: nat, n: nat, row: seq<Hash>) {
    n <= |d| && forall i :: 0 <= i < |row| ==> Exists(l, i, n) && row[i] == Node(h, d, l, i, n)
  }

  /** `row` is the whole of level `l`, with copies of nodes that have no sibling. */
  ghost predicate IsLevel(h: LogHasher, d: seq<Hash>, l: nat, n: nat, row: seq<Hash>) {
    0 < n <= |d| && |row| == Shr(n - 1, l) + 1 && AreNodes(h, d, l, n, row)
  }

  /** `row` begins with the whole of level `l`; the row of leaves may go on. */
  ghost predicate Covers(h: LogHasher, d: seq<Hash>, l: nat, n: nat, row: seq<Hash>) {
    0 < n <= |d| && Shr(n - 1, l) < |row| && AreNodes(h, d, l, n, row[..Shr(n - 1, l) + 1])
  }

  predicate IsPowerOfTwoPlusOne(leafCount: nat) {
    leafCount != 0 && (leafCount == 1 || And(leafCount - 1, leafCount - 2) == 0)
  }

  /** The height grows exactly when a power of two is passed. */
  lemma HeightGrows(n: nat)
    requires n > 0
    ensures Height(n + 1) == Height(n) + if IsPowerOfTwoPlusOne(n + 1) then 1 else 0
  {
    AndPredIsZero(n);
    BitLenBounds(n);
    BitLenLeast(n - 1, BitLen(n));
    BitLenLeast(n - 1, BitLen(n) - 1);
    if BitLen(n) >= 2 { BitLenLeast(n - 1, BitLen(n) - 2); }
  }

  lemma HeightMonotone(m: nat, n: nat)
    requires 0 < m <= n
    ensures Height(m) <= Height(n)
  {
    HeightCovers(n);
    BitLenLeast(m - 1, Height(n));
  }

  /** A node before the edge of the smaller tree is complete in it, so it stays the same. */
  lemma NodeBeforeEdge(h: LogHasher, d: seq<Hash>, l: nat, i: nat, m: nat, n: nat)
    requires m <= n <= |d| && i < Shr(m, l)
    ensures Exists(l, i, m) && Exists(l, i, n) && Node(h, d, l, i, m) == Node(h, d, l, i, n)
  {
    ShrBounds(m, l);
    ShlMonotone(i, Shr(m, l), l);
    NodeStable(h, d, l, i, m, n);
  }

  lemma LevelOfPrefix(h: LogHasher, d: seq<Hash>, e: seq<Hash>, l: nat, n: nat, row: seq<Hash>)
    requires IsLevel(h, d, l, n, row) && d <= e
    ensures IsLevel(h, e, l, n, row)
  {
    hide Node;
    forall i | 0 <= i < |row| ensures row[i] == Node(h, e, l, i, n) { NodePrefix(h, d, e, l, i, n); }
  }

  lemma LeavesCover(h: LogHasher, d: seq<Hash>, n: nat)
    requires 0 < n <= |d|
    ensures Covers(h, d, 0, n, d)
  {
    hide Node;
    forall i | 0 <= i < n ensures Exists(0, i, n) && d[i] == Node(h, d, 0, i, n) { LeafNode(h, d, i, n); }
  }

  lemma LevelCovers(h: LogHasher, d: seq<Hash>, l: nat, n: nat, row: seq<Hash>)
    requires IsLevel(h, d, l, n, row)
    ensures Covers(h, d, l, n, row)
  {
    assert row[..|row|] == row;
  }

  lemma RowEntry(h: LogHasher, d: seq<Hash>, l: nat, n: nat, row: seq<Hash>, i: nat)
    requires Covers(h, d, l, n, row) && i <= Shr(n - 1, l)
    ensures i < |row| && Exists(l, i, n) && row[i] == Node(h, d, l, i, n)
  {
    assert row[i] == row[..Shr(n - 1, l) + 1][i];
  }

  /** The top row is the root. */
  lemma TopRow(h: LogHasher, d: seq<Hash>, n: nat, row: seq<Hash>)
    requires n > 0 && IsLevel(h, d, Height(n), n, row)
    ensures |row| == 1 && row[0] == MTH(h, d, 0, n)
  {
    hide Node;
    HeightCovers(n);
    RootNode(h, d, Height(n), n);
  }

  /** What is left of a row after the leftmost node that changes has been taken off. */
  function Kept(p: nat, l: nat, row: seq<Hash>): seq<Hash> {
    if |row| == Shr(p, l) + 1 then row[..|row| - 1] else row
  }

  lemma KeptNodes(h: LogHasher, d: seq<Hash>, l: nat, p: nat, n: nat, row: seq<Hash>)
    requires IsLevel(h, d, l, p, row) && p <= n <= |d|
    ensures |Kept(p, l, row)| == Shr(p, l) && AreNodes(h, d, l, n, Kept(p, l, row))
  {
    hide Node;
    ShrNext(p - 1, l);
    var kept := Kept(p, l, row);
    forall i | 0 <= i < |kept| ensures Exists(l, i, n) && kept[i] == Node(h, d, l, i, n) {
      NodeBeforeEdge(h, d, l, i, p, n);
    }
  }

  lemma {:induction false} ShrNext(x: nat, l: nat)
    ensures Shr(x, l) <= Shr(x + 1, l) <= Shr(x, l) + 1
  {
    if l > 0 { ShrNext(x, l - 1); }
  }

  /** A level that did not exist before starts from nothing. */
  lemma NewLevelIsEmpty(p: nat, l: nat)
    requires 0 < p && Height(p) <= l
    ensures Shr(p, l + 1) == 0
  {
    HeightCovers(p);
    Pow2Monotone(Height(p), l);
    ShrIsZero(p, l + 1);
  }

  /** The parent of two neighbours, or of a last node without one. */
  lemma ParentEntry(h: LogHasher, d: seq<Hash>, l: nat, n: nat, row: seq<Hash>, j: nat)
    requires Covers(h, d, l, n, row) && j % 2 == 0 && j <= Shr(n - 1, l)
    ensures j < |row| && Exists(l + 1, j / 2, n)
    ensures j < Shr(n - 1, l) ==>
              j + 1 < |row| && Node(h, d, l + 1, j / 2, n) == h.HashChildren(row[j], row[j + 1])
    ensures j == Shr(n - 1, l) ==> Node(h, d, l + 1, j / 2, n) == row[j]
  {
    hide Node;
    RowEntry(h, d, l, n, row, j);
    ShlDouble(j / 2, l);
    ExistsIff(l, j + 1, n);
    if j < Shr(n - 1, l) { RowEntry(h, d, l, n, row, j + 1); }
    NodeStep(h, d, l, j / 2, n);
  }

  /** A row of the larger tree holds every sibling before the edge of the smaller one. */
  lemma SiblingInRow(h: LogHasher, d: seq<Hash>, row: seq<Hash>, i: nat, l: nat, s: nat, p: nat)
    requires i < s <= p <= |d| && Covers(h, d, l, p, row)
    ensures
      var x, last := Shr(i, l), Shr(s - 1, l);
      var sibling := if x % 2 == 1 then x - 1 else x + 1;
      && (sibling < last ==> sibling < |row| && SiblingAt(h, d, i, s, l) == [row[sibling]])
      && (sibling == last ==> Exists(l, last, s) && SiblingAt(h, d, i, s, l) == [Node(h, d, l, last, s)])
      && (sibling > last ==> SiblingAt(h, d, i, s, l) == [])
  {
    hide Node, Shr, Exists, Covers;
    var x, last := Shr(i, l), Shr(s - 1, l);
    var sibling := if x % 2 == 1 then x - 1 else x + 1;
    ShrMonotone(i, s - 1, l);
    ShrMonotone(s - 1, p - 1, l);
    ExistsIff(l, x + 1, s);
    if x % 2 == 1 { ExistsIff(l, x - 1, s); }
    if sibling < last {
      RowEntry(h, d, l, p, row, sibling);
      ShrMonotone(s - 1, s, l);
      NodeBeforeEdge(h, d, l, sibling, s, p);
    }
  }

  class InMemoryMerkleTree {
    const hasher: LogHasher
    var tree: seq<seq<Hash>>
    var leavesProcessed: nat
    var levelCount: nat

    ghost function Leaves(): seq<Hash>
      reads this
    {
      if tree == [] then [] else tree[0]
    }

    /** Above the leaves, the rows are those of the tree over the leaves processed so far. */
    ghost predicate Valid()
      reads this
    {
      if tree == [] then leavesProcessed == 0 && levelCount == 0
      else
        && 0 < leavesProcessed <= |tree[0]|
        && |tree| == Height(leavesProcessed) + 1
        && levelCount == Height(|tree[0]|) + 1
        && forall l :: 1 <= l < |tree| ==> IsLevel(hasher, tree[0], l, leavesProcessed, tree[l])
    }

    constructor (hasher: LogHasher)
      ensures this.hasher == hasher && Valid() && Leaves() == []
    {
      this.hasher := hasher;
      tree := [];
      leavesProcessed := 0;
      levelCount := 0;
    }

    function LeafCount(): nat
      reads this
    {
      if |tree| == 0 then 0 else |tree[0]|
    }

    method AddLeafHash(leafHash: Hash) returns (leafCount: nat)
      requires Valid()
      modifies this
      ensures Valid() && Leaves() == old(Leaves()) + [leafHash] && leafCount == |Leaves()|
    {
      hide Node, Shr;
      ghost var d := Leaves();
      if |tree| == 0 {
        tree := tree + [[]];
        leavesProcessed := 1;
      } else {
        HeightGrows(|d|);
        forall l | 1 <= l < |tree| ensures IsLevel(hasher, d + [leafHash], l, leavesProcessed, tree[l]) {
          LevelOfPrefix(hasher, d, d + [leafHash], l, leavesProcessed, tree[l]);
        }
      }
      tree := tree[0 := tree[0] + [leafHash]];
      leafCount := LeafCount();
      if IsPowerOfTwoPlusOne(leafCount) { levelCount := levelCount + 1; }
    }

    /** The parents of the nodes of `level`, from the first that is new or changed. */
    method FillRow(level: nat, firstNode: nat, lastNode: nat, snapshot: nat, ghost d: seq<Hash>)
      requires level + 1 < |tree| && Covers(hasher, d, level, snapshot, tree[level])
      requires firstNode <= lastNode == Shr(snapshot - 1, level)
      requires |tree[level + 1]| == firstNode / 2 && AreNodes(hasher, d, level + 1, snapshot, tree[level + 1])
      modifies this`tree
      ensures |tree| == |old(tree)| && forall l :: 0 <= l < |tree| && l != level + 1 ==> tree[l] == old(tree[l])
      ensures IsLevel(hasher, d, level + 1, snapshot, tree[level + 1])
    {
      hide MTH, Node, Exists;
      CoversPositive(hasher, d, level, snapshot, tree[level]);
      var j := firstNode - firstNode % 2;
      ShrStep(snapshot - 1, level);
      while j < lastNode
        invariant j % 2 == 0 && firstNode - 1 <= j <= lastNode + 1
        invariant |tree| == |old(tree)| && forall l :: 0 <= l < |tree| && l != level + 1 ==> tree[l] == old(tree[l])
        invariant |tree[level + 1]| == j / 2 && AreNodes(hasher, d, level + 1, snapshot, tree[level + 1])
      {
        ParentEntry(hasher, d, level, snapshot, tree[level], j);
        PushBack(level + 1, hasher.HashChildren(tree[level][j], tree[level][j + 1]));
        j := j + 2;
      }
      if lastNode % 2 == 0 {
        ParentEntry(hasher, d, level, snapshot, tree[level], j);
        PushBack(level + 1, tree[level][lastNode]);
      }
    }

    method PushBack(level: nat, entry: Hash)
      requires level < |tree|
      modifies this`tree
      ensures tree == old(tree)[level := old(tree)[level] + [entry]]
    {
      tree := tree[level := tree[level] + [entry]];
    }

    method PopBack(level: nat)
      requires level < |tree| && |tree[level]| >= 1
      modifies this`tree
      ensures tree == old(tree)[level := old(tree)[level][..|old(tree)[level]| - 1]]
    {
      tree := tree[level := tree[level][..|tree[level]| - 1]];
    }

    /** Advances the evaluation to `snapshot` leaves. */
    method UpdateToSnapshot(snapshot: nat) returns (root: Hash)
      requires Valid() && leavesProcessed <= snapshot <= LeafCount()
      modifies this`tree, this`leavesProcessed
      ensures Valid() && Leaves() == old(Leaves())
      ensures leavesProcessed == snapshot
      ensures root == MTH(hasher, Leaves(), 0, snapshot)
    {
      hide Shr, Height, Node, IsLevel, AreNodes, Covers, Exists, Split;
      ghost var d, p := Leaves(), leavesProcessed;
      if snapshot == 0 { return hasher.emptyRoot; }
      if snapshot == 1 { return tree[0][0]; }
      BelowHeight(snapshot, 0);
      ShrStep(snapshot - 1, 0);
      if snapshot == leavesProcessed {
        TopRow(hasher, d, snapshot, tree[|tree| - 1]);
        return EvaluatedRoot();
      }
      if snapshot > LeafCount() { assert false; }
      if snapshot <= leavesProcessed { assert false; }
      var level := 0;
      var firstNode := leavesProcessed;
      var lastNode := snapshot - 1;
      ShrStep(p, 0);
      HeightMonotone(p, snapshot);
      LeavesCover(hasher, d, snapshot);
      while lastNode != 0
        invariant level <= Height(snapshot) && (lastNode != 0 <==> level < Height(snapshot))
        invariant firstNode == Shr(p, level) && lastNode == Shr(snapshot - 1, level)
        invariant |tree| == (if level < Height(p) then Height(p) else level) + 1 && tree[0] == d
        invariant leavesProcessed == p
        invariant forall l :: 1 <= l <= level ==> IsLevel(hasher, d, l, snapshot, tree[l])
        invariant forall l :: level < l < |tree| ==> IsLevel(hasher, d, l, p, tree[l])
        invariant Covers(hasher, d, level, snapshot, tree[level])
        decreases Height(snapshot) - level
      {
        ShrStep(p, level);
        ShrStep(snapshot - 1, level);
        ShrMonotone(p, snapshot - 1, level);
        if |tree| <= level + 1 {
          NewLevelIsEmpty(p, level);
          NoNodes(hasher, d, level + 1, snapshot);
          tree := tree + [[]];
        } else {
          KeptNodes(hasher, d, level + 1, p, snapshot, tree[level + 1]);
          if NodeCount(level + 1) == firstNode / 2 + 1 { PopBack(level + 1); }
        }
        FillRow(level, firstNode, lastNode, snapshot, d);
        firstNode := firstNode / 2;
        lastNode := lastNode / 2;
        level := level + 1;
        BelowHeight(snapshot, level);
        LevelCovers(hasher, d, level, snapshot, tree[level]);
      }
      leavesProcessed := snapshot;
      TopRow(hasher, d, snapshot, tree[|tree| - 1]);
      return EvaluatedRoot();
    }

    method RootAtSnapshot(snapshot: nat) returns (root: Option<Hash>)
      requires Valid()
      modifies this`tree, this`leavesProcessed
      ensures Valid() && Leaves() == old(Leaves())
      ensures root == if snapshot > |Leaves()| then None else Some(MTH(hasher, Leaves(), 0, snapshot))
    {
      if snapshot == 0 { return Some(hasher.emptyRoot); }
      if snapshot > LeafCount() { return None; }
      if snapshot >= leavesProcessed {
        var r := UpdateToSnapshot(snapshot);
        return Some(r);
      }
      var r, _ := RecomputePastSnapshot(snapshot, None);
      return Some(r);
    }

    method CurrentRoot() returns (root: Option<Hash>)
      requires Valid()
      modifies this`tree, this`leavesProcessed
      ensures Valid() && Leaves() == old(Leaves()) && root == Some(Root(hasher, Leaves()))
    {
      root := RootAtSnapshot(LeafCount());
    }

    /** `root`: the code panics if the top row has several entries. */
    function EvaluatedRoot(): Hash
      requires tree != [] && |tree[|tree| - 1]| == 1
      reads this
    {
      tree[|tree| - 1][0]
    }

    function NodeCount(level: nat): nat
      requires level < |tree|
      reads this
    {
      |tree[level]|
    }

    /** `lastNode`: the code panics on an empty row. */
    function LastNode(level: nat): Hash
      requires level < |tree| && NodeCount(level) >= 1
      reads this
    {
      tree[level][NodeCount(level) - 1]
    }

    /** The root of a past tree and, if asked for, the last node of one of its levels. */
    method RecomputePastSnapshot(snapshot: nat, nodeLevel: Option<nat>) returns (root: Hash, node: Option<Hash>)
      requires Valid() && 0 < snapshot <= leavesProcessed
      requires snapshot == leavesProcessed ==> snapshot > 1 || LeafCount() == 1
      ensures root == MTH(hasher, Leaves(), 0, snapshot)
      ensures nodeLevel.Some? && nodeLevel.value <= Height(snapshot) ==>
                && Exists(nodeLevel.value, Shr(snapshot - 1, nodeLevel.value), snapshot)
                && node == Some(Node(hasher, Leaves(), nodeLevel.value, Shr(snapshot - 1, nodeLevel.value), snapshot))
    {
      hide Shr, Node, MTH, IsLevel, Covers, TrailingOnes, BitLen;
      ghost var d, p, i := Leaves(), leavesProcessed, snapshot - 1;
      var level := 0;
      var lastNode := snapshot - 1;
      node := None;
      if snapshot == leavesProcessed {
        if nodeLevel.Some? && |tree| > nodeLevel.value {
          RowCovers(nodeLevel.value);
          RowEntry(hasher, d, nodeLevel.value, p, tree[nodeLevel.value], Shr(i, nodeLevel.value));
          if nodeLevel.value > 0 {
            LastOfRow(hasher, d, nodeLevel.value, p, tree[nodeLevel.value]);
            node := Some(LastNode(nodeLevel.value));
          } else {
            ShrStep(i, 0);
            node := Some(tree[0][lastNode]);
          }
        }
        TopEntry();
        return EvaluatedRoot(), node;
      }
      if snapshot >= leavesProcessed { assert false; }

      ghost var a, top := TrailingOnes(i), Height(snapshot);
      HeightMonotone(snapshot, p);
      TrailingOnesBelowBitLen(i);
      ShrStep(i, 0);
      TrailingOnesStep(i, 0);
      while lastNode % 2 == 1
        invariant 0 <= level <= a && lastNode == Shr(i, level)
        invariant lastNode % 2 == 1 <==> level < a
        invariant nodeLevel.Some? && nodeLevel.value < level ==> IsLastNode(nodeLevel.value, snapshot, node)
        decreases a - level
      {
        EdgeEntry(level, snapshot);
        if nodeLevel.Some? && nodeLevel.value == level { node := Some(tree[level][lastNode]); }
        ShrStep(i, level);
        TrailingOnesStep(i, level + 1);
        lastNode := lastNode / 2;
        level := level + 1;
      }
      EdgeEntry(level, snapshot);
      var subtreeRoot := tree[level][lastNode];
      if nodeLevel.Some? && nodeLevel.value == level { node := Some(subtreeRoot); }
      BelowHeight(snapshot, level);
      while lastNode != 0
        invariant a <= level <= top && lastNode == Shr(i, level) && (lastNode != 0 <==> level < top)
        invariant IsLastNode(level, snapshot, Some(subtreeRoot))
        invariant nodeLevel.Some? && nodeLevel.value <= level ==> IsLastNode(nodeLevel.value, snapshot, node)
        decreases top - level
      {
        EdgeStep(level, snapshot);
        if lastNode % 2 == 1 {
          subtreeRoot := hasher.HashChildren(tree[level][lastNode - 1], subtreeRoot);
        }
        ShrStep(i, level);
        lastNode := lastNode / 2;
        level := level + 1;
        BelowHeight(snapshot, level);
        if nodeLevel.Some? && nodeLevel.value == level { node := Some(subtreeRoot); }
      }
      HeightCovers(snapshot);
      RootNode(hasher, d, top, snapshot);
      return subtreeRoot, node;
    }

    /** The path from leaf `leaf`, counted from one, to the root of a snapshot. */
    method PathToRootAtSnapshot(leaf: nat, snapshot: nat) returns (path: seq<Hash>)
      requires Valid()
      modifies this`tree, this`leavesProcessed
      ensures Valid() && Leaves() == old(Leaves())
      ensures path == if leaf == 0 || leaf > snapshot || snapshot > |Leaves()| then []
                      else InclusionProof(hasher, Leaves(), leaf - 1, snapshot)
    {
      hide SiblingPath, Path;
      if leaf > snapshot || snapshot > LeafCount() || leaf == 0 { return []; }
      ShrStep(leaf - 1, 0);
      path := PathFromNodeToRootAtSnapshot(leaf - 1, 0, snapshot, leaf - 1);
      InclusionProofIsSiblings(hasher, Leaves(), leaf - 1, snapshot);
    }

    method PathToCurrentRoot(leaf: nat) returns (path: seq<Hash>)
      requires Valid()
      modifies this`tree, this`leavesProcessed
      ensures Valid() && Leaves() == old(Leaves())
      ensures path ==
              if leaf == 0 || leaf > |Leaves()| then [] else InclusionProof(hasher, Leaves(), leaf - 1, |Leaves()|)
    {
      path := PathToRootAtSnapshot(leaf, LeafCount());
    }

    /** From the node `node0` at `level0`, an ancestor of leaf `i`, to the root of a snapshot. */
    method PathFromNodeToRootAtSnapshot(node0: nat, level0: nat, snapshot: nat, ghost i: nat) returns (path: seq<Hash>)
      requires Valid() && node0 == Shr(i, level0)
               && (0 < snapshot <= LeafCount() && level0 < levelCount ==> i < snapshot)
      modifies this`tree, this`leavesProcessed
      ensures Valid() && Leaves() == old(Leaves()) && leavesProcessed >= old(leavesProcessed)
      ensures snapshot == 0 || snapshot > |Leaves()| || level0 >= levelCount ==> path == []
      ensures 0 < snapshot <= |Leaves()| && level0 < levelCount ==>
                path == SiblingPath(hasher, Leaves(), i, snapshot, level0, Height(snapshot))
    {
      hide Shr, Node, MTH, IsLevel, Covers, SiblingAt, Pow2, BitLen, Stored, StoredValue, AreNodes, BitSet,
           TrailingOnes;
      path := [];
      if snapshot == 0 { return; }
      var lastNode := Shr(snapshot - 1, level0);
      if i < snapshot { ShrMonotone(i, snapshot - 1, level0); }
      if level0 >= levelCount || node0 > lastNode || snapshot > LeafCount() { return; }
      if snapshot > leavesProcessed { var _ := UpdateToSnapshot(snapshot); }
      ghost var d, top := Leaves(), Height(snapshot);
      var node, level := node0, level0;
      BelowHeight(snapshot, level);
      while lastNode != 0
        invariant Valid() && Leaves() == d && snapshot <= leavesProcessed && old(leavesProcessed) <= leavesProcessed
        invariant level0 <= level && (level < top <==> lastNode != 0)
        invariant level0 <= top ==> level <= top
        invariant top < level0 ==> level == level0
        invariant node == Shr(i, level) && lastNode == Shr(snapshot - 1, level)
        invariant path == SiblingPath(hasher, d, i, snapshot, level0, level)
        decreases top - level
      {
        SiblingEntry(i, level, snapshot);
        var sibling := if node % 2 == 1 then node - 1 else node + 1;
        if sibling < lastNode {
          path := path + [tree[level][sibling]];
        } else if sibling == lastNode {
          var _, recomputed := RecomputePastSnapshot(snapshot, Some(level));
          path := path + [recomputed.value];
        } else {
          assert path + [] == path;
        }
        ShrStep(i, level);
        ShrStep(snapshot - 1, level);
        node := node / 2;
        lastNode := lastNode / 2;
        level := level + 1;
        BelowHeight(snapshot, level);
      }
    }

    /** What the row at level `l`, or the recomputed last node, says about the sibling of `i`'s ancestor. */
    lemma SiblingEntry(i: nat, l: nat, snapshot: nat)
      requires Valid() && i < snapshot <= leavesProcessed && l < Height(snapshot)
      ensures
        var x, last := Shr(i, l), Shr(snapshot - 1, l);
        var sibling := if x % 2 == 1 then x - 1 else x + 1;
        && l < |tree|
        && (sibling < last ==> sibling < |tree[l]| && SiblingAt(hasher, Leaves(), i, snapshot, l) == [tree[l][sibling]])
        && (sibling == last ==>
              Exists(l, last, snapshot) && SiblingAt(hasher, Leaves(), i, snapshot, l) ==
                  [Node(hasher, Leaves(), l, last, snapshot)])
        && (sibling > last ==> SiblingAt(hasher, Leaves(), i, snapshot, l) == [])
    {
      HeightMonotone(snapshot, leavesProcessed);
      RowCovers(l);
      SiblingInRow(hasher, Leaves(), tree[l], i, l, snapshot, leavesProcessed);
    }

    method SnapshotConsistency(snapshot1: nat, snapshot2: nat) returns (proof: seq<Hash>)
      requires Valid()
      modifies this`tree, this`leavesProcessed
      ensures Valid() && Leaves() == old(Leaves())
      ensures proof == if snapshot1 == 0 || snapshot1 >= snapshot2 || snapshot2 > |Leaves()| then []
                       else ConsistencyProof(hasher, Leaves(), snapshot1, snapshot2)
    {
      hide Shr, Node, MTH, SiblingPath, SubProof, IsLevel, Covers, TrailingOnes;
      proof := [];
      if snapshot1 == 0 || snapshot1 >= snapshot2 || snapshot2 > LeafCount() { return; }
      ghost var i, a, d := snapshot1 - 1, TrailingOnes(snapshot1 - 1), Leaves();
      var level := 0;
      var node := snapshot1 - 1;
      ShrStep(i, 0);
      TrailingOnesStep(i, 0);
      while node % 2 == 1
        invariant 0 <= level <= a && node == Shr(i, level)
        invariant node % 2 == 1 <==> level < a
        invariant tree == old(tree) && leavesProcessed == old(leavesProcessed)
        decreases a - level
      {
        ShrStep(i, level);
        TrailingOnesStep(i, level + 1);
        node := node / 2;
        level := level + 1;
      }
      if snapshot2 > leavesProcessed { var _ := UpdateToSnapshot(snapshot2); }
      EdgeEntry(level, snapshot1);
      ConsistencyProofIsSiblings(hasher, d, i, snapshot2);
      HeightMonotone(snapshot2, |d|);
      if node != 0 { proof := proof + [tree[level][node]]; }
      assert proof == ProofHead(hasher, d, i);
      var path := PathFromNodeToRootAtSnapshot(node, level, snapshot2, i);
      return proof + path;
    }

    /** `node` is the last node of level `l` of the tree over the first `n` leaves. */
    ghost predicate IsLastNode(l: nat, n: nat, node: Option<Hash>)
      reads this
    {
      && 0 < n <= |Leaves()| && Exists(l, Shr(n - 1, l), n)
      && node == Some(Node(hasher, Leaves(), l, Shr(n - 1, l), n))
    }

    lemma RowCovers(l: nat)
      requires Valid() && l < |tree|
      ensures Covers(hasher, Leaves(), l, leavesProcessed, tree[l])
    {
      if l == 0 {
        LeavesCover(hasher, Leaves(), leavesProcessed);
      } else {
        LevelCovers(hasher, Leaves(), l, leavesProcessed, tree[l]);
      }
    }

    lemma TopEntry()
      requires Valid() && tree != [] && (leavesProcessed > 1 || LeafCount() == 1)
      ensures |tree[|tree| - 1]| == 1 && tree[|tree| - 1][0] == MTH(hasher, Leaves(), 0, leavesProcessed)
    {
      if leavesProcessed > 1 { BelowHeight(leavesProcessed, 0); ShrStep(leavesProcessed - 1, 0); }
      HeightCovers(leavesProcessed);
      RowCovers(|tree| - 1);
      RowEntry(hasher, Leaves(), |tree| - 1, leavesProcessed, tree[|tree| - 1], 0);
      RootNode(hasher, Leaves(), |tree| - 1, leavesProcessed);
    }

    /** On a complete edge the row holds the old tree's node already. */
    lemma EdgeEntry(l: nat, snapshot: nat)
      requires Valid() && 0 < snapshot <= leavesProcessed && l <= TrailingOnes(snapshot - 1)
      ensures l < |tree| && Shr(snapshot - 1, l) < |tree[l]|
      ensures IsLastNode(l, snapshot, Some(tree[l][Shr(snapshot - 1, l)]))
    {
      hide Node;
      var i, p := snapshot - 1, leavesProcessed;
      HeightMonotone(snapshot, p);
      TrailingOnesBelowBitLen(i);
      RowCovers(l);
      ShrMonotone(i, p - 1, l);
      RowEntry(hasher, Leaves(), l, p, tree[l], Shr(i, l));
      CompleteEdge(i, l);
      NodeStable(hasher, Leaves(), l, Shr(i, l), snapshot, p);
    }

    /** Climbing the old edge: hash with the left neighbour, or copy. */
    lemma EdgeStep(l: nat, snapshot: nat)
      requires Valid() && 0 < snapshot <= leavesProcessed && TrailingOnes(snapshot - 1) <= l < Height(snapshot)
      ensures l < |tree| && Shr(snapshot - 1, l) < |tree[l]|
      ensures Exists(l, Shr(snapshot - 1, l), snapshot) && Exists(l + 1, Shr(snapshot - 1, l + 1), snapshot)
      ensures var d, i := Leaves(), snapshot - 1;
              Node(hasher, d, l + 1, Shr(i, l + 1), snapshot) ==
              if Shr(i, l) % 2 == 1 then
                hasher.HashChildren(tree[l][Shr(i, l) - 1], Node(hasher, d, l, Shr(i, l), snapshot))
              else Node(hasher, d, l, Shr(i, l), snapshot)
    {
      hide Node;
      var i, p, d := snapshot - 1, leavesProcessed, Leaves();
      HeightMonotone(snapshot, p);
      RowCovers(l);
      ShrMonotone(i, p - 1, l);
      RowEntry(hasher, d, l, p, tree[l], Shr(i, l));
      OldNodeAbove(hasher, d, i, p, l);
      if Shr(i, l) % 2 == 1 { RowEntry(hasher, d, l, p, tree[l], Shr(i, l) - 1); }
    }
  }

  lemma LastOfRow(h: LogHasher, d: seq<Hash>, l: nat, n: nat, row: seq<Hash>)
    requires IsLevel(h, d, l, n, row)
    ensures |row| > 0 && |row| - 1 == Shr(n - 1, l)
  {
  }

  lemma NoNodes(h: LogHasher, d: seq<Hash>, l: nat, n: nat)
    requires n <= |d|
    ensures AreNodes(h, d, l, n, [])
  {
  }

  lemma CoversPositive(h: LogHasher, d: seq<Hash>, l: nat, n: nat, row: seq<Hash>)
    requires Covers(h, d, l, n, row)
    ensures 0 < n <= |d|
  {
  }
}
