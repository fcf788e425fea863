/** The sequencer (log/sequencer.go). A transaction works on a snapshot of the log and then commits as a whole;
    the storage layer rejects a commit whose revision is already stored. `IntegrateBatch` and `SignRoot` are
    modelled as computing the commit; several sequencers running them in any interleaving are a state machine. */
module Sequencer {
  import opened Bits
  import opened Hashing
  import opened Rfc6962
  import opened LogTree
  import opened CompactSpec
  import opened CompactTree

  datatype LogRoot = LogRoot(treeSize: nat, rootHash: Hash, timestampNanos: int, treeRevision: int)

  datatype LogLeaf = LogLeaf(leafIndex: int, merkleLeafHash: Hash)

  /** What one transaction stores. */
  datatype Commit = Commit(root: LogRoot, nodes: map<Coord, Hash>, leaves: seq<LogLeaf>)

  /** `queued` counts every leaf ever queued; `queue` those not yet sequenced. */
  datatype LogState = LogState(commits: seq<Commit>, queue: multiset<Hash>, queued: multiset<Hash>)

  datatype SequenceError =
    | TreeNeedsInit
    | WrongWriteRevision
    | BadLeafIndex(got: int, want: int)
    | CorruptTree(e: RestoreError)

  /** Stored nodes as of a revision: the latest version at or before it. */
  function NodesAt(commits: seq<Commit>, revision: int): map<Coord, Hash> {
    if commits == [] then map[]
    else
      var last := commits[|commits| - 1];
      var before := NodesAt(commits[..|commits| - 1], revision);
      if last.root.treeRevision <= revision then before + last.nodes else before
  }

  /** The highest revision; zero if there is none, as in the zero value of a root. */
  function Top(commits: seq<Commit>): int {
    if commits == [] then 0
    else
      var below, last := Top(commits[..|commits| - 1]), commits[|commits| - 1].root.treeRevision;
      if below < last then last else below
  }

  function LeafHashes(leaves: seq<LogLeaf>): (r: seq<Hash>)
    ensures |r| == |leaves| && forall j :: 0 <= j < |leaves| ==> r[j] == leaves[j].merkleLeafHash
  {
    seq(|leaves|, j requires 0 <= j < |leaves| => leaves[j].merkleLeafHash)
  }

  /** All leaf hashes in log order. */
  function Sequenced(commits: seq<Commit>): seq<Hash> {
    if commits == [] then []
    else Sequenced(commits[..|commits| - 1]) + LeafHashes(commits[|commits| - 1].leaves)
  }

  // ---------- one transaction ----------

  /** `nodes` turns the store of the tree over `d` into that of the tree over `e`. */
  ghost predicate Extends(h: LogHasher, d: seq<Hash>, e: seq<Hash>, nodes: map<Coord, Hash>) {
    forall s :: Canonical(h, d, s) ==> Canonical(h, e, s + nodes)
  }

  lemma {:induction false} OverlayMerge(s: map<Coord, Hash>, m: map<Coord, Hash>, ws: seq<Write>)
    ensures s + Overlay(m, ws) == Overlay(s + m, ws)
  {
    if ws != [] { OverlayMerge(s, m, ws[..|ws| - 1]); }
  }

  /** Storing the leaf hash once more changes nothing. */
  lemma LeafAlreadyStored(h: LogHasher, e: seq<Hash>, s: map<Coord, Hash>, i: nat)
    requires Canonical(h, e, s) && i < |e|
    ensures s[Coord(0, i) := e[i]] == s
  {
    var c := Coord(0, i);
    assert Stored(c, |e|);
    assert StoredValue(h, e, c, s[c]);
    LeafNode(h, e, i, |e|);
  }

  lemma ExtendsStep(h: LogHasher, d: seq<Hash>, e: seq<Hash>, leaf: Hash, m: map<Coord, Hash>, ws: seq<Write>)
    requires Extends(h, d, e, m)
    requires forall s :: Canonical(h, e, s) ==> Canonical(h, e + [leaf], Overlay(s, ws))
    ensures Extends(h, d, e + [leaf], Overlay(m, ws)[Coord(0, |e|) := leaf])
  {
    hide Canonical;
    forall s | Canonical(h, d, s) ensures Canonical(h, e + [leaf], s + Overlay(m, ws)[Coord(0, |e|) := leaf]) {
      OverlayMerge(s, m, ws);
      var s' := Overlay(s + m, ws);
      assert Canonical(h, e, s + m);
      LeafAlreadyStored(h, e + [leaf], s', |e|);
      assert s + Overlay(m, ws)[Coord(0, |e|) := leaf] == s'[Coord(0, |e|) := leaf];
    }
  }

  lemma ExtendsNothing(h: LogHasher, d: seq<Hash>)
    ensures Extends(h, d, d, map[])
  {
    forall s | Canonical(h, d, s) ensures Canonical(h, d, s + map[]) { assert s + map[] == s; }
  }

  /** Integrates `leaves` one by one and collects the nodes to store, each once. */
  method UpdateCompactTree(mt: CompactMerkleTree, leaves: seq<LogLeaf>, ghost d: seq<Hash>)
      returns (r: Result<map<Coord, Hash>, SequenceError>)
    requires mt.Represents(d)
    modifies mt
    ensures r.Ok? <==> forall j :: 0 <= j < |leaves| ==> leaves[j].leafIndex == |d| + j
    ensures r.Err? ==>
              exists j :: 0 <= j < |leaves| && leaves[j].leafIndex != |d| + j
                          && r.error == BadLeafIndex(leaves[j].leafIndex, |d| + j)
                          && forall i :: 0 <= i < j ==> leaves[i].leafIndex == |d| + i
    ensures r.Ok? ==> mt.Represents(d + LeafHashes(leaves)) && Extends(mt.hasher, d, d + LeafHashes(leaves), r.value)
  {
    hide MTH, Shl, Shr, BitLen, Canonical, AddWrites, EdgeNode, LeafHashes, Overlay;
    var nodeMap: map<Coord, Hash> := map[];
    ghost var e := d;
    ExtendsNothing(mt.hasher, d);
    for i := 0 to |leaves|
      invariant e == d + LeafHashes(leaves)[..i] && mt.Represents(e)
      invariant forall j :: 0 <= j < i ==> leaves[j].leafIndex == |d| + j
      invariant Extends(mt.hasher, d, e, nodeMap)
    {
      var leaf := leaves[i];
      var position, writes := mt.AddLeafHash(leaf.merkleLeafHash, e);
      ExtendsStep(mt.hasher, d, e, leaf.merkleLeafHash, nodeMap, writes);
      nodeMap := Overlay(nodeMap, writes);
      if leaf.leafIndex != position {
        assert leaves[i].leafIndex != |d| + i;
        return Err(BadLeafIndex(leaf.leafIndex, position));
      }
      nodeMap := nodeMap[Coord(0, position) := leaf.merkleLeafHash];
      assert e + [leaf.merkleLeafHash] == d + LeafHashes(leaves)[..i + 1];
      e := e + [leaf.merkleLeafHash];
    }
    assert LeafHashes(leaves)[..|leaves|] == LeafHashes(leaves);
    return Ok(nodeMap);
  }

  method InitMerkleTreeFromStorage(h: LogHasher, root: LogRoot, nodes: map<Coord, Hash>, ghost d: seq<Hash>)
      returns (r: Result<CompactMerkleTree, SequenceError>)
    ensures r.Ok? ==> fresh(r.value) && r.value.hasher == h && r.value.size == root.treeSize
    ensures root.treeSize == 0 ==> r.Ok? && r.value.Represents([])
    ensures r.Err? ==> r.error.CorruptTree?
    ensures root.treeSize == |d| && root.rootHash == Root(h, d) && Canonical(h, d, nodes) ==>
            r.Ok? && r.value.Represents(d)
  {
    if root.treeSize == 0 {
      var empty := new CompactMerkleTree(h);
      if |d| == 0 { assert d == []; }
      return Ok(empty);
    }
    var restored := CompactMerkleTree.WithState(h, root.treeSize, nodes, root.rootHash, d);
    match restored {
      case Ok(t) => return Ok(t);
      case Err(e) => return Err(CorruptTree(e));
    }
  }

  /** Consecutive sequence numbers from the current tree size. */
  function Numbered(batch: seq<Hash>, start: nat): (r: seq<LogLeaf>)
    ensures LeafHashes(r) == batch
  {
    seq(|batch|, j requires 0 <= j < |batch| => LogLeaf(start + j, batch[j]))
  }

  // ---------- the log's history ----------

  /** The root that `InitLog` stores. */
  function InitialCommit(h: LogHasher, time: int): Commit {
    Commit(LogRoot(0, h.emptyRoot, time, 0), map[], [])
  }

  predicate HasRevision(commits: seq<Commit>, revision: int) {
    exists k :: 0 <= k < |commits| && commits[k].root.treeRevision == revision
  }

  /** What can be committed after `before`: the next revision, with the root, the nodes and the numbered leaves of
      a longer log; or the root of `InitLog`, at any time, if revision zero is free. */
  ghost predicate Follows(h: LogHasher, before: seq<Commit>, c: Commit) {
    var d, batch := Sequenced(before), LeafHashes(c.leaves);
    if c.root.treeRevision == 0 then
      c == InitialCommit(h, c.root.timestampNanos) && !HasRevision(before, 0)
    else
      && c.root.treeRevision == Top(before) + 1
      && c.root.treeSize == |d + batch| && c.root.rootHash == Root(h, d + batch)
      && c.leaves == Numbered(batch, |d|)
      && Extends(h, d, d + batch, c.nodes)
  }

  ghost predicate Chain(h: LogHasher, commits: seq<Commit>) {
    forall k :: 0 <= k < |commits| ==> Follows(h, commits[..k], commits[k])
  }

  /** Every commit follows those before it, and every leaf ever queued is either sequenced or still queued. */
  ghost predicate LogInv(h: LogHasher, log: LogState) {
    Chain(h, log.commits) && multiset(Sequenced(log.commits)) + log.queue == log.queued
  }

  lemma ChainPrefix(h: LogHasher, commits: seq<Commit>, n: nat)
    requires Chain(h, commits) && n <= |commits|
    ensures Chain(h, commits[..n])
  {
    hide Follows;
    forall k | 0 <= k < n ensures Follows(h, commits[..n][..k], commits[..n][k]) {
      assert commits[..n][..k] == commits[..k];
    }
  }

  lemma ChainStep(h: LogHasher, commits: seq<Commit>, c: Commit)
    requires Chain(h, commits) && Follows(h, commits, c)
    ensures Chain(h, commits + [c])
  {
    hide Follows;
    var after := commits + [c];
    forall k | 0 <= k < |after| ensures Follows(h, after[..k], after[k]) {
      assert after[..k] == commits[..k];
      assert commits[..|commits|] == commits;
    }
  }

  /** The last commit, and the history before it. */
  lemma LastFollows(h: LogHasher, commits: seq<Commit>)
    requires Chain(h, commits) && commits != []
    ensures Chain(h, commits[..|commits| - 1]) && Follows(h, commits[..|commits| - 1], commits[|commits| - 1])
  {
    hide Follows;
    ChainPrefix(h, commits, |commits| - 1);
  }

  lemma {:induction false} TopBounds(h: LogHasher, commits: seq<Commit>, k: nat)
    requires Chain(h, commits) && k < |commits|
    ensures 0 <= commits[k].root.treeRevision <= Top(commits)
  {
    hide Numbered, LeafHashes, Sequenced, Root, Extends, HasRevision;
    LastFollows(h, commits);
    var rest := commits[..|commits| - 1];
    TopNotNegative(rest);
    if k < |rest| { TopBounds(h, rest, k); }
  }

  lemma {:induction false} TopNotNegative(commits: seq<Commit>)
    ensures Top(commits) >= 0
  {
    if commits != [] { TopNotNegative(commits[..|commits| - 1]); }
  }

  /** Every revision from one to the highest is stored. */
  lemma {:induction false} RevisionTaken(h: LogHasher, commits: seq<Commit>, revision: int)
    requires Chain(h, commits) && 1 <= revision <= Top(commits)
    ensures HasRevision(commits, revision)
  {
    hide Numbered, LeafHashes, Sequenced, Root, Extends;
    LastFollows(h, commits);
    var rest, last := commits[..|commits| - 1], commits[|commits| - 1];
    if last.root.treeRevision != revision {
      RevisionTaken(h, rest, revision);
      var k :| 0 <= k < |rest| && rest[k].root.treeRevision == revision;
      assert commits[k].root.treeRevision == revision;
    }
  }

  /** No revision is stored twice. */
  lemma RevisionsDiffer(h: LogHasher, commits: seq<Commit>, i: nat, j: nat)
    requires Chain(h, commits) && i < j < |commits|
    ensures commits[i].root.treeRevision != commits[j].root.treeRevision
    ensures commits[j].root.treeRevision != 0 ==> commits[i].root.treeRevision < commits[j].root.treeRevision
  {
    hide Numbered, LeafHashes, Sequenced, Root, Extends, Top;
    var before := commits[..j];
    assert Follows(h, before, commits[j]);
    ChainPrefix(h, commits, j);
    TopBounds(h, before, i);
    assert before[i] == commits[i];
  }

  // ---------- leaves and nodes of a history ----------

  lemma {:induction false} SequencedPrefix(commits: seq<Commit>, k: nat)
    requires k <= |commits|
    ensures Sequenced(commits[..k]) <= Sequenced(commits)
  {
    if k < |commits| {
      SequencedPrefix(commits[..|commits| - 1], k);
      assert commits[..|commits| - 1][..k] == commits[..k];
    } else {
      assert commits[..k] == commits;
    }
  }

  /** Storage as of the highest revision, or later, holds the tree over all leaves. */
  lemma {:induction false} CanonicalNow(h: LogHasher, commits: seq<Commit>, revision: int)
    requires Chain(h, commits) && Top(commits) <= revision
    ensures Canonical(h, Sequenced(commits), NodesAt(commits, revision))
  {
    hide Canonical, Numbered, LeafHashes, Root, HasRevision, Chain;
    if commits == [] {
      EmptyCanonical(h);
    } else {
      LastFollows(h, commits);
      var rest, last := commits[..|commits| - 1], commits[|commits| - 1];
      CanonicalNow(h, rest, revision);
      if last.root.treeRevision == 0 { NoLeaves(h, rest, last, revision); }
    }
  }

  /** The root of `InitLog` brings neither leaves nor nodes. */
  lemma NoLeaves(h: LogHasher, before: seq<Commit>, c: Commit, revision: int)
    requires c == InitialCommit(h, c.root.timestampNanos)
    ensures LeafHashes(c.leaves) == [] && Sequenced(before) + LeafHashes(c.leaves) == Sequenced(before)
    ensures NodesAt(before, revision) + c.nodes == NodesAt(before, revision)
  {
  }

  lemma {:induction false} NothingAtZero(h: LogHasher, commits: seq<Commit>)
    requires Chain(h, commits)
    ensures NodesAt(commits, 0) == map[]
  {
    hide Numbered, LeafHashes, Sequenced, Root, Extends, HasRevision, Chain;
    if commits != [] {
      LastFollows(h, commits);
      NothingAtZero(h, commits[..|commits| - 1]);
      TopNotNegative(commits[..|commits| - 1]);
    }
  }

  /** What is committed later is not seen when reading at an earlier revision. */
  lemma {:induction false} NodesUpTo(h: LogHasher, commits: seq<Commit>, k: nat)
    requires Chain(h, commits) && k < |commits| && commits[k].root.treeRevision != 0
    ensures NodesAt(commits, commits[k].root.treeRevision) == NodesAt(commits[..k + 1], commits[k].root.treeRevision)
  {
    hide Numbered, LeafHashes, Sequenced, Root, Extends, HasRevision, Chain, Top;
    var rest, last := commits[..|commits| - 1], commits[|commits| - 1];
    if k == |rest| {
      assert commits[..k + 1] == commits;
    } else {
      LastFollows(h, commits);
      NodesUpTo(h, rest, k);
      assert rest[..k + 1] == commits[..k + 1] && rest[k] == commits[k];
      RevisionsDiffer(h, commits, k, |rest|);
      if last.root.treeRevision == 0 { NoLeaves(h, rest, last, commits[k].root.treeRevision); }
    }
  }

  /** Every root is that of a prefix of the leaves. */
  lemma RootOfLeaves(h: LogHasher, commits: seq<Commit>, k: nat)
    requires Chain(h, commits) && k < |commits|
    ensures
      var d, root := Sequenced(commits), commits[k].root;
      && root.treeSize <= |d| && root.rootHash == MTH(h, d, 0, root.treeSize)
      && (root.treeRevision == 0 ==> root.treeSize == 0)
      && (root.treeRevision != 0 ==> Sequenced(commits[..k + 1]) == d[..root.treeSize])
  {
    hide Numbered, LeafHashes, Sequenced, Extends, HasRevision, Top, MTH;
    var d, root := Sequenced(commits), commits[k].root;
    assert Follows(h, commits[..k], commits[k]);
    if root.treeRevision == 0 {
      NoLeavesRoot(h, d);
    } else {
      SequencedStep(commits, k);
      SequencedPrefix(commits, k + 1);
      var e := Sequenced(commits[..k + 1]);
      assert e == d[0..|e|] == d[..|e|];
      MTHLocal(h, e, d, 0, |e|, 0);
    }
  }

  lemma NoLeavesRoot(h: LogHasher, d: seq<Hash>)
    ensures MTH(h, d, 0, 0) == h.emptyRoot
  {
  }

  lemma SequencedStep(commits: seq<Commit>, k: nat)
    requires k < |commits|
    ensures Sequenced(commits[..k + 1]) == Sequenced(commits[..k]) + LeafHashes(commits[k].leaves)
  {
    hide LeafHashes;
    assert commits[..k + 1][..k] == commits[..k];
  }

  /** Reading at the revision of any committed root gives exactly the nodes of the tree it is the root of, whatever
      has been committed since. */
  lemma ReadAtRoot(h: LogHasher, commits: seq<Commit>, k: nat)
    requires Chain(h, commits) && k < |commits|
    ensures commits[k].root.treeSize <= |Sequenced(commits)|
    ensures Canonical(h, Sequenced(commits)[..commits[k].root.treeSize], NodesAt(commits, commits[k].root.treeRevision))
  {
    hide Canonical, Numbered, LeafHashes, Sequenced, Extends, HasRevision, MTH, Chain, NodesAt;
    RootOfLeaves(h, commits, k);
    if commits[k].root.treeRevision == 0 {
      NothingAtZero(h, commits);
      EmptyCanonical(h);
      assert Sequenced(commits)[..0] == [];
    } else {
      ChainPrefix(h, commits, k + 1);
      TopAt(h, commits, k);
      CanonicalNow(h, commits[..k + 1], commits[k].root.treeRevision);
      NodesUpTo(h, commits, k);
    }
  }

  lemma TopAt(h: LogHasher, commits: seq<Commit>, k: nat)
    requires Chain(h, commits) && k < |commits| && commits[k].root.treeRevision != 0
    ensures Top(commits[..k + 1]) == commits[k].root.treeRevision
  {
    hide Numbered, LeafHashes, Sequenced, Extends, HasRevision;
    assert Follows(h, commits[..k], commits[k]);
    assert commits[..k + 1][..k] == commits[..k];
  }

  /** The root with the highest revision is that of all leaves. */
  lemma {:induction false} TopIsWhole(h: LogHasher, commits: seq<Commit>, k: nat)
    requires Chain(h, commits) && k < |commits| && commits[k].root.treeRevision == Top(commits)
    ensures commits[k].root.treeSize == |Sequenced(commits)|
  {
    hide Numbered, LeafHashes, Root, Extends, Chain;
    LastFollows(h, commits);
    var rest, last := commits[..|commits| - 1], commits[|commits| - 1];
    TopNotNegative(rest);
    if last.root.treeRevision == 0 {
      NoLeaves(h, rest, last, 0);
      if k < |rest| {
        TopIsWhole(h, rest, k);
      } else if rest != [] {
        TopBounds(h, rest, 0);
        assert false;
      }
    } else if k < |rest| {
      TopBounds(h, rest, k);
      assert false;
    }
  }

  lemma NothingAtTopZero(h: LogHasher, commits: seq<Commit>)
    requires Chain(h, commits) && Top(commits) == 0
    ensures Sequenced(commits) == []
  {
    hide Follows, Chain, Top;
    if commits != [] {
      TopBounds(h, commits, 0);
      TopIsWhole(h, commits, 0);
      RootOfLeaves(h, commits, 0);
    }
  }

  // ---------- one transaction ----------

  /** What `LatestSignedLogRoot` may return: nothing if there is no root, and otherwise some committed root. Which one
      storage calls the latest is left open. */
  ghost predicate Reads(commits: seq<Commit>, current: Option<LogRoot>) {
    match current
    case None => commits == []
    case Some(root) => exists k :: 0 <= k < |commits| && commits[k].root == root
  }

  function SizeOf(current: Option<LogRoot>): nat {
    if current.Some? then current.value.treeSize else 0
  }

  function RevisionOf(current: Option<LogRoot>): int {
    if current.Some? then current.value.treeRevision else 0
  }

  /** What a transaction that read `current` stores when it appends `batch`. */
  ghost predicate Appends(h: LogHasher, commits: seq<Commit>, current: Option<LogRoot>, batch: seq<Hash>, c: Commit) {
    var n := SizeOf(current);
    && n <= |Sequenced(commits)|
    && var d := Sequenced(commits)[..n];
    && c.root == LogRoot(n + |batch|, Root(h, d + batch), c.root.timestampNanos, RevisionOf(current) + 1)
    && c.leaves == Numbered(batch, n)
    && Extends(h, d, d + batch, c.nodes)
  }

  /** The leaves under the root that was read, and the stored nodes over them. */
  lemma CurrentTree(h: LogHasher, commits: seq<Commit>, current: Option<LogRoot>)
    requires Chain(h, commits) && Reads(commits, current)
    ensures SizeOf(current) <= |Sequenced(commits)| && 0 <= RevisionOf(current) <= Top(commits)
    ensures
      var d := Sequenced(commits)[..SizeOf(current)];
      && Canonical(h, d, NodesAt(commits, RevisionOf(current)))
      && (current.Some? ==> current.value.rootHash == Root(h, d))
  {
    hide Chain, Canonical, Sequenced, NodesAt, MTH;
    if current.None? {
      EmptyCanonical(h);
      NoCommits();
    } else {
      var k :| 0 <= k < |commits| && commits[k].root == current.value;
      TopBounds(h, commits, k);
      ReadAtRoot(h, commits, k);
      RootOfLeaves(h, commits, k);
      var d, n := Sequenced(commits), SizeOf(current);
      assert d[..n][0..n] == d[0..n];
      MTHLocal(h, d[..n], d, 0, n, 0);
    }
  }

  lemma NoCommits()
    ensures Sequenced([]) == [] && forall r :: NodesAt([], r) == map[]
  {
  }

  /** The whole of IntegrateBatch on the snapshot `log`, having read the root `current` and dequeued `batch`: fails
      without a root, does nothing if there is nothing to do, and otherwise produces the commit that appends the
      batch. The tree in storage is never found corrupt and no leaf index is found wrong. */
  method IntegrateBatch(h: LogHasher, log: LogState, current: Option<LogRoot>, batch: seq<Hash>, writeRevision: int,
                        now: int, rootTime: int, maxRootDuration: int)
      returns (r: Result<Option<Commit>, SequenceError>)
    requires LogInv(h, log) && Reads(log.commits, current)
    ensures current.None? ==> r == Err(TreeNeedsInit)
    ensures current.Some? ==>
              if batch == [] && (maxRootDuration == 0 || now - current.value.timestampNanos < maxRootDuration) then
                r == Ok(None)
              else if writeRevision != current.value.treeRevision + 1 then r == Err(WrongWriteRevision)
              else r.Ok? && r.value.Some? && Appends(h, log.commits, current, batch, r.value.value)
                   && r.value.value.root.timestampNanos == rootTime
  {
    hide Canonical, Extends, Chain, Sequenced, NodesAt, Reads;
    if current.None? { return Err(TreeNeedsInit); }
    var currentRoot := current.value;
    CurrentTree(h, log.commits, current);
    ghost var d := Sequenced(log.commits)[..currentRoot.treeSize];
    var leaves := AssignIndices(batch, currentRoot.treeSize);
    if |leaves| == 0 {
      if maxRootDuration == 0 || now - currentRoot.timestampNanos < maxRootDuration { return Ok(None); }
    }
    var tree := InitMerkleTreeFromStorage(h, currentRoot, NodesAt(log.commits, currentRoot.treeRevision), d);
    if tree.Err? { assert false; }
    if writeRevision != currentRoot.treeRevision + 1 { return Err(WrongWriteRevision); }
    var mt := tree.value;
    var nodeMap := UpdateCompactTree(mt, leaves, d);
    if nodeMap.Err? { assert false; }
    return Ok(Some(Commit(LogRoot(mt.size, mt.root, rootTime, writeRevision), nodeMap.value, leaves)));
  }

  /** `logSequencingTask.fetch`: the dequeued leaves get consecutive indices from the tree size. */
  method AssignIndices(batch: seq<Hash>, treeSize: nat) returns (leaves: seq<LogLeaf>)
    ensures leaves == Numbered(batch, treeSize)
    ensures forall j :: 0 <= j < |leaves| ==> leaves[j].leafIndex == treeSize + j
  {
    leaves := [];
    for i := 0 to |batch|
      invariant |leaves| == i
      invariant forall j :: 0 <= j < i ==> leaves[j] == LogLeaf(treeSize + j, batch[j])
    {
      leaves := leaves + [LogLeaf(treeSize + i, batch[i])];
    }
  }

  /** A new root for the same leaves. There is no check that the log has a root: without one, the zero root is read
      and revision one is produced. */
  method SignRoot(h: LogHasher, log: LogState, current: Option<LogRoot>, rootTime: int)
      returns (r: Result<Commit, SequenceError>)
    requires LogInv(h, log) && Reads(log.commits, current)
    ensures r.Ok? && Appends(h, log.commits, current, [], r.value) && r.value.root.timestampNanos == rootTime
    ensures r.value.root.treeSize == SizeOf(current)
  {
    hide Canonical, Extends, Chain, Sequenced, NodesAt, Reads;
    var currentRoot := if current.Some? then current.value else LogRoot(0, h.emptyRoot, 0, 0);
    CurrentTree(h, log.commits, current);
    ghost var d := Sequenced(log.commits)[..currentRoot.treeSize];
    if current.None? { NoLeavesRoot(h, d); }
    var tree := InitMerkleTreeFromStorage(h, currentRoot, NodesAt(log.commits, currentRoot.treeRevision), d);
    if tree.Err? { assert false; }
    assert d + [] == d;
    ExtendsNothing(h, d);
    return Ok(Commit(LogRoot(tree.value.size, tree.value.root, rootTime, currentRoot.treeRevision + 1), map[], []));
  }

  // ---------- any number of sequencers ----------

  /** The log as a transaction sees it, and the root that it read. */
  datatype Snapshot = Snapshot(log: LogState, current: Option<LogRoot>)

  /** The open transactions, by sequencer. */
  datatype System = System(log: LogState, open: map<nat, Snapshot>)

  datatype Event =
    | QueueLeaf(leaf: Hash)
    | Begin(id: nat, current: Option<LogRoot>)
    | InitLog(id: nat, time: int)
    | Finish(id: nat, batch: seq<Hash>, commit: Commit)
    | Abandon(id: nat)

  /** Commits as a whole or, if the revision is taken, not at all. */
  function TryCommit(sys: System, id: nat, batch: seq<Hash>, c: Commit): System {
    var log := sys.log;
    System(
      if HasRevision(log.commits, c.root.treeRevision) then log
      else LogState(log.commits + [c], log.queue - multiset(batch), log.queued),
      sys.open - {id})
  }

  /** A transaction finishes with what `IntegrateBatch` or, for an empty batch, `SignRoot` computes from its snapshot.
      Only `SignRoot` gets there without a root. */
  ghost predicate Step(h: LogHasher, s: System, e: Event, s': System) {
    match e
    case QueueLeaf(leaf) =>
      s' == s.(log := s.log.(queue := s.log.queue + multiset{leaf}, queued := s.log.queued + multiset{leaf}))
    case Begin(id, current) =>
      Reads(s.log.commits, current) && s' == s.(open := s.open[id := Snapshot(s.log, current)])
    case InitLog(id, time) =>
      id in s.open && s.open[id].current.None? && s' == TryCommit(s, id, [], InitialCommit(h, time))
    case Finish(id, batch, c) =>
      && id in s.open
      && multiset(batch) <= s.open[id].log.queue && (s.open[id].current.None? ==> batch == [])
      && Appends(h, s.open[id].log.commits, s.open[id].current, batch, c)
      && s' == TryCommit(s, id, batch, c)
    case Abandon(id) => s' == s.(open := s.open - {id})
  }

  ghost predicate IsRun(h: LogHasher, states: seq<System>, events: seq<Event>) {
    && |states| == |events| + 1
    && states[0] == System(LogState([], multiset{}, multiset{}), map[])
    && forall k :: 0 <= k < |events| ==> Step(h, states[k], events[k], states[k + 1])
  }

  /** An open transaction started from an earlier state of the log; if the highest revision is still the same, what
      was queued then is queued still. */
  ghost predicate SnapshotInv(h: LogHasher, log: LogState, snap: Snapshot) {
    && Chain(h, snap.log.commits) && Reads(snap.log.commits, snap.current)
    && snap.log.commits <= log.commits
    && (Top(snap.log.commits) == Top(log.commits) ==> snap.log.queue <= log.queue)
  }

  ghost predicate SysInv(h: LogHasher, s: System) {
    LogInv(h, s.log) && forall id :: id in s.open ==> SnapshotInv(h, s.log, s.open[id])
  }

  lemma {:induction false} TopGrows(commits: seq<Commit>, n: nat)
    requires n <= |commits|
    ensures Top(commits[..n]) <= Top(commits)
  {
    if n < |commits| {
      TopGrows(commits[..|commits| - 1], n);
      assert commits[..|commits| - 1][..n] == commits[..n];
    } else {
      assert commits[..n] == commits;
    }
  }

  /** A transaction's commit goes through exactly if the root it read still has the highest revision. */
  lemma CommitsIffCurrent(h: LogHasher, log: LogState, snap: Snapshot)
    requires LogInv(h, log) && SnapshotInv(h, log, snap)
    ensures RevisionOf(snap.current) <= Top(snap.log.commits) <= Top(log.commits)
    ensures HasRevision(log.commits, RevisionOf(snap.current) + 1) <==> RevisionOf(snap.current) < Top(log.commits)
  {
    hide Chain, Canonical, Top;
    CurrentTree(h, snap.log.commits, snap.current);
    TopGrows(log.commits, |snap.log.commits|);
    assert log.commits[..|snap.log.commits|] == snap.log.commits;
    if RevisionOf(snap.current) < Top(log.commits) {
      RevisionTaken(h, log.commits, RevisionOf(snap.current) + 1);
    }
    if HasRevision(log.commits, RevisionOf(snap.current) + 1) {
      var k :| 0 <= k < |log.commits| && log.commits[k].root.treeRevision == RevisionOf(snap.current) + 1;
      TopBounds(h, log.commits, k);
    }
  }

  /** The root that was read is then that of all leaves. */
  lemma CurrentIsWhole(h: LogHasher, log: LogState, snap: Snapshot)
    requires LogInv(h, log) && SnapshotInv(h, log, snap) && RevisionOf(snap.current) == Top(log.commits)
    ensures SizeOf(snap.current) <= |Sequenced(snap.log.commits)|
    ensures Sequenced(snap.log.commits)[..SizeOf(snap.current)] == Sequenced(log.commits)
  {
    hide Chain, Canonical, Top, Sequenced;
    CurrentTree(h, snap.log.commits, snap.current);
    SequencedPrefix(log.commits, |snap.log.commits|);
    assert log.commits[..|snap.log.commits|] == snap.log.commits;
    if snap.current.None? {
      NothingAtTopZero(h, log.commits);
    } else {
      var k :| 0 <= k < |snap.log.commits| && snap.log.commits[k].root == snap.current.value;
      assert log.commits[k] == snap.log.commits[k];
      TopIsWhole(h, log.commits, k);
    }
  }

  lemma FinishFollows(h: LogHasher, log: LogState, snap: Snapshot, batch: seq<Hash>, c: Commit)
    requires LogInv(h, log) && SnapshotInv(h, log, snap) && Appends(h, snap.log.commits, snap.current, batch, c)
    requires RevisionOf(snap.current) == Top(log.commits)
    ensures Follows(h, log.commits, c) && LeafHashes(c.leaves) == batch
            && c.root.treeRevision == Top(log.commits) + 1 > 0
  {
    hide Chain, Canonical, Top, Sequenced, MTH, Extends;
    CurrentIsWhole(h, log, snap);
    TopNotNegative(log.commits);
    assert |Sequenced(log.commits)| == SizeOf(snap.current);
  }

  lemma Appended(commits: seq<Commit>, c: Commit)
    ensures Sequenced(commits + [c]) == Sequenced(commits) + LeafHashes(c.leaves)
    ensures Top(commits + [c]) == if Top(commits) < c.root.treeRevision then c.root.treeRevision else Top(commits)
  {
    hide LeafHashes;
    assert (commits + [c])[..|commits|] == commits;
  }

  /** A commit that follows the log keeps its invariant and that of every other open transaction. */
  lemma CommitKeepsInv(h: LogHasher, s: System, id: nat, batch: seq<Hash>, c: Commit)
    requires SysInv(h, s) && Follows(h, s.log.commits, c) && LeafHashes(c.leaves) == batch
             && multiset(batch) <= s.log.queue
    requires c.root.treeRevision > Top(s.log.commits) || batch == []
    ensures SysInv(h, System(LogState(s.log.commits + [c], s.log.queue - multiset(batch), s.log.queued), s.open - {id}))
  {
    hide Chain, Follows, Sequenced, Top, LeafHashes, Reads;
    var log' := LogState(s.log.commits + [c], s.log.queue - multiset(batch), s.log.queued);
    ChainStep(h, s.log.commits, c);
    Appended(s.log.commits, c);
    forall other | other in s.open - {id} ensures SnapshotInv(h, log', s.open[other]) {
      var snap := s.open[other];
      assert SnapshotInv(h, s.log, snap);
      assert log'.commits[..|s.log.commits|] == s.log.commits;
      TopGrows(s.log.commits, |snap.log.commits|);
      assert s.log.commits[..|snap.log.commits|] == snap.log.commits;
    }
  }

  /** A sequencer's transaction commits exactly if the root it read still has the highest revision, and `InitLog`
      exactly if revision zero is free. Otherwise nothing changes. */
  lemma OvertakenIsRejected(h: LogHasher, s: System, e: Event, s': System)
    requires SysInv(h, s) && Step(h, s, e, s') && (e.Finish? || e.InitLog?)
    ensures s'.log == s.log || |s'.log.commits| == |s.log.commits| + 1
    ensures e.Finish? ==> (s'.log != s.log <==> RevisionOf(s.open[e.id].current) == Top(s.log.commits))
    ensures e.InitLog? ==> (s'.log != s.log <==> !HasRevision(s.log.commits, 0))
  {
    hide LogInv, Top, HasRevision, Sequenced;
    var snap := s.open[e.id];
    assert SnapshotInv(h, s.log, snap);
    CommitsIffCurrent(h, s.log, snap);
  }

  /** Every step of every sequencer keeps the invariant, and the log only grows. */
  lemma StepKeepsInv(h: LogHasher, s: System, e: Event, s': System)
    requires SysInv(h, s) && Step(h, s, e, s')
    ensures SysInv(h, s')
    ensures s.log.commits <= s'.log.commits
  {
    hide LogInv, Appends, Follows, HasRevision, Top, Chain, Reads;
    match e
    case QueueLeaf(leaf) =>
      QueueKeepsInv(h, s.log, leaf);
      forall id | id in s.open ensures SnapshotInv(h, s'.log, s.open[id]) { assert SnapshotInv(h, s.log, s.open[id]); }
    case Begin(id, current) =>
      LogIsChain(h, s.log);
    case Abandon(id) =>
    case InitLog(id, time) =>
      if !HasRevision(s.log.commits, 0) {
        InitFollows(h, s.log.commits, time);
        CommitKeepsInv(h, s, id, [], InitialCommit(h, time));
      }
    case Finish(id, batch, c) =>
      var snap := s.open[id];
      assert SnapshotInv(h, s.log, snap);
      CommitsIffCurrent(h, s.log, snap);
      AppendsNext(h, snap, batch, c);
      if !HasRevision(s.log.commits, c.root.treeRevision) {
        FinishFollows(h, s.log, snap, batch, c);
        CommitKeepsInv(h, s, id, batch, c);
      }
  }

  lemma LogIsChain(h: LogHasher, log: LogState)
    requires LogInv(h, log)
    ensures Chain(h, log.commits)
  {
  }

  lemma AppendsNext(h: LogHasher, snap: Snapshot, batch: seq<Hash>, c: Commit)
    requires Appends(h, snap.log.commits, snap.current, batch, c)
    ensures c.root.treeRevision == RevisionOf(snap.current) + 1
  {
  }

  lemma InitFollows(h: LogHasher, commits: seq<Commit>, time: int)
    requires !HasRevision(commits, 0)
    ensures Follows(h, commits, InitialCommit(h, time)) && LeafHashes(InitialCommit(h, time).leaves) == []
  {
  }

  lemma QueueKeepsInv(h: LogHasher, log: LogState, leaf: Hash)
    requires LogInv(h, log)
    ensures LogInv(h, log.(queue := log.queue + multiset{leaf}, queued := log.queued + multiset{leaf}))
  {
    hide Chain, Sequenced;
  }

  /** In every run of any number of sequencers the invariant holds throughout and commits are never undone. */
  lemma {:induction false} RunKeepsInv(h: LogHasher, states: seq<System>, events: seq<Event>, j: nat, k: nat)
    requires IsRun(h, states, events) && j <= k < |states|
    ensures SysInv(h, states[k])
    ensures states[j].log.commits <= states[k].log.commits
  {
    hide LogInv, Step;
    if k == 0 {
      EmptyLogInv(h);
    } else if j < k {
      RunKeepsInv(h, states, events, j, k - 1);
      StepKeepsInv(h, states[k - 1], events[k - 1], states[k]);
    } else {
      RunKeepsInv(h, states, events, j - 1, k - 1);
      StepKeepsInv(h, states[k - 1], events[k - 1], states[k]);
    }
  }

  lemma EmptyLogInv(h: LogHasher)
    ensures LogInv(h, LogState([], multiset{}, multiset{}))
  {
  }

  // ---------- what holds of every run ----------

  /** The committed roots form one chain over one list of leaves. In order of revision sizes never shrink; no revision
      is stored twice and none between one and the highest is missing; each root is that of a prefix of the final
      leaves; every leaf keeps its index; and no leaf is lost or sequenced twice. */
  lemma OneChain(h: LogHasher, states: seq<System>, events: seq<Event>, k: nat, i: nat, j: nat)
    requires IsRun(h, states, events) && k < |states| && i < |states[k].log.commits| && j < |states[k].log.commits|
    ensures
      var log := states[k].log;
      var d, a, b := Sequenced(log.commits), log.commits[i], log.commits[j];
      && (a.root.treeRevision == b.root.treeRevision ==> i == j)
      && (forall r :: 1 <= r <= Top(log.commits) ==> HasRevision(log.commits, r))
      && (a.root.treeRevision <= b.root.treeRevision ==> a.root.treeSize <= b.root.treeSize)
      && a.root.treeSize <= |d| && a.root.rootHash == MTH(h, d, 0, a.root.treeSize)
      && (forall x :: 0 <= x < |a.leaves| ==>
            && 0 <= a.leaves[x].leafIndex < |d|
            && d[a.leaves[x].leafIndex] == a.leaves[x].merkleLeafHash)
      && multiset(d) + log.queue == log.queued
  {
    hide MTH, Canonical, IsRun, Top, Sequenced, HasRevision, Chain;
    RunKeepsInv(h, states, events, k, k);
    var commits := states[k].log.commits;
    forall r | 1 <= r <= Top(commits) ensures HasRevision(commits, r) { RevisionTaken(h, commits, r); }
    if i < j { RevisionsDiffer(h, commits, i, j); }
    if j < i { RevisionsDiffer(h, commits, j, i); }
    TopBounds(h, commits, i);
    RootOfLeaves(h, commits, i);
    RootOfLeaves(h, commits, j);
    if i <= j && commits[j].root.treeRevision != 0 { SizesGrow(h, commits, i, j); }
    LeavesInPlace(h, commits, i);
  }

  lemma SizesGrow(h: LogHasher, commits: seq<Commit>, i: nat, j: nat)
    requires Chain(h, commits) && i <= j < |commits| && commits[j].root.treeRevision != 0
    ensures commits[i].root.treeSize <= commits[j].root.treeSize
  {
    hide Sequenced, MTH, Chain;
    ChainPrefix(h, commits, j + 1);
    var upTo := commits[..j + 1];
    assert upTo[i] == commits[i];
    RootOfLeaves(h, upTo, i);
    RootOfLeaves(h, commits, j);
  }

  lemma LeavesInPlace(h: LogHasher, commits: seq<Commit>, i: nat)
    requires Chain(h, commits) && i < |commits|
    ensures forall x :: 0 <= x < |commits[i].leaves| ==>
              && 0 <= commits[i].leaves[x].leafIndex < |Sequenced(commits)|
              && Sequenced(commits)[commits[i].leaves[x].leafIndex] == commits[i].leaves[x].merkleLeafHash
  {
    hide LeafHashes, Sequenced, MTH, Extends;
    assert Follows(h, commits[..i], commits[i]);
    var d, e := Sequenced(commits), Sequenced(commits[..i + 1]);
    SequencedPrefix(commits, i + 1);
    SequencedStep(commits, i);
    forall x | 0 <= x < |commits[i].leaves|
      ensures 0 <= commits[i].leaves[x].leafIndex < |d|
      ensures d[commits[i].leaves[x].leafIndex] == commits[i].leaves[x].merkleLeafHash
    {
      var p := |Sequenced(commits[..i])| + x;
      assert e[p] == LeafHashes(commits[i].leaves)[x];
      assert d[p] == e[p];
    }
  }

  // ---------- when revisions rise by one ----------

  /** In the order they were committed. */
  predicate RevisionsRise(commits: seq<Commit>) {
    forall i :: 0 < i < |commits| ==> commits[i].root.treeRevision == commits[i - 1].root.treeRevision + 1
  }

  predicate SizesRise(commits: seq<Commit>) {
    forall i, j :: 0 <= i <= j < |commits| ==> commits[i].root.treeSize <= commits[j].root.treeSize
  }

  /** `InitLog` finds revision zero free although the log has a root. */
  predicate LateInit(s: System, e: Event) {
    e.InitLog? && s.log.commits != [] && !HasRevision(s.log.commits, 0)
  }

  predicate InitFirst(commits: seq<Commit>) {
    forall i :: 0 < i < |commits| ==> commits[i].root.treeRevision != 0
  }

  lemma RiseIffInitFirst(h: LogHasher, commits: seq<Commit>)
    requires Chain(h, commits)
    ensures RevisionsRise(commits) <==> InitFirst(commits)
  {
    hide Chain, Follows, Top;
    if RevisionsRise(commits) {
      forall i | 0 < i < |commits| ensures commits[i].root.treeRevision != 0 { TopBounds(h, commits, i - 1); }
    }
    if InitFirst(commits) {
      forall i | 0 < i < |commits| ensures commits[i].root.treeRevision == commits[i - 1].root.treeRevision + 1 {
        NextRevision(h, commits, i);
      }
    }
  }

  lemma NextRevision(h: LogHasher, commits: seq<Commit>, i: nat)
    requires Chain(h, commits) && 0 < i < |commits| && commits[i].root.treeRevision != 0
    requires i > 1 ==> commits[i - 1].root.treeRevision != 0
    ensures commits[i].root.treeRevision == commits[i - 1].root.treeRevision + 1
  {
    hide Sequenced, LeafHashes, Numbered, Extends, MTH, HasRevision;
    assert Follows(h, commits[..i], commits[i]);
    TopBounds(h, commits, i - 1);
    if commits[i - 1].root.treeRevision != 0 {
      TopAt(h, commits, i - 1);
    } else {
      assert commits[..1][..0] == [];
    }
  }

  /** In commit order sizes never shrink exactly if `InitLog` never commits after leaves were sequenced. */
  lemma SizesRiseIff(h: LogHasher, commits: seq<Commit>)
    requires Chain(h, commits)
    ensures SizesRise(commits) <==>
            forall k :: 0 <= k < |commits| && commits[k].root.treeRevision == 0 ==> Sequenced(commits[..k]) == []
  {
    hide Chain, Follows, Top, Sequenced, MTH;
    if SizesRise(commits) {
      forall k | 0 <= k < |commits| && commits[k].root.treeRevision == 0 ensures Sequenced(commits[..k]) == [] {
        ChainPrefix(h, commits, k);
        RootOfLeaves(h, commits, k);
        NothingBefore(h, commits[..k]);
      }
    }
    if forall k :: 0 <= k < |commits| && commits[k].root.treeRevision == 0 ==> Sequenced(commits[..k]) == [] {
      forall i, j | 0 <= i <= j < |commits| ensures commits[i].root.treeSize <= commits[j].root.treeSize {
        if commits[j].root.treeRevision != 0 {
          SizesGrow(h, commits, i, j);
        } else if i < j {
          ChainPrefix(h, commits, j);
          RootOfLeaves(h, commits[..j], i);
        }
      }
    }
  }

  /** A history in which every root is that of the empty tree has no leaves. */
  lemma NothingBefore(h: LogHasher, commits: seq<Commit>)
    requires Chain(h, commits) && forall i :: 0 <= i < |commits| ==> commits[i].root.treeSize == 0
    ensures Sequenced(commits) == []
  {
    hide Chain, Follows, Sequenced;
    if Top(commits) == 0 {
      NothingAtTopZero(h, commits);
    } else {
      TopNotNegative(commits);
      RevisionTaken(h, commits, Top(commits));
      var k :| 0 <= k < |commits| && commits[k].root.treeRevision == Top(commits);
      TopIsWhole(h, commits, k);
    }
  }

  /** In every run, the revisions rise by exactly one in commit order exactly if `InitLog` never commits onto a log
      that has a root. */
  lemma RevisionsRiseIff(h: LogHasher, states: seq<System>, events: seq<Event>, k: nat)
    requires IsRun(h, states, events) && k < |states|
    ensures RevisionsRise(states[k].log.commits) <==>
            forall j :: 0 <= j < k ==> !LateInit(states[j], events[j])
  {
    hide IsRun, Chain, RevisionsRise, LateInit;
    RunKeepsInv(h, states, events, k, k);
    RiseIffInitFirst(h, states[k].log.commits);
    InitFirstIff(h, states, events, k);
  }

  lemma {:induction false} InitFirstIff(h: LogHasher, states: seq<System>, events: seq<Event>, k: nat)
    requires IsRun(h, states, events) && k < |states|
    ensures InitFirst(states[k].log.commits) <==>
            forall j :: 0 <= j < k ==> !LateInit(states[j], events[j])
  {
    hide SysInv, Step, LateInit, InitFirst;
    if k == 0 {
      assert InitFirst(states[0].log.commits) by { NoCommitIsLate(); }
    } else {
      InitFirstIff(h, states, events, k - 1);
      RunKeepsInv(h, states, events, k - 1, k - 1);
      StepIsLate(h, states[k - 1], events[k - 1], states[k]);
    }
  }

  lemma NoCommitIsLate()
    ensures InitFirst([])
  {
  }

  lemma OneMore(commits: seq<Commit>, c: Commit)
    ensures InitFirst(commits + [c]) <==> InitFirst(commits) && (commits == [] || c.root.treeRevision != 0)
  {
    var after := commits + [c];
    assert after[|commits|] == c && forall i :: 0 <= i < |commits| ==> after[i] == commits[i];
  }

  lemma StepIsLate(h: LogHasher, s: System, e: Event, s': System)
    requires SysInv(h, s) && Step(h, s, e, s')
    ensures InitFirst(s'.log.commits) <==> InitFirst(s.log.commits) && !LateInit(s, e)
  {
    hide LogInv, Top, Sequenced, Chain, Appends, Reads, InitFirst, HasRevision;
    if (e.Finish? || e.InitLog?) && s'.log != s.log {
      OneMore(s.log.commits, if e.Finish? then e.commit else InitialCommit(h, e.time));
      if e.Finish? {
        var snap := s.open[e.id];
        assert SnapshotInv(h, s.log, snap);
        AppendsNext(h, snap, e.batch, e.commit);
        CurrentTree(h, snap.log.commits, snap.current);
      }
    }
  }

  /** A run in which they do not, nor do the sizes: two transactions begin on a log without a root; `SignRoot` stores
      revision one, a leaf is integrated at revision two, and then `InitLog` stores revision zero. */
  lemma SignBeforeInit(h: LogHasher, leaf: Hash, t1: int, t2: int, t3: int)
      returns (states: seq<System>, events: seq<Event>)
    ensures IsRun(h, states, events)
    ensures
      var commits := states[|states| - 1].log.commits;
      && |commits| == 3
      && commits[0].root.treeRevision == 1 && commits[1].root.treeRevision == 2 && commits[2].root.treeRevision == 0
      && commits[1].root.treeSize == 1 && commits[2].root.treeSize == 0
      && !RevisionsRise(commits) && !SizesRise(commits)
  {
    hide Appends, TryCommit, Reads, IsRun;
    var c1 := Commit(LogRoot(0, h.emptyRoot, t1, 1), map[], []);
    var c2 := Commit(LogRoot(1, leaf, t2, 2), map[Coord(0, 0) := leaf], [LogLeaf(0, leaf)]);
    var c0 := InitialCommit(h, t3);
    var empty, queued := LogState([], multiset{}, multiset{}), LogState([c1], multiset{leaf}, multiset{leaf});
    var none, some := Snapshot(empty, None), Snapshot(queued, Some(c1.root));
    var last := System(LogState([c1, c2, c0], multiset{}, multiset{leaf}), map[]);
    ReadsFirst(c1);
    SignsFirst(h, t1);
    IntegratesOne(h, leaf, t1, t2);
    states, events := [System(empty, map[])], [];
    NoSteps(h);
    states, events := Extended(h, states, events, Begin(0, None), System(empty, map[0 := none]));
    states, events := Extended(h, states, events, Begin(1, None), System(empty, map[0 := none, 1 := none]));
    Commits(System(empty, map[0 := none, 1 := none]), 0, [], c1,
        System(LogState([c1], multiset{}, multiset{}), map[1 := none]));
    states, events := Extended(h, states, events, Finish(0, [], c1),
        System(LogState([c1], multiset{}, multiset{}), map[1 := none]));
    states, events := Extended(h, states, events, QueueLeaf(leaf), System(queued, map[1 := none]));
    states, events := Extended(h, states, events, Begin(2, Some(c1.root)), System(queued, map[1 := none, 2 := some]));
    Commits(System(queued, map[1 := none, 2 := some]), 2, [leaf], c2,
        System(LogState([c1, c2], multiset{}, multiset{leaf}), map[1 := none]));
    states, events := Extended(h, states, events, Finish(2, [leaf], c2),
        System(LogState([c1, c2], multiset{}, multiset{leaf}), map[1 := none]));
    Commits(System(LogState([c1, c2], multiset{}, multiset{leaf}), map[1 := none]), 1, [], c0, last);
    states, events := Extended(h, states, events, InitLog(1, t3), last);
  }

  lemma NoSteps(h: LogHasher)
    ensures IsRun(h, [System(LogState([], multiset{}, multiset{}), map[])], [])
  {
  }

  lemma Extended(h: LogHasher, states: seq<System>, events: seq<Event>, e: Event, s: System)
      returns (states': seq<System>, events': seq<Event>)
    requires IsRun(h, states, events) && |states| > 0 && Step(h, states[|states| - 1], e, s)
    ensures IsRun(h, states', events') && |states'| > 0 && states'[|states'| - 1] == s
  {
    hide Step;
    states', events' := states + [s], events + [e];
  }

  lemma ReadsFirst(c: Commit)
    ensures Reads([], None) && Reads([c], Some(c.root))
  {
    assert [c][0].root == c.root;
  }

  lemma Commits(s: System, id: nat, batch: seq<Hash>, c: Commit, s': System)
    requires !HasRevision(s.log.commits, c.root.treeRevision) && s'.log.commits == s.log.commits + [c]
    requires s'.log.queue == s.log.queue - multiset(batch) && s'.log.queued == s.log.queued && s'.open == s.open - {id}
    ensures s' == TryCommit(s, id, batch, c)
  {
  }

  lemma SignsFirst(h: LogHasher, time: int)
    ensures Appends(h, [], None, [], Commit(LogRoot(0, h.emptyRoot, time, 1), map[], []))
  {
    NoLeavesRoot(h, []);
    ExtendsNothing(h, []);
  }

  lemma IntegratesOne(h: LogHasher, leaf: Hash, t1: int, t2: int)
    ensures
      var c1 := Commit(LogRoot(0, h.emptyRoot, t1, 1), map[], []);
      Appends(h, [c1], Some(c1.root), [leaf],
          Commit(LogRoot(1, leaf, t2, 2), map[Coord(0, 0) := leaf], [LogLeaf(0, leaf)]))
  {
    var store := map[Coord(0, 0) := leaf];
    assert [] + [leaf] == [leaf];
    forall s | Canonical(h, [], s) ensures Canonical(h, [leaf], s + store) {
      forall c: Coord ensures Stored(c, 1) <==> c == Coord(0, 0) { OneStored(c); }
      forall c: Coord ensures c !in s { assert c in s ==> Stored(c, 0); }
      assert s + store == store;
      LeafNode(h, [leaf], 0, 1);
    }
  }

  lemma OneStored(c: Coord)
    ensures Stored(c, 1) <==> c == Coord(0, 0)
  {
    if c.level > 0 {
      ShlZero(c.level - 1);
      ShlMonotone(0, 2 * c.index + 1, c.level - 1);
    }
  }
}
