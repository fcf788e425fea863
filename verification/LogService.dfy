/** From sequencing to the client: what the server (server/log_rpc_server.go) answers in any reachable state of the
    sequencers, read at the revision of any committed root. */
module LogService {
  import opened Bits
  import opened Hashing
  import opened Rfc6962
  import opened LogTree
  import opened LogVerifier
  import opened MerklePath
  import opened ProofFetcher
  import Sequencer
  import LogClient

  /** The leaves that a committed root covers. */
  ghost function LeavesAt(log: Sequencer.LogState, k: nat): seq<Hash>
    requires k < |log.commits| && log.commits[k].root.treeSize <= |Sequencer.Sequenced(log.commits)|
  {
    Sequencer.Sequenced(log.commits)[..log.commits[k].root.treeSize]
  }

  /** In every reachable state, storage read at the revision of a committed root is canonical for its leaves. */
  lemma ReachableStore(h: LogHasher, states: seq<Sequencer.System>, events: seq<Sequencer.Event>, n: nat, k: nat)
    requires Sequencer.IsRun(h, states, events) && n < |states| && k < |states[n].log.commits|
    ensures
      var log := states[n].log;
      var root := log.commits[k].root;
      && root.treeSize <= |Sequencer.Sequenced(log.commits)| && root.rootHash == Root(h, LeavesAt(log, k))
      && Canonical(h, LeavesAt(log, k), Sequencer.NodesAt(log.commits, root.treeRevision))
  {
    hide Canonical, Sequencer.IsRun, Sequencer.Chain, Sequencer.NodesAt, Sequencer.Sequenced, MTH;
    var log := states[n].log;
    Sequencer.RunKeepsInv(h, states, events, n, n);
    Sequencer.ReadAtRoot(h, log.commits, k);
    Sequencer.RootOfLeaves(h, log.commits, k);
    var d, size := Sequencer.Sequenced(log.commits), log.commits[k].root.treeSize;
    assert d[..size][0..size] == d[0..size];
    MTHLocal(h, d[..size], d, 0, size, 0);
  }

  /** An inclusion proof request in state `n`, read at the root of commit `k`: PATH, and the client accepts it. */
  method ServeInclusion(h: LogHasher, log: Sequencer.LogState, k: nat, snapshot: int, leafIndex: int,
                        ghost states: seq<Sequencer.System>, ghost events: seq<Sequencer.Event>, ghost n: nat)
      returns (r: Result<seq<Hash>, ServeError>)
    requires Sequencer.IsRun(h, states, events) && n < |states| && states[n].log == log && k < |log.commits|
    ensures log.commits[k].root.treeSize <= |Sequencer.Sequenced(log.commits)|
    ensures
      var d, size := LeavesAt(log, k), log.commits[k].root.treeSize;
      0 <= leafIndex < snapshot <= size <= Pow2(PROOF_MAX_BIT_LEN) ==>
        && r == Ok(InclusionProof(h, d, leafIndex, snapshot))
        && InclusionCheck(h, leafIndex, snapshot, r.value, MTH(h, d, 0, snapshot), d[leafIndex]).Ok?
        && (snapshot == size ==> MTH(h, d, 0, snapshot) == log.commits[k].root.rootHash)
  {
    hide Canonical, Sequencer.IsRun, Sequencer.NodesAt, Sequencer.Sequenced, MTH, Path, Pow2;
    ReachableStore(h, states, events, n, k);
    var root := log.commits[k].root;
    r := GetInclusionProof(h, Sequencer.NodesAt(log.commits, root.treeRevision), snapshot, leafIndex, root.treeSize,
        LeavesAt(log, k));
  }

  /** A consistency proof request, likewise: PROOF, and the client accepts it. */
  method ServeConsistency(h: LogHasher, log: Sequencer.LogState, k: nat, snapshot1: int, snapshot2: int,
                          ghost states: seq<Sequencer.System>, ghost events: seq<Sequencer.Event>, ghost n: nat)
      returns (r: Result<seq<Hash>, ServeError>)
    requires Sequencer.IsRun(h, states, events) && n < |states| && states[n].log == log && k < |log.commits|
    ensures log.commits[k].root.treeSize <= |Sequencer.Sequenced(log.commits)|
    ensures
      var d, size := LeavesAt(log, k), log.commits[k].root.treeSize;
      0 < snapshot1 <= snapshot2 <= size <= Pow2(PROOF_MAX_BIT_LEN) ==>
        && r == Ok(ConsistencyProof(h, d, snapshot1, snapshot2))
        && ConsistencyCheck(h, snapshot1, snapshot2, MTH(h, d, 0, snapshot1), MTH(h, d, 0, snapshot2), r.value).Ok?
  {
    hide Canonical, Sequencer.IsRun, Sequencer.NodesAt, Sequencer.Sequenced, MTH, SubProof, Pow2;
    ReachableStore(h, states, events, n, k);
    var root := log.commits[k].root;
    r := GetConsistencyProof(h, Sequencer.NodesAt(log.commits, root.treeRevision), snapshot1, snapshot2, root.treeSize,
        LeavesAt(log, k));
  }

  function Signed(root: Sequencer.LogRoot): LogClient.SignedLogRoot {
    LogClient.SignedLogRoot(root.treeSize, root.rootHash, root.timestampNanos)
  }

  /** A client that trusts one committed root takes every other of a higher revision and a later time, with the proof
      that the server serves for it: roots of one run never look inconsistent. */
  lemma ClientFollowsRun(h: LogHasher, states: seq<Sequencer.System>, events: seq<Sequencer.Event>, n: nat, i: nat,
                         j: nat, proof: seq<Hash>)
    requires Sequencer.IsRun(h, states, events) && n < |states|
    requires i < |states[n].log.commits| && j < |states[n].log.commits|
    requires
      var a, b := states[n].log.commits[i].root, states[n].log.commits[j].root;
      && a.treeRevision <= b.treeRevision && a.timestampNanos < b.timestampNanos
      && b.treeSize <= |Sequencer.Sequenced(states[n].log.commits)|
      && (0 < a.treeSize <= b.treeSize ==>
           proof == ConsistencyProof(h, LeavesAt(states[n].log, j), a.treeSize, b.treeSize))
      && (a.treeSize == 0 ==> proof == [])
    ensures
      var a, b := Signed(states[n].log.commits[i].root), Signed(states[n].log.commits[j].root);
      LogClient.Updated(h, a, LogClient.Reply(Ok(LogClient.LatestRoot(b, true)), Ok(proof))) == b
  {
    hide Canonical, Sequencer.IsRun, Sequencer.NodesAt, Sequencer.Sequenced, MTH, SubProof, ConsistencyCheck,
         Sequencer.Top, Sequencer.HasRevision, LogClient.Updated;
    var log := states[n].log;
    var a, b := log.commits[i].root, log.commits[j].root;
    Sequencer.OneChain(h, states, events, n, i, j);
    ReachableStore(h, states, events, n, j);
    var d, all := LeavesAt(log, j), Sequencer.Sequenced(log.commits);
    assert d[0..a.treeSize] == all[0..a.treeSize];
    MTHLocal(h, d, all, 0, a.treeSize, 0);
    LogClient.HonestUpdateAccepted(h, d, a.treeSize, b.treeSize, a.timestampNanos, b.timestampNanos);
  }
}
