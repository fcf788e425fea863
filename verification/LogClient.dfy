/** The log client (client/log_client.go, client/log_verifier.go): a trusted root that advances over a run of
    server replies. A reply carries what the two calls returned and whether the signature verified. */
module LogClient {
  import opened Hashing
  import opened Rfc6962
  import opened LogVerifier

  datatype SignedLogRoot = SignedLogRoot(treeSize: int, rootHash: Hash, timestampNanos: int)

  datatype ClientError = RpcFailed | BadSignature | Inconsistent(e: ProofError)

  datatype LatestRoot = LatestRoot(root: SignedLogRoot, signatureValid: bool)

  /** The answers to GetLatestSignedLogRoot and, if it is asked, GetConsistencyProof. */
  datatype Reply = Reply(latest: Result<LatestRoot, ()>, consistency: Result<seq<Hash>, ()>)

  function VerifyRoot(h: LogHasher, trusted: SignedLogRoot, latest: LatestRoot,
                      consistency: seq<Hash>): Result<(), ClientError> {
    if !latest.signatureValid then Err(BadSignature)
    else if trusted.treeSize != 0 then
      match ConsistencyCheck(h, trusted.treeSize, latest.root.treeSize, trusted.rootHash, latest.root.rootHash,
          consistency)
      case Ok(_) => Ok(())
      case Err(e) => Err(Inconsistent(e))
    else Ok(())
  }

  /** The proof in a reply; without a request there is none. */
  function ProofOf(trusted: SignedLogRoot, reply: Reply): seq<Hash> {
    if trusted.treeSize > 0 && reply.consistency.Ok? then reply.consistency.value else []
  }

  function GetLatestRoot(h: LogHasher, trusted: SignedLogRoot, reply: Reply): Result<SignedLogRoot, ClientError> {
    if reply.latest.Err? then Err(RpcFailed)
    else
      var root := reply.latest.value.root;
      if trusted.treeSize > 0 && root.treeSize == trusted.treeSize && root.rootHash == trusted.rootHash then Ok(root)
      else if trusted.treeSize > 0 && reply.consistency.Err? then Err(RpcFailed)
      else if root.treeSize > 0 then
        match VerifyRoot(h, trusted, reply.latest.value, ProofOf(trusted, reply))
        case Ok(_) => Ok(root)
        case Err(e) => Err(e)
      else Ok(root)
  }

  /** The trusted root after one update. */
  function Updated(h: LogHasher, trusted: SignedLogRoot, reply: Reply): SignedLogRoot {
    match GetLatestRoot(h, trusted, reply)
    case Err(_) => trusted
    case Ok(root) =>
      if root.timestampNanos > trusted.timestampNanos && root.treeSize >= trusted.treeSize then root else trusted
  }

  /** The reply's root is the trusted one again, but for its time. */
  predicate Repeats(trusted: SignedLogRoot, reply: Reply)
    requires reply.latest.Ok?
  {
    var root := reply.latest.value.root;
    trusted.treeSize > 0 && root.treeSize == trusted.treeSize && root.rootHash == trusted.rootHash
  }

  /** One of the calls that are made failed. */
  predicate CallFailed(trusted: SignedLogRoot, reply: Reply) {
    reply.latest.Err? || (!Repeats(trusted, reply) && trusted.treeSize > 0 && reply.consistency.Err?)
  }

  /** Both answered, with a new root of at least one leaf. */
  predicate NewRoot(trusted: SignedLogRoot, reply: Reply) {
    !CallFailed(trusted, reply) && !Repeats(trusted, reply) && reply.latest.value.root.treeSize > 0
  }

  /** What is checked of a new root if something is trusted. */
  function CheckOf(h: LogHasher, trusted: SignedLogRoot, reply: Reply): Result<(), ProofError>
    requires NewRoot(trusted, reply)
  {
    var root := reply.latest.value.root;
    ConsistencyCheck(h, trusted.treeSize, root.treeSize, trusted.rootHash, root.rootHash,
      if trusted.treeSize > 0 then reply.consistency.value else [])
  }

  /** When an update fails, and with which error. */
  ghost predicate FailsAs(h: LogHasher, trusted: SignedLogRoot, reply: Reply, r: Result<SignedLogRoot, ClientError>) {
    && (r == Err(RpcFailed) <==> CallFailed(trusted, reply))
    && (r == Err(BadSignature) <==> NewRoot(trusted, reply) && !reply.latest.value.signatureValid)
    && ((r.Err? && r.error.Inconsistent?) <==>
          && NewRoot(trusted, reply) && reply.latest.value.signatureValid
          && trusted.treeSize != 0 && CheckOf(h, trusted, reply).Err?)
    && (r.Err? && r.error.Inconsistent? ==> r.error.e == CheckOf(h, trusted, reply).error)
  }

  function Initial(h: LogHasher): SignedLogRoot {
    SignedLogRoot(0, h.emptyRoot, 0)
  }

  class Client {
    const hasher: LogHasher
    var root: SignedLogRoot

    constructor (hasher: LogHasher)
      ensures this.hasher == hasher && root == Initial(hasher) && root.treeSize == 0 && root.timestampNanos == 0
    {
      this.hasher := hasher;
      root := Initial(hasher);
    }

    /** Fails exactly in these cases: a call failed; a new root is not signed; or it is not consistent with a trusted
        one. Otherwise the reply's root is trusted from now on if it is later and not smaller. */
    method UpdateRoot(reply: Reply) returns (r: Result<SignedLogRoot, ClientError>)
      modifies this`root
      ensures FailsAs(hasher, old(root), reply, r)
      ensures r.Err? ==> root == old(root)
      ensures r.Ok? ==>
                var next := reply.latest.value.root;
                && r.value == root
                && root == if next.timestampNanos > old(root.timestampNanos) && next.treeSize >= old(root.treeSize)
                           then next else old(root)
      ensures root == Updated(hasher, old(root), reply)
      ensures root.treeSize >= old(root.treeSize) && root.timestampNanos >= old(root.timestampNanos)
    {
      hide ConsistencyCheck;
      var newTrusted := GetLatestRoot(hasher, root, reply);
      if newTrusted.Err? { return Err(newTrusted.error); }
      if newTrusted.value.timestampNanos > root.timestampNanos && newTrusted.value.treeSize >= root.treeSize {
        root := newTrusted.value;
      }
      return Ok(root);
    }
  }

  // ---------- whole runs ----------

  /** The trusted root after the first `k` replies. */
  function TrustedAt(h: LogHasher, replies: seq<Reply>, k: nat): SignedLogRoot
    requires k <= |replies|
  {
    if k == 0 then Initial(h) else Updated(h, TrustedAt(h, replies, k - 1), replies[k - 1])
  }

  lemma {:induction false} TrustNeverShrinks(h: LogHasher, replies: seq<Reply>, j: nat, k: nat)
    requires j <= k <= |replies|
    ensures 0 <= TrustedAt(h, replies, j).treeSize <= TrustedAt(h, replies, k).treeSize
    ensures 0 <= TrustedAt(h, replies, j).timestampNanos <= TrustedAt(h, replies, k).timestampNanos
  {
    if k > 0 {
      if j < k {
        TrustNeverShrinks(h, replies, j, k - 1);
      } else {
        TrustNeverShrinks(h, replies, j - 1, j - 1);
      }
    }
  }

  /** One update replaces a root of at least one leaf only by one that is proved to extend it. */
  lemma UpdateIsProved(h: LogHasher, trusted: SignedLogRoot, reply: Reply)
    requires trusted.treeSize > 0
    ensures
      var next := Updated(h, trusted, reply);
      || (next.treeSize == trusted.treeSize && next.rootHash == trusted.rootHash)
      || ConsistencyCheck(h, trusted.treeSize, next.treeSize, trusted.rootHash, next.rootHash,
           ProofOf(trusted, reply)).Ok?
  {
  }

  /** Going back from the `j`-th trusted root, which is that of a prefix of `d`, to the `k`-th: the first
      update on the way whose proof gives away a collision. */
  function TrustWitness(h: LogHasher, replies: seq<Reply>, d: seq<Hash>, k: nat, j: nat): Pairs
    requires k <= j <= |replies| && 0 <= TrustedAt(h, replies, j).treeSize <= |d|
  {
    if j == k then Pairs(h.emptyRoot, h.emptyRoot, h.emptyRoot, h.emptyRoot)
    else
      TrustNeverShrinks(h, replies, j - 1, j);
      var before, after := TrustedAt(h, replies, j - 1), TrustedAt(h, replies, j);
      var found := ConsistencyWitness(h, d[..after.treeSize], before.treeSize, before.rootHash,
          ProofOf(before, replies[j - 1]));
      if found.Collides(h) then found else TrustWitness(h, replies, d, k, j - 1)
  }

  ghost predicate RootOfPrefix(h: LogHasher, root: SignedLogRoot, d: seq<Hash>) {
    0 <= root.treeSize <= |d| && root.rootHash == MTH(h, d, 0, root.treeSize)
  }

  /** Whatever the server answers: once a trusted root is that of a prefix of `d`, every earlier trusted root of
      at least one leaf was that of a shorter or equal prefix of `d`, or the run gives away a collision. */
  lemma {:induction false} TrustedRootsAreOneLog(h: LogHasher, replies: seq<Reply>, d: seq<Hash>, k: nat, j: nat)
    requires k <= j <= |replies|
    requires TrustedAt(h, replies, k).treeSize > 0 && RootOfPrefix(h, TrustedAt(h, replies, j), d)
    ensures
      || RootOfPrefix(h, TrustedAt(h, replies, k), d)
      || TrustWitness(h, replies, d, k, j).Collides(h)
    decreases j
  {
    if k < j {
      hide MTH, Updated, ConsistencyCheck, ConsistencyWitness, ProofOf;
      var before, after := TrustedAt(h, replies, j - 1), TrustedAt(h, replies, j);
      TrustNeverShrinks(h, replies, k, j - 1);
      TrustNeverShrinks(h, replies, j - 1, j);
      if !TrustWitness(h, replies, d, k, j).Collides(h) {
        UpdateKeepsLog(h, before, replies[j - 1], d);
        TrustedRootsAreOneLog(h, replies, d, k, j - 1);
      }
    }
  }

  lemma UpdateKeepsLog(h: LogHasher, before: SignedLogRoot, reply: Reply, d: seq<Hash>)
    requires 0 < before.treeSize <= Updated(h, before, reply).treeSize
    requires RootOfPrefix(h, Updated(h, before, reply), d)
    ensures
      || RootOfPrefix(h, before, d)
      || ConsistencyWitness(h, d[..Updated(h, before, reply).treeSize], before.treeSize, before.rootHash,
           ProofOf(before, reply)).Collides(h)
  {
    hide MTH, Updated, ConsistencyCheck, ConsistencyWitness, ProofOf;
    var after := Updated(h, before, reply);
    var n, m := after.treeSize, before.treeSize;
    UpdateIsProved(h, before, reply);
    if !(n == m && after.rootHash == before.rootHash) {
      var e := d[..n];
      MTHLocal(h, e, d, 0, n, 0);
      assert e[0..m] == d[0..m];
      MTHLocal(h, e, d, 0, m, 0);
      ConsistencySound(h, e, m, before.rootHash, ProofOf(before, reply));
    }
  }

  /** A leaf once proved to be included is still there under every later trusted root. */
  lemma IncludedForever(h: LogHasher, replies: seq<Reply>, d: seq<Hash>, k: nat, j: nat, index: int, leaf: Hash,
                        proof: seq<Hash>)
    requires k <= j <= |replies|
    requires TrustedAt(h, replies, k).treeSize > 0 && RootOfPrefix(h, TrustedAt(h, replies, j), d)
    requires InclusionCheck(h, index, TrustedAt(h, replies, k).treeSize, proof, TrustedAt(h, replies, k).rootHash,
               leaf).Ok?
    ensures
      || TrustWitness(h, replies, d, k, j).Collides(h)
      || (0 <= TrustedAt(h, replies, k).treeSize <= |d|
          && InclusionWitness(h, d[..TrustedAt(h, replies, k).treeSize], index, leaf, proof).Collides(h))
      || (0 <= index < |d| && d[index] == leaf)
  {
    hide MTH, TrustedAt, InclusionCheck, InclusionWitness;
    TrustedRootsAreOneLog(h, replies, d, k, j);
    var earlier := TrustedAt(h, replies, k);
    if RootOfPrefix(h, earlier, d) {
      var e := d[..earlier.treeSize];
      MTHLocal(h, e, d, 0, earlier.treeSize, 0);
      InclusionSound(h, e, index, proof, leaf);
    }
  }

  /** An honest server's answer is taken: a newer root of the same log, with the RFC 6962 proof. */
  lemma HonestUpdateAccepted(h: LogHasher, d: seq<Hash>, m: nat, n: nat, t1: int, t2: int)
    requires m <= n <= |d| && t1 < t2
    ensures
      var trusted, root := SignedLogRoot(m, MTH(h, d, 0, m), t1), SignedLogRoot(n, MTH(h, d, 0, n), t2);
      var proof := if m == 0 then [] else ConsistencyProof(h, d, m, n);
      Updated(h, trusted, Reply(Ok(LatestRoot(root, true)), Ok(proof))) == root
  {
    hide MTH, SubProof, ConsistencyCheck;
    if m > 0 { ConsistencyComplete(h, d, m, n); }
  }

  /** A log that was rewritten or cut off is reported: a root of other leaves than those trusted makes the update fail,
      or its proof gives away a collision. */
  lemma ForkReported(h: LogHasher, trusted: SignedLogRoot, reply: Reply, d: seq<Hash>)
    requires trusted.treeSize > 0 && d != [] && reply.latest.Ok?
    requires reply.latest.value.root.treeSize == |d| && reply.latest.value.root.rootHash == Root(h, d)
    requires !RootOfPrefix(h, trusted, d)
    ensures
      || GetLatestRoot(h, trusted, reply).Err?
      || ConsistencyWitness(h, d, trusted.treeSize, trusted.rootHash, ProofOf(trusted, reply)).Collides(h)
  {
    hide MTH, ConsistencyCheck, ConsistencyWitness, SubProof;
    if GetLatestRoot(h, trusted, reply).Ok? {
      ConsistencySound(h, d, trusted.treeSize, trusted.rootHash, ProofOf(trusted, reply));
    }
  }

  /** But not one that was emptied: a root of size zero is no error, signed or not, and nothing changes. */
  lemma EmptiedNotReported(h: LogHasher, trusted: SignedLogRoot, root: SignedLogRoot, signed: bool, proof: seq<Hash>)
    requires trusted.treeSize > 0 == root.treeSize
    ensures
      var reply := Reply(Ok(LatestRoot(root, signed)), Ok(proof));
      GetLatestRoot(h, trusted, reply).Ok? && Updated(h, trusted, reply) == trusted
  {
  }

  /** With nothing trusted yet, the first signed root is. */
  lemma FirstRootTrusted(h: LogHasher, root: SignedLogRoot, consistency: Result<seq<Hash>, ()>)
    requires root.treeSize >= 0 && root.timestampNanos > 0
    ensures TrustedAt(h, [Reply(Ok(LatestRoot(root, true)), consistency)], 1) == root
  {
    var replies := [Reply(Ok(LatestRoot(root, true)), consistency)];
    assert TrustedAt(h, replies, 0) == Initial(h);
  }

  // ---------- what the signature is needed for ----------

  /** The reply's root becomes the trusted one. */
  predicate Adopts(h: LogHasher, trusted: SignedLogRoot, reply: Reply) {
    reply.latest.Ok? && Updated(h, trusted, reply) == reply.latest.value.root != trusted
  }

  /** A root whose signature does not verify is adopted exactly if it is newer and either repeats the trusted size and
      hash, or is a root of size zero while nothing larger is trusted. In every other case an adopted root is signed. */
  lemma UnsignedAdoptedIff(h: LogHasher, trusted: SignedLogRoot, reply: Reply)
    requires trusted.treeSize >= 0 && reply.latest.Ok? && !reply.latest.value.signatureValid
    ensures
      var root := reply.latest.value.root;
      Adopts(h, trusted, reply) <==>
        && root.timestampNanos > trusted.timestampNanos
        && root.treeSize == trusted.treeSize
        && (root.treeSize > 0 ==> root.rootHash == trusted.rootHash)
  {
  }

  /** Until a later time is seen nothing else is trusted. */
  lemma {:induction false} TimeBlocks(h: LogHasher, replies: seq<Reply>, j: nat, k: nat)
    requires j <= k <= |replies|
    requires forall i :: j <= i < k && replies[i].latest.Ok? ==>
               replies[i].latest.value.root.timestampNanos <= TrustedAt(h, replies, j).timestampNanos
    ensures TrustedAt(h, replies, k) == TrustedAt(h, replies, j)
  {
    if j < k { TimeBlocks(h, replies, j, k - 1); }
  }

  /** For example: a signed root, and then the same root with a later time and no valid signature. From then on no root
      is adopted that is not later than that time, signed and consistent or not. */
  lemma UnsignedTimeBlocks(h: LogHasher, root: SignedLogRoot, late: int, rest: seq<Reply>)
    requires root.treeSize > 0 && 0 < root.timestampNanos < late
    requires forall i :: 0 <= i < |rest| && rest[i].latest.Ok? ==> rest[i].latest.value.root.timestampNanos <= late
    ensures
      var again := root.(timestampNanos := late);
      var replies := [Reply(Ok(LatestRoot(root, true)), Err(())), Reply(Ok(LatestRoot(again, false)), Err(()))] + rest;
      TrustedAt(h, replies, |replies|) == again
  {
    var again := root.(timestampNanos := late);
    var replies := [Reply(Ok(LatestRoot(root, true)), Err(())), Reply(Ok(LatestRoot(again, false)), Err(()))] + rest;
    assert TrustedAt(h, replies, 0) == Initial(h);
    assert TrustedAt(h, replies, 1) == root;
    assert TrustedAt(h, replies, 2) == again;
    forall i | 2 <= i < |replies| && replies[i].latest.Ok?
      ensures replies[i].latest.value.root.timestampNanos <= TrustedAt(h, replies, 2).timestampNanos
    {
      assert replies[i] == rest[i - 2];
    }
    TimeBlocks(h, replies, 2, |replies|);
  }
}
