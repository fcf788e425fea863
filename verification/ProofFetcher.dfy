/** From fetched nodes to a proof (server/proof_fetcher.go): the lookup and the state machine that folds
    runs of `rehash` fetches, and the theorem that the whole server pipeline yields RFC 6962 proofs. */
module ProofFetcher {
  import opened Bits
  import opened Hashing
  import opened Rfc6962
  import opened LogTree
  import opened MerklePath
  import opened LogVerifier

  // ---------- the state machine ----------

  datatype RehashState = RehashState(proof: seq<Hash>, pending: Option<Hash>)

  function Step(h: LogHasher, st: RehashState, node: Hash, rehash: bool): RehashState {
    match (st.pending, rehash)
    case (None, true) => st.(pending := Some(node))
    case (Some(v), true) => st.(pending := Some(h.HashChildren(node, v)))
    case (Some(v), false) => RehashState(st.proof + [v, node], None)
    case (None, false) => st.(proof := st.proof + [node])
  }

  /** The proof if no more nodes follow. */
  function Finish(st: RehashState): seq<Hash> {
    if st.pending.Some? then st.proof + [st.pending.value] else st.proof
  }

  class Rehasher {
    const th: LogHasher
    var rehashing: bool
    var rehashNode: Hash
    var proof: seq<Hash>

    ghost function State(): RehashState
      reads this
    {
      RehashState(proof, if rehashing then Some(rehashNode) else None)
    }

    constructor (th: LogHasher)
      ensures this.th == th && State() == RehashState([], None)
    {
      this.th := th;
      rehashing := false;
      rehashNode := th.emptyRoot;
      proof := [];
    }

    method Process(node: Hash, fetch: NodeFetch)
      modifies this
      ensures State() == Step(th, old(State()), node, fetch.rehash)
    {
      if !rehashing && fetch.rehash {
        StartRehashing(node);
      } else if rehashing && !fetch.rehash {
        EndRehashing();
        EmitNode(node);
        assert old(proof) + [old(rehashNode)] + [node] == old(proof) + [old(rehashNode), node];
      } else if rehashing && fetch.rehash {
        rehashNode := th.HashChildren(node, rehashNode);
      } else {
        EmitNode(node);
      }
    }

    method EmitNode(node: Hash)
      modifies this`proof
      ensures proof == old(proof) + [node]
    {
      proof := proof + [node];
    }

    method StartRehashing(node: Hash)
      modifies this`rehashNode, this`rehashing
      ensures rehashing && rehashNode == node
    {
      rehashNode := node;
      rehashing := true;
    }

    method EndRehashing()
      modifies this`proof, this`rehashing
      ensures State() == RehashState(Finish(old(State())), None)
    {
      if rehashing {
        proof := proof + [rehashNode];
        rehashing := false;
      }
    }

    method RehashedProof() returns (hashes: seq<Hash>)
      modifies this`proof, this`rehashing
      ensures hashes == Finish(old(State()))
    {
      EndRehashing();
      return proof;
    }
  }

  /** The state after the fetches `fs` from `store`. */
  function Run(h: LogHasher, store: map<Coord, Hash>, st: RehashState, fs: seq<NodeFetch>): RehashState
    requires forall f :: f in fs ==> f.id in store
  {
    if fs == [] then st
    else
      var last := fs[|fs| - 1];
      Step(h, Run(h, store, st, fs[..|fs| - 1]), store[last.id], last.rehash)
  }

  /** The nodes found in storage, in the order asked for; nodes that are not there are left out. */
  function Found(store: map<Coord, Hash>, fs: seq<NodeFetch>): seq<(Coord, Hash)> {
    if fs == [] then []
    else Found(store, fs[..|fs| - 1]) +
         var id := fs[|fs| - 1].id; if id in store then [(id, store[id])] else []
  }

  lemma {:induction false} FoundAll(store: map<Coord, Hash>, fs: seq<NodeFetch>)
    ensures |Found(store, fs)| <= |fs|
    ensures |Found(store, fs)| == |fs| <==> forall j :: 0 <= j < |fs| ==> fs[j].id in store
    ensures |Found(store, fs)| == |fs| ==>
              forall j :: 0 <= j < |fs| ==> fs[j].id in store && Found(store, fs)[j] == (fs[j].id, store[fs[j].id])
  {
    if fs != [] {
      var rest := fs[..|fs| - 1];
      FoundAll(store, rest);
      assert forall j :: 0 <= j < |rest| ==> rest[j] == fs[j];
    }
  }

  datatype FetchError = WrongNodeCount | WrongNode

  /** What is checked of the nodes that storage returned: as many as were asked for, and each the one asked for. */
  method CheckFetched(nodes: seq<(Coord, Hash)>, fetches: seq<NodeFetch>)
      returns (r: Result<seq<(Coord, Hash)>, FetchError>)
    ensures r == Err(WrongNodeCount) <==> |nodes| != |fetches|
    ensures r == Err(WrongNode) <==>
              |nodes| == |fetches| && exists j :: 0 <= j < |nodes| && nodes[j].0 != fetches[j].id
    ensures r.Ok? <==> |nodes| == |fetches| && forall j :: 0 <= j < |nodes| ==> nodes[j].0 == fetches[j].id
    ensures r.Ok? ==> r.value == nodes
  {
    if |nodes| != |fetches| { return Err(WrongNodeCount); }
    for i := 0 to |nodes|
      invariant forall j :: 0 <= j < i ==> nodes[j].0 == fetches[j].id
    {
      if nodes[i].0 != fetches[i].id { return Err(WrongNode); }
    }
    return Ok(nodes);
  }

  method FetchNodes(store: map<Coord, Hash>, fetches: seq<NodeFetch>)
      returns (r: Result<seq<(Coord, Hash)>, FetchError>)
    ensures (forall f :: f in fetches ==> f.id in store) <==> r.Ok?
    ensures r.Err? ==> r == Err(WrongNodeCount)
    ensures r.Ok? ==>
              && |r.value| == |fetches|
              && forall j :: 0 <= j < |fetches| ==> r.value[j] == (fetches[j].id, store[fetches[j].id])
  {
    FoundAll(store, fetches);
    assert forall j :: 0 <= j < |fetches| ==> fetches[j] in fetches;
    r := CheckFetched(Found(store, fetches), fetches);
  }

  /** Runs the rehasher over the nodes. */
  method BuildProof(th: LogHasher, nodes: seq<Hash>, fetches: seq<NodeFetch>, ghost store: map<Coord, Hash>)
      returns (hashes: seq<Hash>)
    requires |nodes| == |fetches| && forall f :: f in fetches ==> f.id in store
    requires forall j :: 0 <= j < |nodes| ==> nodes[j] == store[fetches[j].id]
    ensures hashes == Finish(Run(th, store, RehashState([], None), fetches))
  {
    var rehasher := new Rehasher(th);
    for i := 0 to |nodes|
      invariant rehasher.th == th
      invariant rehasher.State() == Run(th, store, RehashState([], None), fetches[..i])
    {
      assert fetches[..i + 1][..i] == fetches[..i];
      rehasher.Process(nodes[i], fetches[i]);
    }
    assert fetches[..|fetches|] == fetches;
    hashes := rehasher.RehashedProof();
  }

  /** Fails when a node is missing and otherwise returns what the state machine makes of the fetches. */
  method FetchNodesAndBuildProof(th: LogHasher, store: map<Coord, Hash>, fetches: seq<NodeFetch>)
      returns (r: Result<seq<Hash>, FetchError>)
    ensures r.Ok? <==> forall f :: f in fetches ==> f.id in store
    ensures r.Err? ==> r == Err(WrongNodeCount)
    ensures r.Ok? ==> r.value == Finish(Run(th, store, RehashState([], None), fetches))
  {
    var nodes := FetchNodes(store, fetches);
    if nodes.Err? { return Err(nodes.error); }
    var values := seq(|nodes.value|, j requires 0 <= j < |nodes.value| => nodes.value[j].1);
    var hashes := BuildProof(th, values, fetches, store);
    return Ok(hashes);
  }

  // ---------- what the fetched nodes amount to ----------

  /** The value of a run of fetches folded into one hash. */
  function Chain(h: LogHasher, store: map<Coord, Hash>, fs: seq<NodeFetch>): Hash
    requires fs != [] && forall f :: f in fs ==> f.id in store
  {
    if |fs| == 1 then store[fs[0].id]
    else h.HashChildren(store[fs[|fs| - 1].id], Chain(h, store, fs[..|fs| - 1]))
  }

  /** One node passed through, or several folded: what stands for one hash of the proof. */
  predicate OneHash(fs: seq<NodeFetch>) {
    || (|fs| == 1 && !fs[0].rehash)
    || (|fs| > 1 && forall f :: f in fs ==> f.rehash)
  }

  predicate InStore(store: map<Coord, Hash>, fs: seq<NodeFetch>) {
    forall f :: f in fs ==> f.id in store
  }

  lemma InStoreConcat(store: map<Coord, Hash>, a: seq<NodeFetch>, b: seq<NodeFetch>)
    requires InStore(store, a) && InStore(store, b)
    ensures InStore(store, a + b)
  {
    assert forall f :: f in a + b <==> f in a || f in b;
  }

  lemma {:induction false} ChainRehashed(h: LogHasher, store: map<Coord, Hash>, fs: seq<NodeFetch>)
    requires fs != [] && InStore(store, fs)
    ensures InStore(store, Rehashed(fs))
    ensures Chain(h, store, Rehashed(fs)) == Chain(h, store, fs)
  {
    forall f | f in Rehashed(fs) ensures f.id in store {
      var j :| 0 <= j < |fs| && Rehashed(fs)[j] == f;
      assert fs[j] in fs;
    }
    if |fs| > 1 {
      var rest := fs[..|fs| - 1];
      assert Rehashed(fs)[..|fs| - 1] == Rehashed(rest);
      ChainRehashed(h, store, rest);
    }
  }

  lemma CompleteStored(l: nat, x: nat, s: nat, n: nat)
    requires Shl(x, l) + Pow2(l) <= s <= n
    ensures Stored(Coord(l, x), n) && Exists(l, x, s)
  {
    hide Shl, Pow2;
    if l == 0 {
      ShiftNothing(x);
    } else {
      ShlDouble(x, l - 1);
      ShlSucc(2 * x, l - 1);
      Pow2Step(l - 1);
    }
  }

  /** A complete node is stored, and its hash is the same at every later size. */
  lemma CompleteLookup(h: LogHasher, d: seq<Hash>, store: map<Coord, Hash>, l: nat, x: nat, s: nat)
    requires Canonical(h, d, store) && Shl(x, l) + Pow2(l) <= s <= |d|
    ensures Coord(l, x) in store && Exists(l, x, s) && store[Coord(l, x)] == Node(h, d, l, x, s)
  {
    hide MTH, Node, Shl, Pow2;
    CompleteStored(l, x, s, |d|);
    assert StoredValue(h, d, Coord(l, x), store[Coord(l, x)]);
    NodeStable(h, d, l, x, s, |d|);
  }

  /** The fetches for an old right edge give its hash in the old tree. */
  lemma {:induction false} LastFetchesValue(h: LogHasher, d: seq<Hash>, store: map<Coord, Hash>, i: nat, l: nat)
    requires Canonical(h, d, store) && i < |d|
    ensures LastFetches(i, l) != [] && InStore(store, LastFetches(i, l)) && OneHash(LastFetches(i, l))
    ensures Exists(l, Shr(i, l), i + 1)
    ensures Chain(h, store, LastFetches(i, l)) == Node(h, d, l, Shr(i, l), i + 1)
  {
    hide Node, Canonical, Shr, Shl;
    LastFetchesShape(i, l);
    if l <= TrailingOnes(i) {
      CompleteEdge(i, l);
      CompleteLookup(h, d, store, l, Shr(i, l), i + 1);
    } else {
      var below, x := LastFetches(i, l - 1), Shr(i, l - 1);
      LastFetchesValue(h, d, store, i, l - 1);
      OldNodeAbove(h, d, i, i + 1, l - 1);
      if x % 2 == 1 {
        var last := NodeFetch(Coord(l - 1, x - 1), true);
        LeftOfEdge(h, d, store, i, l - 1);
        ChainRehashed(h, store, below);
        InStoreConcat(store, Rehashed(below), [last]);
        assert (Rehashed(below) + [last])[..|below|] == Rehashed(below);
      }
    }
  }

  lemma LeftOfEdge(h: LogHasher, d: seq<Hash>, store: map<Coord, Hash>, i: nat, l: nat)
    requires Canonical(h, d, store) && i < |d| && Shr(i, l) % 2 == 1
    ensures Coord(l, Shr(i, l) - 1) in store
    ensures SiblingAt(h, d, i, i + 1, l) == [store[Coord(l, Shr(i, l) - 1)]]
  {
    hide Node, Canonical;
    var x := Shr(i, l);
    ShlSucc(x - 1, l);
    ShrBounds(i, l);
    CompleteLookup(h, d, store, l, x - 1, i + 1);
  }

  /** Skipping levels at the current size ends at a stored node with the same hash. */
  lemma {:induction false} SkipValue(h: LogHasher, d: seq<Hash>, store: map<Coord, Hash>, i: nat, l: nat)
    requires Canonical(h, d, store) && i + 1 == |d|
    ensures Exists(l, Shr(i, l), i + 1)
    ensures var c := SkipTo(i + 1, Shr(i, l), l, Shr(i, l));
            c in store && store[c] == Node(h, d, l, Shr(i, l), i + 1)
  {
    hide MTH, Node;
    var c := Coord(l, Shr(i, l));
    AncestorExists(i, i + 1, l);
    if LastNodePresent(l, i + 1) {
      if l > 0 { ShrCompare(2 * Shr(i, l) + 1, l - 1, i); }
      assert Stored(c, |d|);
      assert StoredValue(h, d, c, store[c]);
    } else {
      SkipValue(h, d, store, i, l - 1);
      NoRightChild(h, d, i, l - 1);
    }
  }

  lemma NoRightChild(h: LogHasher, d: seq<Hash>, i: nat, l: nat)
    requires i < |d| && Shr(i, l) % 2 == 0
    ensures Exists(l, Shr(i, l), i + 1) && Exists(l + 1, Shr(i, l + 1), i + 1)
    ensures Node(h, d, l + 1, Shr(i, l + 1), i + 1) == Node(h, d, l, Shr(i, l), i + 1)
  {
    NodeAbove(h, d, i, i + 1, l);
    ExistsIff(l, Shr(i, l) + 1, i + 1);
  }

  /** The fetches of one level stand for the sibling of that level, if there is one. */
  lemma LevelValue(h: LogHasher, d: seq<Hash>, store: map<Coord, Hash>, i: nat, s: nat, l: nat)
    requires Canonical(h, d, store) && i < s <= |d|
    ensures InStore(store, LevelFetches(i, s, |d|, l))
    ensures HasSibling(i, s, l) ==>
              && OneHash(LevelFetches(i, s, |d|, l))
              && SiblingAt(h, d, i, s, l) == [Chain(h, store, LevelFetches(i, s, |d|, l))]
    ensures !HasSibling(i, s, l) ==> LevelFetches(i, s, |d|, l) == [] && SiblingAt(h, d, i, s, l) == []
    ensures |LevelFetches(i, s, |d|, l)| > 1 ==> Shr(i, l) + 1 == Shr(s - 1, l) && Shr(i, l) % 2 == 0
  {
    hide Node, Canonical, LastFetches, SkipTo;
    var x, last := Shr(i, l), Shr(s - 1, l);
    ShrMonotone(i, s - 1, l);
    ExistsIff(l, x + 1, s);
    if Sibling(x) < last {
      ShlSucc(Sibling(x), l);
      ShrCompare(Sibling(x) + 1, l, s - 1);
      CompleteLookup(h, d, store, l, Sibling(x), s);
    } else if Sibling(x) == last {
      LastSiblingIsRight(i, s, l);
      if s == |d| {
        SkipValue(h, d, store, s - 1, l);
      } else {
        LastFetchesValue(h, d, store, s - 1, l);
      }
    }
  }

  lemma {:induction false} RunConcat(h: LogHasher, store: map<Coord, Hash>, st: RehashState, a: seq<NodeFetch>,
                                     b: seq<NodeFetch>)
    requires InStore(store, a) && InStore(store, b)
    ensures InStore(store, a + b)
    ensures Run(h, store, st, a + b) == Run(h, store, Run(h, store, st, a), b)
  {
    InStoreConcat(store, a, b);
    if b == [] {
      assert a + b == a;
    } else {
      var b', last := b[..|b| - 1], b[|b| - 1];
      assert (a + b)[..|a + b| - 1] == a + b';
      RunConcat(h, store, st, a, b');
    }
  }

  lemma {:induction false} RunChain(h: LogHasher, store: map<Coord, Hash>, st: RehashState, fs: seq<NodeFetch>)
    requires fs != [] && InStore(store, fs) && st.pending.None? && forall f :: f in fs ==> f.rehash
    ensures Run(h, store, st, fs) == RehashState(st.proof, Some(Chain(h, store, fs)))
  {
    if |fs| > 1 {
      RunChain(h, store, st, fs[..|fs| - 1]);
    } else {
      assert fs[..0] == [];
    }
  }

  /** What stands for one hash adds that hash to the proof, if no other chain is open before it. */
  lemma RunOneHash(h: LogHasher, store: map<Coord, Hash>, st: RehashState, fs: seq<NodeFetch>)
    requires InStore(store, fs) && OneHash(fs) && (|fs| > 1 ==> st.pending.None?)
    ensures Finish(Run(h, store, st, fs)) == Finish(st) + [Chain(h, store, fs)]
    ensures |fs| == 1 ==> Run(h, store, st, fs).pending.None?
  {
    if |fs| > 1 {
      RunChain(h, store, st, fs);
    } else {
      assert fs[..0] == [];
    }
  }

  /** The fetches of a whole climb yield the siblings met on it. A chain is opened at most once: at the
      level where the path is about to join the right edge, above which it stays on that edge. */
  lemma {:induction false} PathRun(h: LogHasher, d: seq<Hash>, store: map<Coord, Hash>, st: RehashState,
                                   i: nat, s: nat, a: nat, b: nat)
    requires Canonical(h, d, store) && i < s <= |d| && st.pending.None?
    ensures InStore(store, PathFetches(i, s, |d|, a, b))
    ensures Finish(Run(h, store, st, PathFetches(i, s, |d|, a, b))) == st.proof + SiblingPath(h, d, i, s, a, b)
    ensures Run(h, store, st, PathFetches(i, s, |d|, a, b)).pending.Some? ==> Shr(i, b) == Shr(s - 1, b)
  {
    hide Node, Canonical, LevelFetches, SiblingAt, HasSibling, Shr, Chain, OneHash, Step;
    if a < b {
      var before, here := PathFetches(i, s, |d|, a, b - 1), LevelFetches(i, s, |d|, b - 1);
      PathRun(h, d, store, st, i, s, a, b - 1);
      LevelValue(h, d, store, i, s, b - 1);
      RunConcat(h, store, st, before, here);
      var mid := Run(h, store, st, before);
      ShrStep(i, b - 1);
      ShrStep(s - 1, b - 1);
      if HasSibling(i, s, b - 1) {
        RunOneHash(h, store, mid, here);
      }
      ConcatAssociates(st.proof, SiblingPath(h, d, i, s, a, b - 1), SiblingAt(h, d, i, s, b - 1));
    }
  }

  // ---------- the server's proofs ----------

  /** The server answers with exactly PATH(index, D[snapshot]), from storage at any later size. */
  lemma ServedInclusion(h: LogHasher, d: seq<Hash>, store: map<Coord, Hash>, index: nat, snapshot: nat)
    requires Canonical(h, d, store) && index < snapshot <= |d|
    ensures InStore(store, PathFetches(index, snapshot, |d|, 0, Height(snapshot)))
    ensures Finish(Run(h, store, RehashState([], None), PathFetches(index, snapshot, |d|, 0, Height(snapshot))))
            == InclusionProof(h, d, index, snapshot)
  {
    hide Run, PathFetches, SiblingPath, Path, Canonical;
    PathRun(h, d, store, RehashState([], None), index, snapshot, 0, Height(snapshot));
    InclusionProofIsSiblings(h, d, index, snapshot);
    assert [] + SiblingPath(h, d, index, snapshot, 0, Height(snapshot))
        == SiblingPath(h, d, index, snapshot, 0, Height(snapshot));
  }

  /** The server answers with exactly PROOF(snapshot1, D[snapshot2]), from storage at any later size. */
  lemma ServedConsistency(h: LogHasher, d: seq<Hash>, store: map<Coord, Hash>, snapshot1: nat, snapshot2: nat)
    requires Canonical(h, d, store) && 0 < snapshot1 <= snapshot2 <= |d|
    ensures InStore(store, ConsistencyFetches(snapshot1, snapshot2, |d|))
    ensures Finish(Run(h, store, RehashState([], None), ConsistencyFetches(snapshot1, snapshot2, |d|)))
            == ConsistencyProof(h, d, snapshot1, snapshot2)
  {
    hide Node, HeadFetches, PathFetches, SiblingAt, Step;
    if snapshot1 < snapshot2 {
      var i, a := snapshot1 - 1, TrailingOnes(snapshot1 - 1);
      var head, rest := HeadFetches(i), PathFetches(i, snapshot2, |d|, a, Height(snapshot2));
      var st := RehashState([], None);
      HeadValue(h, d, store, i);
      PathRun(h, d, store, Run(h, store, st, head), i, snapshot2, a, Height(snapshot2));
      RunConcat(h, store, st, head, rest);
      ConsistencyProofIsSiblings(h, d, i, snapshot2);
    }
  }

  lemma HeadValue(h: LogHasher, d: seq<Hash>, store: map<Coord, Hash>, i: nat)
    requires Canonical(h, d, store) && i < |d|
    ensures InStore(store, HeadFetches(i))
    ensures Run(h, store, RehashState([], None), HeadFetches(i)) == RehashState(ProofHead(h, d, i), None)
  {
    hide Node, Canonical;
    var a := TrailingOnes(i);
    CompleteEdge(i, a);
    CompleteLookup(h, d, store, a, Shr(i, a), i + 1);
    if Shr(i, a) != 0 { assert HeadFetches(i)[..0] == []; }
  }

  /** Every stored node of a tree of at most `2^bits` leaves has an address of `bits` bits. */
  lemma StoredRepresentable(c: Coord, n: nat, bits: nat)
    requires Stored(c, n) && n <= Pow2(bits) && bits % 8 == 0
    ensures Representable(c, bits)
  {
    StoredExists(c, n);
    if bits < c.level {
      ShlMonotone(0, 2 * c.index + 1, c.level - 1);
      Pow2Monotone(bits, c.level - 1);
    }
    ShlBelowPow2(c.index, c.level, bits);
    BitLenLeast(c.index, bits - c.level);
  }

  lemma FetchesRepresentable(h: LogHasher, d: seq<Hash>, store: map<Coord, Hash>, fs: seq<NodeFetch>, bits: nat)
    requires Canonical(h, d, store) && InStore(store, fs) && |d| <= Pow2(bits) && bits % 8 == 0
    ensures AllRepresentable(fs, bits)
  {
    hide Representable, Stored;
    forall f | f in fs ensures Representable(f.id, bits) {
      assert f.id in store;
      StoredRepresentable(f.id, |d|, bits);
    }
  }

  datatype ServeError = Address(a: AddressError) | Fetch(f: FetchError)

  const PROOF_MAX_BIT_LEN := 64

  /** One request for an inclusion proof, with storage at `treeSize`. A canonical store answers every
      request in range with the RFC 6962 audit path, and the client's check accepts that. */
  method GetInclusionProof(h: LogHasher, store: map<Coord, Hash>, snapshot: int, leafIndex: int, treeSize: int,
                           ghost d: seq<Hash>)
      returns (r: Result<seq<Hash>, ServeError>)
    ensures snapshot < 1 || snapshot > treeSize ==> r == Err(Address(BadSnapshot))
    ensures 1 <= snapshot <= treeSize && !(0 <= leafIndex < snapshot) ==> r == Err(Address(BadIndex))
    ensures 0 <= leafIndex < snapshot <= treeSize ==>
              var fs := PathFetches(leafIndex, snapshot, treeSize, 0, Height(snapshot));
              && (r == Err(Address(CoordOutOfRange)) <==> !AllRepresentable(fs, PROOF_MAX_BIT_LEN))
              && (r == Err(Fetch(WrongNodeCount)) <==> AllRepresentable(fs, PROOF_MAX_BIT_LEN) && !InStore(store, fs))
              && (r.Ok? <==> AllRepresentable(fs, PROOF_MAX_BIT_LEN) && InStore(store, fs))
    ensures 0 <= leafIndex < snapshot <= treeSize == |d| <= Pow2(PROOF_MAX_BIT_LEN) && Canonical(h, d, store) ==>
              && r == Ok(InclusionProof(h, d, leafIndex, snapshot))
              && InclusionCheck(h, leafIndex, snapshot, r.value, MTH(h, d, 0, snapshot), d[leafIndex]).Ok?
  {
    hide PathFetches, Run, Canonical, Path, MTH, Pow2, InclusionCheck, Representable;
    var fetches := CalcInclusionProofNodeAddresses(snapshot, leafIndex, treeSize, PROOF_MAX_BIT_LEN);
    if 0 <= leafIndex < snapshot <= treeSize == |d| <= Pow2(PROOF_MAX_BIT_LEN) && Canonical(h, d, store) {
      ServedInclusion(h, d, store, leafIndex, snapshot);
      FetchesRepresentable(h, d, store, PathFetches(leafIndex, snapshot, |d|, 0, Height(snapshot)), PROOF_MAX_BIT_LEN);
      InclusionComplete(h, d, leafIndex, snapshot);
    }
    if fetches.Err? { return Err(Address(fetches.error)); }
    var proof := FetchNodesAndBuildProof(h, store, fetches.value);
    if proof.Err? { return Err(Fetch(proof.error)); }
    return Ok(proof.value);
  }

  /** One request for a consistency proof, with storage at `treeSize`. */
  method GetConsistencyProof(h: LogHasher, store: map<Coord, Hash>, snapshot1: int, snapshot2: int, treeSize: int,
                             ghost d: seq<Hash>)
      returns (r: Result<seq<Hash>, ServeError>)
    ensures snapshot1 < 1 || snapshot1 > treeSize || snapshot2 < 1 || snapshot2 > treeSize ==>
            r == Err(Address(BadSnapshot))
    ensures 1 <= snapshot2 < snapshot1 <= treeSize ==> r == Err(Address(SnapshotsReversed))
    ensures 0 < snapshot1 <= snapshot2 <= treeSize ==>
              var fs := ConsistencyFetches(snapshot1, snapshot2, treeSize);
              && (r == Err(Address(CoordOutOfRange)) <==> !AllRepresentable(fs, PROOF_MAX_BIT_LEN))
              && (r == Err(Fetch(WrongNodeCount)) <==> AllRepresentable(fs, PROOF_MAX_BIT_LEN) && !InStore(store, fs))
              && (r.Ok? <==> AllRepresentable(fs, PROOF_MAX_BIT_LEN) && InStore(store, fs))
    ensures 0 < snapshot1 <= snapshot2 <= treeSize == |d| <= Pow2(PROOF_MAX_BIT_LEN) && Canonical(h, d, store) ==>
              && r == Ok(ConsistencyProof(h, d, snapshot1, snapshot2))
              && ConsistencyCheck(h, snapshot1, snapshot2, MTH(h, d, 0, snapshot1), MTH(h, d, 0, snapshot2),
                   r.value).Ok?
  {
    hide ConsistencyFetches, Run, Canonical, SubProof, MTH, Pow2, ConsistencyCheck, Representable;
    var fetches := CalcConsistencyProofNodeAddresses(snapshot1, snapshot2, treeSize, PROOF_MAX_BIT_LEN);
    if 0 < snapshot1 <= snapshot2 <= treeSize == |d| <= Pow2(PROOF_MAX_BIT_LEN) && Canonical(h, d, store) {
      ServedConsistency(h, d, store, snapshot1, snapshot2);
      FetchesRepresentable(h, d, store, ConsistencyFetches(snapshot1, snapshot2, |d|), PROOF_MAX_BIT_LEN);
      ConsistencyComplete(h, d, snapshot1, snapshot2);
    }
    if fetches.Err? { return Err(Address(fetches.error)); }
    var proof := FetchNodesAndBuildProof(h, store, fetches.value);
    if proof.Err? { return Err(Fetch(proof.error)); }
    return Ok(proof.value);
  }
}
