/** Proofs of what a map holds at an index (merkle/map_verifier.go) and how a reader builds them
    (merkle/sparse_merkle_tree.go). A value of length zero stands for an absent one, here `None`. */
module MapVerifier {
  import opened Bits
  import opened Hashing
  import opened LogTree
  import opened MerklePath
  import opened SparseTree

  /** A proof element: no bytes, the bytes of a hash, or some other number of bytes. */
  datatype Element = Missing | Present(hash: Hash) | Malformed

  datatype MapProofError =
    | IndexLength(got: nat)
    | ProofLength(got: nat)
    | ElementLength(height: nat)
    | WrongRoot(calculated: Hash)

  predicate WellFormed(proof: seq<Element>) {
    forall h :: 0 <= h < |proof| ==> !proof[h].Malformed?
  }

  // ---------- what is proved ----------

  /** The leaf hashes of a map of values. */
  function LeafHashes(mh: MapHasher, vals: map<nat, Value>): map<nat, Hash> {
    map y | y in vals :: mh.HashLeaf(y, vals[y])
  }

  function Lookup(vals: map<nat, Value>, index: nat): Option<Value> {
    if index in vals then Some(vals[index]) else None
  }

  /** The proof for `index`: the siblings of its path, with empty branches left out. */
  function MapProof(mh: MapHasher, m: map<nat, Hash>, index: nat): seq<Element> {
    seq(mh.bits, h requires 0 <= h < mh.bits => SiblingElement(mh, m, index, h))
  }

  function SiblingElement(mh: MapHasher, m: map<nat, Hash>, index: nat, h: nat): Element {
    var x := Sibling(Shr(index, h));
    if Vacant(m, 0, h, x) then Missing else Present(Tree(mh, m, 0, h, x))
  }

  // ---------- the verifier ----------

  /** The hash of the node at height `h` on the path, where `None` stands for an empty branch. */
  function Filled(mh: MapHasher, index: nat, h: nat, running: Option<Hash>): Hash {
    if running.Some? then running.value else mh.HashEmpty(Shl(Shr(index, h), h), h)
  }

  function ElementHash(mh: MapHasher, index: nat, h: nat, e: Element): Hash {
    if e.Present? then e.hash else mh.HashEmpty(Shl(Sibling(Shr(index, h)), h), h)
  }

  /** One level up: two empty branches make an empty branch. */
  function Joined(mh: MapHasher, index: nat, h: nat, running: Option<Hash>, e: Element): Option<Hash> {
    if running.None? && e.Missing? then None
    else if Shr(index, h) % 2 == 0 then
      Some(mh.HashChildren(Filled(mh, index, h, running), ElementHash(mh, index, h, e)))
    else Some(mh.HashChildren(ElementHash(mh, index, h, e), Filled(mh, index, h, running)))
  }

  function Running(mh: MapHasher, index: nat, leaf: Option<Value>, proof: seq<Element>, h: nat): Option<Hash>
    requires h <= |proof|
  {
    if h > 0 then Joined(mh, index, h - 1, Running(mh, index, leaf, proof, h - 1), proof[h - 1])
    else if leaf.Some? then Some(mh.HashLeaf(index, leaf.value))
    else None
  }

  predicate Accepts(mh: MapHasher, index: nat, leaf: Option<Value>, root: Hash, proof: seq<Element>) {
    && |proof| == mh.bits && WellFormed(proof)
    && Filled(mh, index, mh.bits, Running(mh, index, leaf, proof, mh.bits)) == root
  }

  /** `index` has `indexBits` bits, as many as its byte string. */
  method VerifyMapInclusionProof(mh: MapHasher, indexBits: nat, index: nat, leaf: Option<Value>, expectedRoot: Hash,
                                 proof: seq<Element>)
      returns (r: Result<(), MapProofError>)
    requires Shr(index, indexBits) == 0
    ensures r.Ok? <==> indexBits == mh.bits && Accepts(mh, index, leaf, expectedRoot, proof)
    ensures indexBits != mh.bits ==> r == Err(IndexLength(indexBits))
    ensures indexBits == mh.bits && |proof| != mh.bits ==> r == Err(ProofLength(|proof|))
    ensures indexBits == mh.bits && |proof| == mh.bits && !WellFormed(proof) ==>
              exists i :: 0 <= i < |proof| && proof[i].Malformed? && r == Err(ElementLength(i))
                  && WellFormed(proof[..i])
    ensures indexBits == mh.bits == |proof| && WellFormed(proof) && r.Err? ==>
              r == Err(WrongRoot(Filled(mh, index, mh.bits, Running(mh, index, leaf, proof, mh.bits))))
  {
    hide Shl, Shr;
    if indexBits != mh.bits { return Err(IndexLength(indexBits)); }
    if |proof| != mh.bits { return Err(ProofLength(|proof|)); }
    for i := 0 to |proof|
      invariant WellFormed(proof[..i])
    {
      if proof[i].Malformed? { return Err(ElementLength(i)); }
    }
    assert WellFormed(proof);
    var runningHash := if leaf.Some? then Some(mh.HashLeaf(index, leaf.value)) else None;
    for height := 0 to mh.bits
      invariant runningHash == Running(mh, index, leaf, proof, height)
    {
      var pElement := proof[height];
      if runningHash.None? && pElement.Missing? { continue; }
      if runningHash.None? { runningHash := Some(mh.HashEmpty(Shl(Shr(index, height), height), height)); }
      if pElement.Missing? { pElement := Present(mh.HashEmpty(Shl(Sibling(Shr(index, height)), height), height)); }
      var proofIsRightHandElement := Shr(index, height) % 2 == 0;
      runningHash := Some(if proofIsRightHandElement then mh.HashChildren(runningHash.value, pElement.hash)
                          else mh.HashChildren(pElement.hash, runningHash.value));
    }
    if runningHash.None? {
      ShlZero(mh.bits);
      runningHash := Some(mh.HashEmpty(0, mh.bits));
    }
    if runningHash.value != expectedRoot { return Err(WrongRoot(runningHash.value)); }
    return Ok(());
  }

  // ---------- completeness ----------

  lemma VacantLeaf(mh: MapHasher, vals: map<nat, Value>, x: nat)
    ensures Vacant(LeafHashes(mh, vals), 0, 0, x) <==> x !in vals
  {
    ShrStep(x, 0);
    forall y | y in LeafHashes(mh, vals) ensures Shr(y, 0) == y { ShrStep(y, 0); }
    if x in vals { assert x in LeafHashes(mh, vals); }
  }

  /** The children of a node on the path are the node below on the path and its sibling. */
  lemma PathChildren(index: nat, h: nat)
    ensures var x, s := Shr(index, h), Sibling(Shr(index, h));
            (if x % 2 == 0 then x == 2 * Shr(index, h + 1) && s == x + 1 else s == 2 * Shr(index, h + 1) && x == s + 1)
  {
    ShrStep(index, h);
  }

  /** A proof element may spell out the hash of an empty sibling, once the path itself is not empty. */
  predicate Stands(mh: MapHasher, m: map<nat, Hash>, index: nat, h: nat, e: Element) {
    var honest := SiblingElement(mh, m, index, h);
    || e == honest
    || (&& !Vacant(m, 0, h, Shr(index, h)) && honest.Missing?
        && e == Present(mh.HashEmpty(Shl(Sibling(Shr(index, h)), h), h)))
  }

  /** From the true leaf and standing elements the true nodes of the path are computed. */
  lemma {:induction false} RunningTrue(mh: MapHasher, vals: map<nat, Value>, index: nat, proof: seq<Element>, h: nat)
    requires h <= |proof| && forall k :: 0 <= k < h ==> Stands(mh, LeafHashes(mh, vals), index, k, proof[k])
    ensures
      var m, x := LeafHashes(mh, vals), Shr(index, h);
      Running(mh, index, Lookup(vals, index), proof, h) ==
        if Vacant(m, 0, h, x) then None else Some(Tree(mh, m, 0, h, x))
  {
    hide Shl, Shr, Vacant;
    var m := LeafHashes(mh, vals);
    if h == 0 {
      VacantLeaf(mh, vals, index);
      ShrStep(index, 0);
    } else {
      RunningTrue(mh, vals, index, proof, h - 1);
      PathChildren(index, h - 1);
      VacantChildren(m, 0, h, Shr(index, h));
      assert Stands(mh, m, index, h - 1, proof[h - 1]);
    }
  }

  /** Proofs are complete, for present and for absent keys. */
  lemma MapProofComplete(mh: MapHasher, vals: map<nat, Value>, index: nat, proof: seq<Element>)
    requires Shr(index, mh.bits) == 0 && |proof| == mh.bits
    requires forall k :: 0 <= k < mh.bits ==> Stands(mh, LeafHashes(mh, vals), index, k, proof[k])
    ensures Accepts(mh, index, Lookup(vals, index), MapRoot(mh, LeafHashes(mh, vals)), proof)
  {
    hide Shl, Shr, Vacant;
    RunningTrue(mh, vals, index, proof, mh.bits);
  }

  lemma MapProofAccepted(mh: MapHasher, vals: map<nat, Value>, index: nat)
    requires Shr(index, mh.bits) == 0
    ensures Accepts(mh, index, Lookup(vals, index), MapRoot(mh, LeafHashes(mh, vals)),
              MapProof(mh, LeafHashes(mh, vals), index))
  {
    hide Shl, Shr, Vacant, Running;
    MapProofComplete(mh, vals, index, MapProof(mh, LeafHashes(mh, vals), index));
  }

  /** For example: in a map with one leaf, at index zero, the empty leaf beside it may be spelled out. */
  lemma TwoProofs(mh: MapHasher, value: Value)
    requires mh.bits > 0
    ensures
      var vals := map[0 := value];
      var proof, root := MapProof(mh, LeafHashes(mh, vals), 0), MapRoot(mh, LeafHashes(mh, vals));
      var other := proof[0 := Present(mh.HashEmpty(1, 0))];
      other != proof && Accepts(mh, 0, Some(value), root, proof) && Accepts(mh, 0, Some(value), root, other)
  {
    hide Shr, Vacant, Tree, Running, MapRoot, LeafHashes;
    var vals := map[0 := value];
    var m := LeafHashes(mh, vals);
    var proof := MapProof(mh, m, 0);
    ShrZero(mh.bits);
    ShrZero(0);
    ShiftNothing(1);
    VacantLeaf(mh, vals, 0);
    VacantLeaf(mh, vals, 1);
    var other := proof[0 := Present(mh.HashEmpty(1, 0))];
    assert proof[0] == Missing && other[0] != proof[0];
    assert Lookup(vals, 0) == Some(value);
    MapProofAccepted(mh, vals, 0);
    MapProofComplete(mh, vals, 0, other);
  }

  // ---------- soundness ----------

  /** What is hashed to give node `x` at height `t` of the map's tree. */
  function TreePreimage(mh: MapHasher, vals: map<nat, Value>, t: nat, x: nat): (p: Preimage) {
    var m := LeafHashes(mh, vals);
    if t == 0 && x in vals then OfLeaf(x, vals[x])
    else if t == 0 || Vacant(m, 0, t, x) then OfEmpty(Shl(x, t), t)
    else OfNode(Tree(mh, m, 0, t - 1, 2 * x), Tree(mh, m, 0, t - 1, 2 * x + 1))
  }

  lemma TreePreimageHash(mh: MapHasher, vals: map<nat, Value>, t: nat, x: nat)
    ensures HashOf(mh, TreePreimage(mh, vals, t, x)) == Tree(mh, LeafHashes(mh, vals), 0, t, x)
    ensures TreePreimage(mh, vals, t, x).OfEmpty? <==> Vacant(LeafHashes(mh, vals), 0, t, x)
  {
    if t == 0 { VacantLeaf(mh, vals, x); }
  }

  /** What the verifier hashed to get the node at height `h` of the path. */
  function PathPreimage(mh: MapHasher, index: nat, leaf: Option<Value>, proof: seq<Element>, h: nat): Preimage
    requires h <= |proof|
  {
    if Running(mh, index, leaf, proof, h).None? then OfEmpty(Shl(Shr(index, h), h), h)
    else if h == 0 then OfLeaf(index, leaf.value)
    else
      var own := Filled(mh, index, h - 1, Running(mh, index, leaf, proof, h - 1));
      var sib := ElementHash(mh, index, h - 1, proof[h - 1]);
      if Shr(index, h - 1) % 2 == 0 then OfNode(own, sib) else OfNode(sib, own)
  }

  /** Walks down the path to the first node, or missing sibling, that was hashed from something else than the
      map's. */
  function MapWitness(mh: MapHasher, vals: map<nat, Value>, index: nat, leaf: Option<Value>, proof: seq<Element>,
                      h: nat): Preimages
    requires h <= |proof|
  {
    var p, q := PathPreimage(mh, index, leaf, proof, h), TreePreimage(mh, vals, h, Shr(index, h));
    if h == 0 || p != q then Preimages(p, q)
    else
      var s := Sibling(Shr(index, h - 1));
      if proof[h - 1].Missing? && !Vacant(LeafHashes(mh, vals), 0, h - 1, s)
      then Preimages(OfEmpty(Shl(s, h - 1), h - 1), TreePreimage(mh, vals, h - 1, s))
      else MapWitness(mh, vals, index, leaf, proof, h - 1)
  }

  lemma PathPreimageHash(mh: MapHasher, index: nat, leaf: Option<Value>, proof: seq<Element>, h: nat)
    requires h <= |proof|
    ensures HashOf(mh, PathPreimage(mh, index, leaf, proof, h)) ==
            Filled(mh, index, h, Running(mh, index, leaf, proof, h))
  {
  }

  lemma VacantHash(mh: MapHasher, m: map<nat, Hash>, t: nat, x: nat)
    ensures Vacant(m, 0, t, x) ==> Tree(mh, m, 0, t, x) == mh.HashEmpty(Shl(x, t), t)
  {
  }

  /** An empty branch of the verifier that is one of the map's: nothing but missing elements below it. */
  lemma {:induction false} EmptyPath(mh: MapHasher, vals: map<nat, Value>, index: nat, leaf: Option<Value>,
                                     proof: seq<Element>, h: nat)
    requires h <= |proof| && Running(mh, index, leaf, proof, h).None?
             && Vacant(LeafHashes(mh, vals), 0, h, Shr(index, h))
    ensures leaf == Lookup(vals, index) && forall k :: 0 <= k < h ==>
            Stands(mh, LeafHashes(mh, vals), index, k, proof[k])
  {
    hide Shl, Shr, Vacant, Tree;
    if h == 0 {
      VacantLeaf(mh, vals, index);
      ShrStep(index, 0);
    } else {
      PathChildren(index, h - 1);
      VacantChildren(LeafHashes(mh, vals), 0, h, Shr(index, h));
      EmptyPath(mh, vals, index, leaf, proof, h - 1);
    }
  }

  /** A hash of the verifier that is the map's, at the same node of the path. */
  lemma {:induction false} PathSound(mh: MapHasher, vals: map<nat, Value>, index: nat, leaf: Option<Value>,
                                     proof: seq<Element>, h: nat)
    requires h <= |proof| && WellFormed(proof)
    requires Filled(mh, index, h, Running(mh, index, leaf, proof, h)) ==
             Tree(mh, LeafHashes(mh, vals), 0, h, Shr(index, h))
    ensures
      || (leaf == Lookup(vals, index) && forall k :: 0 <= k < h ==>
           Stands(mh, LeafHashes(mh, vals), index, k, proof[k]))
      || MapWitness(mh, vals, index, leaf, proof, h).Collides(mh)
  {
    hide Shl, Shr, Vacant, Tree, LeafHashes;
    var m, x := LeafHashes(mh, vals), Shr(index, h);
    var p, q := PathPreimage(mh, index, leaf, proof, h), TreePreimage(mh, vals, h, x);
    PathPreimageHash(mh, index, leaf, proof, h);
    TreePreimageHash(mh, vals, h, x);
    if p == q {
      if p.OfEmpty? {
        EmptyPath(mh, vals, index, leaf, proof, h);
      } else if h == 0 {
        ShrStep(index, 0);
      } else {
        PathChildren(index, h - 1);
        VacantChildren(m, 0, h, x);
        VacantHash(mh, m, h - 1, Sibling(Shr(index, h - 1)));
        TreePreimageHash(mh, vals, h - 1, Sibling(Shr(index, h - 1)));
        PathSound(mh, vals, index, leaf, proof, h - 1);
      }
    }
  }

  /** Proofs are sound: an accepted one gives the map's own value, or `None` exactly for an absent key, and is the
      map's proof up to spelling out empty siblings; else two preimages of one hash can be read off it. */
  lemma MapProofSound(mh: MapHasher, vals: map<nat, Value>, index: nat, leaf: Option<Value>, proof: seq<Element>)
    requires Shr(index, mh.bits) == 0 && Accepts(mh, index, leaf, MapRoot(mh, LeafHashes(mh, vals)), proof)
    ensures
      || (leaf == Lookup(vals, index) && forall k :: 0 <= k < mh.bits ==>
           Stands(mh, LeafHashes(mh, vals), index, k, proof[k]))
      || MapWitness(mh, vals, index, leaf, proof, mh.bits).Collides(mh)
  {
    PathSound(mh, vals, index, leaf, proof, mh.bits);
  }

  // ---------- one root, two proofs ----------

  lemma {:induction false} NoneBelow(mh: MapHasher, index: nat, leaf: Option<Value>, proof: seq<Element>, h: nat)
    requires h <= |proof| && Running(mh, index, leaf, proof, h).None?
    ensures leaf.None?
  {
    if h > 0 { NoneBelow(mh, index, leaf, proof, h - 1); }
  }

  function RivalWitness(mh: MapHasher, index: nat, leaf1: Option<Value>, proof1: seq<Element>, leaf2: Option<Value>,
                        proof2: seq<Element>, h: nat): Preimages
    requires h <= |proof1| && h <= |proof2|
  {
    var p, q := PathPreimage(mh, index, leaf1, proof1, h), PathPreimage(mh, index, leaf2, proof2, h);
    if h == 0 || p != q then Preimages(p, q) else RivalWitness(mh, index, leaf1, proof1, leaf2, proof2, h - 1)
  }

  lemma {:induction false} RivalPaths(mh: MapHasher, index: nat, leaf1: Option<Value>, proof1: seq<Element>,
                                      leaf2: Option<Value>, proof2: seq<Element>, h: nat)
    requires h <= |proof1| && h <= |proof2|
    requires Filled(mh, index, h, Running(mh, index, leaf1, proof1, h)) ==
             Filled(mh, index, h, Running(mh, index, leaf2, proof2, h))
    ensures leaf1 == leaf2 || RivalWitness(mh, index, leaf1, proof1, leaf2, proof2, h).Collides(mh)
  {
    hide Shl, Shr;
    var p, q := PathPreimage(mh, index, leaf1, proof1, h), PathPreimage(mh, index, leaf2, proof2, h);
    PathPreimageHash(mh, index, leaf1, proof1, h);
    PathPreimageHash(mh, index, leaf2, proof2, h);
    if p == q {
      if p.OfEmpty? {
        NoneBelow(mh, index, leaf1, proof1, h);
        NoneBelow(mh, index, leaf2, proof2, h);
      } else if h > 0 {
        RivalPaths(mh, index, leaf1, proof1, leaf2, proof2, h - 1);
      }
    }
  }

  /** A root, honest or not, commits to one answer for each index. */
  lemma RootBindsValue(mh: MapHasher, index: nat, root: Hash, leaf1: Option<Value>, proof1: seq<Element>,
                       leaf2: Option<Value>, proof2: seq<Element>)
    requires Accepts(mh, index, leaf1, root, proof1) && Accepts(mh, index, leaf2, root, proof2)
    ensures leaf1 == leaf2 || RivalWitness(mh, index, leaf1, proof1, leaf2, proof2, mh.bits).Collides(mh)
  {
    RivalPaths(mh, index, leaf1, proof1, leaf2, proof2, mh.bits);
  }

  // ---------- hashers whose empty branches are interior nodes ----------

  /** What the verifier hashed, with no shortcut for empty branches. */
  function PlainPreimage(mh: MapHasher, index: nat, leaf: Option<Value>, proof: seq<Element>, h: nat): Preimage
    requires h <= |proof|
  {
    if h == 0 then if leaf.Some? then OfLeaf(index, leaf.value) else OfEmpty(index, 0)
    else
      var own := Filled(mh, index, h - 1, Running(mh, index, leaf, proof, h - 1));
      var sib := ElementHash(mh, index, h - 1, proof[h - 1]);
      if Shr(index, h - 1) % 2 == 0 then OfNode(own, sib) else OfNode(sib, own)
  }

  function PlainTreePreimage(mh: MapHasher, vals: map<nat, Value>, t: nat, x: nat): Preimage {
    if t > 0 then
      OfNode(Tree(mh, LeafHashes(mh, vals), 0, t - 1, 2 * x), Tree(mh, LeafHashes(mh, vals), 0, t - 1, 2 * x + 1))
    else if x in vals then OfLeaf(x, vals[x])
    else OfEmpty(x, 0)
  }

  function PlainWitness(mh: MapHasher, vals: map<nat, Value>, index: nat, leaf: Option<Value>, proof: seq<Element>,
                        h: nat): Preimages
    requires h <= |proof|
  {
    var p, q := PlainPreimage(mh, index, leaf, proof, h), PlainTreePreimage(mh, vals, h, Shr(index, h));
    if h == 0 || p != q then Preimages(p, q) else PlainWitness(mh, vals, index, leaf, proof, h - 1)
  }

  lemma PlainPathHash(mh: MapHasher, index: nat, leaf: Option<Value>, proof: seq<Element>, h: nat)
    requires h <= |proof| && EmptiesAreNodes(mh)
    ensures HashOf(mh, PlainPreimage(mh, index, leaf, proof, h)) ==
            Filled(mh, index, h, Running(mh, index, leaf, proof, h))
  {
    hide Shl, Shr, EmptiesAreNodes;
    if h == 0 {
      ShiftNothing(index);
    } else {
      PathChildren(index, h - 1);
      EmptyIsNodeAt(mh, h - 1, Shr(index, h));
    }
  }

  lemma PlainTreeHash(mh: MapHasher, vals: map<nat, Value>, t: nat, x: nat)
    requires EmptiesAreNodes(mh)
    ensures HashOf(mh, PlainTreePreimage(mh, vals, t, x)) == Tree(mh, LeafHashes(mh, vals), 0, t, x)
  {
    hide Shl, Shr, EmptiesAreNodes, Vacant;
    if t == 0 {
      ShiftNothing(x);
      VacantLeaf(mh, vals, x);
    } else {
      NodeHash(mh, LeafHashes(mh, vals), t - 1, x);
    }
  }

  lemma {:induction false} PlainPathSound(mh: MapHasher, vals: map<nat, Value>, index: nat, leaf: Option<Value>,
      proof: seq<Element>, h: nat)
    requires h <= |proof| && EmptiesAreNodes(mh)
    requires Filled(mh, index, h, Running(mh, index, leaf, proof, h)) ==
             Tree(mh, LeafHashes(mh, vals), 0, h, Shr(index, h))
    ensures leaf == Lookup(vals, index) || PlainWitness(mh, vals, index, leaf, proof, h).Collides(mh)
  {
    hide Vacant, Shl, Shr, Tree, EmptiesAreNodes, LeafHashes;
    PlainPathHash(mh, index, leaf, proof, h);
    PlainTreeHash(mh, vals, h, Shr(index, h));
    if h == 0 {
      ShrStep(index, 0);
    } else if PlainPreimage(mh, index, leaf, proof, h) == PlainTreePreimage(mh, vals, h, Shr(index, h)) {
      PathChildren(index, h - 1);
      PlainPathSound(mh, vals, index, leaf, proof, h - 1);
    }
  }

  /** Soundness for these hashers: the collision is between nodes, or between a leaf and another leaf. */
  lemma MapProofSoundPlain(mh: MapHasher, vals: map<nat, Value>, index: nat, leaf: Option<Value>, proof: seq<Element>)
    requires EmptiesAreNodes(mh) && Shr(index, mh.bits) == 0
    requires Accepts(mh, index, leaf, MapRoot(mh, LeafHashes(mh, vals)), proof)
    ensures leaf == Lookup(vals, index) || PlainWitness(mh, vals, index, leaf, proof, mh.bits).Collides(mh)
  {
    PlainPathSound(mh, vals, index, leaf, proof, mh.bits);
  }

  function PlainRival(mh: MapHasher, index: nat, leaf1: Option<Value>, proof1: seq<Element>, leaf2: Option<Value>,
                      proof2: seq<Element>, h: nat): Preimages
    requires h <= |proof1| && h <= |proof2|
  {
    var p, q := PlainPreimage(mh, index, leaf1, proof1, h), PlainPreimage(mh, index, leaf2, proof2, h);
    if h == 0 || p != q then Preimages(p, q) else PlainRival(mh, index, leaf1, proof1, leaf2, proof2, h - 1)
  }

  lemma {:induction false} PlainRivals(mh: MapHasher, index: nat, leaf1: Option<Value>, proof1: seq<Element>,
                                       leaf2: Option<Value>, proof2: seq<Element>, h: nat)
    requires h <= |proof1| && h <= |proof2| && EmptiesAreNodes(mh)
    requires Filled(mh, index, h, Running(mh, index, leaf1, proof1, h)) ==
             Filled(mh, index, h, Running(mh, index, leaf2, proof2, h))
    ensures leaf1 == leaf2 || PlainRival(mh, index, leaf1, proof1, leaf2, proof2, h).Collides(mh)
  {
    hide Shl, Shr, EmptiesAreNodes;
    PlainPathHash(mh, index, leaf1, proof1, h);
    PlainPathHash(mh, index, leaf2, proof2, h);
    if h > 0 && PlainPreimage(mh, index, leaf1, proof1, h) == PlainPreimage(mh, index, leaf2, proof2, h) {
      PlainRivals(mh, index, leaf1, proof1, leaf2, proof2, h - 1);
    }
  }

  /** For these hashers too a root commits to one answer for each index, and an empty branch is no collision with the
      node it is hashed as. */
  lemma RootBindsValuePlain(mh: MapHasher, index: nat, root: Hash, leaf1: Option<Value>, proof1: seq<Element>,
                            leaf2: Option<Value>, proof2: seq<Element>)
    requires EmptiesAreNodes(mh)
    requires Accepts(mh, index, leaf1, root, proof1) && Accepts(mh, index, leaf2, root, proof2)
    ensures leaf1 == leaf2 || PlainRival(mh, index, leaf1, proof1, leaf2, proof2, mh.bits).Collides(mh)
  {
    PlainRivals(mh, index, leaf1, proof1, leaf2, proof2, mh.bits);
  }

  // ---------- the reader ----------

  datatype StoredNode = StoredNode(id: Coord, hash: Hash)

  datatype ReadError = UnusedNodes(remaining: nat)

  function Siblings(bits: nat, index: nat): (r: seq<Coord>)
    ensures |r| == bits && forall h :: 0 <= h < bits ==> r[h] == Coord(h, Sibling(Shr(index, h)))
  {
    seq(bits, h requires 0 <= h < bits => Coord(h, Sibling(Shr(index, h))))
  }

  /** What storage returns for `ids`: the nodes it has. */
  function GetMerkleNodes(store: map<Coord, Hash>, ids: seq<Coord>): seq<StoredNode> {
    if ids == [] then []
    else
      var rest, id := GetMerkleNodes(store, ids[..|ids| - 1]), ids[|ids| - 1];
      if id in store then rest + [StoredNode(id, store[id])] else rest
  }

  /** The nodes by their ids, the last one for each. */
  function NodeMap(nodes: seq<StoredNode>): map<Coord, Hash> {
    if nodes == [] then map[] else NodeMap(nodes[..|nodes| - 1])[nodes[|nodes| - 1].id := nodes[|nodes| - 1].hash]
  }

  /** The proof element for node `id`. */
  function ElementOf(nodes: map<Coord, Hash>, id: Coord): Element {
    if id in nodes then Present(nodes[id]) else Missing
  }

  /** What a proof says of node `id`: the hash of the last node with that id that was returned, or nothing if none was.
      */
  ghost predicate IsElement(nodes: seq<StoredNode>, id: Coord, e: Element) {
    || (e == Missing && forall n :: n in nodes ==> n.id != id)
    || exists k :: 0 <= k < |nodes| && nodes[k].id == id && e == Present(nodes[k].hash) && NoneAfter(nodes, id, k)
  }

  predicate NoneAfter(nodes: seq<StoredNode>, id: Coord, k: nat) {
    forall j :: k < j < |nodes| ==> nodes[j].id != id
  }

  lemma {:induction false} ElementIs(nodes: seq<StoredNode>, id: Coord)
    ensures IsElement(nodes, id, ElementOf(NodeMap(nodes), id))
    ensures id in NodeMap(nodes) <==> exists n :: n in nodes && n.id == id
  {
    if nodes != [] {
      var n := |nodes| - 1;
      var rest, last := nodes[..n], nodes[n];
      ElementIs(rest, id);
      assert nodes == rest + [last];
      if last.id == id {
        assert NoneAfter(nodes, id, n);
      } else if k :| 0 <= k < n && rest[k].id == id && ElementOf(NodeMap(rest), id) == Present(rest[k].hash)
                     && NoneAfter(rest, id, k) {
        assert nodes[k] == rest[k];
        forall j | k < j < |nodes| ensures nodes[j].id != id { if j < n { assert nodes[j] == rest[j]; } }
        assert NoneAfter(nodes, id, k);
      }
    }
  }

  /** Fails exactly if storage returned a node that was not asked for, and says for how many ids. Otherwise there is an
      element for each sibling. */
  method InclusionProof(bits: nat, index: nat, nodes: seq<StoredNode>) returns (r: Result<seq<Element>, ReadError>)
    ensures r.Err? <==> exists n :: n in nodes && n.id !in Siblings(bits, index)
    ensures r.Err? ==> r == Err(UnusedNodes(|set n | n in nodes && n.id !in Siblings(bits, index) :: n.id|))
    ensures r.Ok? ==> |r.value| == bits &&
                      forall h :: 0 <= h < bits ==> IsElement(nodes, Coord(h, Sibling(Shr(index, h))), r.value[h])
    ensures r.Ok? ==> forall h :: 0 <= h < bits ==>
                        r.value[h] == ElementOf(NodeMap(nodes), Coord(h, Sibling(Shr(index, h))))
  {
    hide Shr, IsElement;
    var sibs := Siblings(bits, index);
    var nodeMap: map<Coord, Hash> := map[];
    for k := 0 to |nodes|
      invariant nodeMap == NodeMap(nodes[..k])
    {
      assert nodes[..k + 1][..k] == nodes[..k];
      nodeMap := nodeMap[nodes[k].id := nodes[k].hash];
    }
    assert nodes[..|nodes|] == nodes;
    var proof: seq<Element> := [];
    for i := 0 to bits
      invariant |proof| == i && forall h :: 0 <= h < i ==> proof[h] == ElementOf(NodeMap(nodes), sibs[h])
      invariant forall id :: id in nodeMap <==> id in NodeMap(nodes) && id !in sibs[..i]
      invariant forall id :: id in nodeMap ==> nodeMap[id] == NodeMap(nodes)[id]
    {
      assert sibs[i] !in sibs[..i];
      assert sibs[..i + 1] == sibs[..i] + [sibs[i]];
      proof := proof + [ElementOf(nodeMap, sibs[i])];
      nodeMap := nodeMap - {sibs[i]};
    }
    assert sibs[..bits] == sibs;
    forall id: Coord
      ensures IsElement(nodes, id, ElementOf(NodeMap(nodes), id))
      ensures id in NodeMap(nodes) <==> exists n :: n in nodes && n.id == id
    {
      ElementIs(nodes, id);
    }
    if nodeMap != map[] {
      assert nodeMap.Keys != {};
      var id :| id in nodeMap;
      assert nodeMap.Keys == set n | n in nodes && n.id !in sibs :: n.id;
      return Err(UnusedNodes(|nodeMap|));
    }
    return Ok(proof);
  }

  lemma {:induction false} NodesFound(store: map<Coord, Hash>, ids: seq<Coord>, id: Coord)
    ensures var got := NodeMap(GetMerkleNodes(store, ids));
            (id in got <==> id in ids && id in store) && (id in got ==> got[id] == store[id])
  {
    if ids != [] {
      var rest, last := ids[..|ids| - 1], ids[|ids| - 1];
      NodesFound(store, rest, id);
      assert ids == rest + [last];
      var got := GetMerkleNodes(store, rest);
      if last in store { assert (got + [StoredNode(last, store[last])])[..|got|] == got; }
    }
  }

  lemma SiblingInside(index: nat, h: nat, bits: nat)
    requires Shr(index, bits) == 0 && h < bits
    ensures Inside(Coord(h, Sibling(Shr(index, h))), bits, 0)
  {
    hide Shr;
    var x, s := Shr(index, h), Sibling(Shr(index, h));
    PathChildren(index, h);
    ShrCompose(index, h + 1, bits - h - 1);
    ShrStep(s, 0);
    ShrCompose(s, 1, bits - h - 1);
  }

  /** What a reader of the stored tree sends is the map's proof: nothing is unused, and the elements are the
      siblings' hashes in the naive tree. */
  lemma ReadProof(mh: MapHasher, store: map<Coord, Hash>, m: map<nat, Hash>, index: nat)
    requires StoreOk(mh, store, m, 0, mh.bits, 0) && Shr(index, mh.bits) == 0
    ensures
      var got := NodeMap(GetMerkleNodes(store, Siblings(mh.bits, index)));
      && (forall id :: id in got ==> id in Siblings(mh.bits, index))
      && (forall h :: 0 <= h < mh.bits ==>
           ElementOf(got, Coord(h, Sibling(Shr(index, h)))) == MapProof(mh, m, index)[h])
  {
    hide Shr, Tree, Vacant, Inside, GetMerkleNodes, NodeMap, Sibling;
    var ids := Siblings(mh.bits, index);
    forall id ensures id in NodeMap(GetMerkleNodes(store, ids)) <==> id in ids && id in store
              ensures id in NodeMap(GetMerkleNodes(store, ids)) ==> NodeMap(GetMerkleNodes(store, ids))[id] == store[id]
    {
      NodesFound(store, ids, id);
    }
    forall h | 0 <= h < mh.bits
      ensures ElementOf(NodeMap(GetMerkleNodes(store, ids)), Coord(h, Sibling(Shr(index, h)))) ==
              MapProof(mh, m, index)[h]
    {
      SiblingInside(index, h, mh.bits);
      assert ids[h] == Coord(h, Sibling(Shr(index, h)));
      assert NodeOk(mh, store, m, 0, ids[h]);
    }
  }

  /** From storage to the client: for every index, what `InclusionProof` builds is accepted. */
  lemma ServedMapProof(mh: MapHasher, store: map<Coord, Hash>, vals: map<nat, Value>, index: nat, proof: seq<Element>)
    requires StoreOk(mh, store, LeafHashes(mh, vals), 0, mh.bits, 0) && Shr(index, mh.bits) == 0 && |proof| == mh.bits
    requires
      var got := NodeMap(GetMerkleNodes(store, Siblings(mh.bits, index)));
      forall h :: 0 <= h < mh.bits ==> proof[h] == ElementOf(got, Coord(h, Sibling(Shr(index, h))))
    ensures Accepts(mh, index, Lookup(vals, index), MapRoot(mh, LeafHashes(mh, vals)), proof)
  {
    hide Shr, Tree, Vacant, StoreOk, GetMerkleNodes, NodeMap, Sibling, ElementOf, SiblingElement, Accepts, LeafHashes;
    ReadProof(mh, store, LeafHashes(mh, vals), index);
    assert proof == MapProof(mh, LeafHashes(mh, vals), index);
    MapProofAccepted(mh, vals, index);
  }
}
