/** Trees in which some empty subtrees are treated as if there were something in them, as the sparse tree writer does
    with a child that got no leaf: when that changes the hashes above them. */
module EmptyBranches {
  import opened Bits
  import opened Hashing
  import opened SparseTree

  /** Besides those of the non-empty subtrees of height `b`, `roots` has the hashes of the subtrees in `open`. */
  ghost predicate Opens(mh: MapHasher, m: map<nat, Hash>, roots: map<nat, Hash>, b: nat, open: seq<nat>) {
    forall y: nat :: OpensAt(mh, m, roots, b, open, y)
  }

  ghost predicate OpensAt(mh: MapHasher, m: map<nat, Hash>, roots: map<nat, Hash>, b: nat, open: seq<nat>, y: nat) {
    && (y in roots <==> !Vacant(m, 0, b, y) || y in open)
    && (y in roots ==> roots[y] == Tree(mh, m, 0, b, y))
  }

  /** Each of them has something beside it, if not in it. */
  ghost predicate ParentsHeld(m: map<nat, Hash>, b: nat, open: seq<nat>) {
    forall c: nat :: c in open ==> !Vacant(m, 0, b + 1, c / 2)
  }

  lemma OpenedRoot(mh: MapHasher, m: map<nat, Hash>, roots: map<nat, Hash>, b: nat, open: seq<nat>, x: nat)
    requires Opens(mh, m, roots, b, open)
    ensures Tree(mh, roots, b, b, x) == Tree(mh, m, 0, b, x)
  {
    hide Vacant;
    assert OpensAt(mh, m, roots, b, open, x);
    VacantEntry(roots, b, x);
  }

  /** Nothing that is in the map is lost. */
  lemma {:induction false} StillHeld(mh: MapHasher, m: map<nat, Hash>, roots: map<nat, Hash>, b: nat, open: seq<nat>,
                                     t: nat, x: nat)
    requires b <= t && Opens(mh, m, roots, b, open)
    ensures Vacant(roots, b, t, x) ==> Vacant(m, 0, t, x)
    decreases t
  {
    hide Vacant, Tree;
    if t == b {
      VacantEntry(roots, b, x);
      assert OpensAt(mh, m, roots, b, open, x);
    } else {
      StillHeld(mh, m, roots, b, open, t - 1, 2 * x);
      StillHeld(mh, m, roots, b, open, t - 1, 2 * x + 1);
      VacantChildren(roots, b, t, x);
      VacantChildren(m, 0, t, x);
    }
  }

  /** An opened subtree with something beside it changes no hash above it. */
  lemma {:induction false} OpenedTree(mh: MapHasher, m: map<nat, Hash>, roots: map<nat, Hash>, b: nat, open: seq<nat>,
                                      t: nat, x: nat)
    requires b <= t && Opens(mh, m, roots, b, open) && ParentsHeld(m, b, open)
    ensures t > b ==> (Vacant(roots, b, t, x) <==> Vacant(m, 0, t, x))
    ensures Tree(mh, roots, b, t, x) == Tree(mh, m, 0, t, x)
    decreases t
  {
    hide Vacant;
    if t == b {
      OpenedRoot(mh, m, roots, b, open, x);
    } else {
      OpenedTree(mh, m, roots, b, open, t - 1, 2 * x);
      OpenedTree(mh, m, roots, b, open, t - 1, 2 * x + 1);
      VacantChildren(roots, b, t, x);
      VacantChildren(m, 0, t, x);
      if t == b + 1 { OpenedPair(mh, m, roots, b, open, x); }
    }
  }

  lemma OpenedPair(mh: MapHasher, m: map<nat, Hash>, roots: map<nat, Hash>, b: nat, open: seq<nat>, x: nat)
    requires Opens(mh, m, roots, b, open) && ParentsHeld(m, b, open)
    ensures Vacant(roots, b, b + 1, x) <==> Vacant(m, 0, b + 1, x)
  {
    hide Vacant, Tree;
    StillHeld(mh, m, roots, b, open, b + 1, x);
    VacantChildren(roots, b, b + 1, x);
    VacantChildren(m, 0, b + 1, x);
    VacantEntry(roots, b, 2 * x);
    VacantEntry(roots, b, 2 * x + 1);
    assert OpensAt(mh, m, roots, b, open, 2 * x) && OpensAt(mh, m, roots, b, open, 2 * x + 1);
    assert (2 * x) / 2 == x == (2 * x + 1) / 2;
  }

  /** Nor does any opened subtree, if empty branches are hashed as nodes. */
  lemma {:induction false} OpenedTreePlain(mh: MapHasher, m: map<nat, Hash>, roots: map<nat, Hash>, b: nat,
                                           open: seq<nat>, t: nat, x: nat)
    requires b <= t && Opens(mh, m, roots, b, open) && EmptiesAreNodes(mh)
    ensures Tree(mh, roots, b, t, x) == Tree(mh, m, 0, t, x)
    decreases t
  {
    hide Vacant, EmptiesAreNodes;
    if t == b {
      OpenedRoot(mh, m, roots, b, open, x);
    } else {
      OpenedTreePlain(mh, m, roots, b, open, t - 1, 2 * x);
      OpenedTreePlain(mh, m, roots, b, open, t - 1, 2 * x + 1);
      StillHeld(mh, m, roots, b, open, t, x);
      NodeHash(mh, m, t - 1, x);
    }
  }

  // ---------- any other opened subtree shows ----------

  /** Walks down from height `t` towards the opened subtree `c` to where the two trees hash different things. */
  function OpenedWitness(mh: MapHasher, m: map<nat, Hash>, roots: map<nat, Hash>, b: nat, t: nat, c: nat): Preimages
    requires b < t
    decreases t
  {
    var x := Shr(c, t - b);
    var p := if Vacant(m, 0, t, x) then OfEmpty(Shl(x, t), t)
             else OfNode(Tree(mh, m, 0, t - 1, 2 * x), Tree(mh, m, 0, t - 1, 2 * x + 1));
    var q := OfNode(Tree(mh, roots, b, t - 1, 2 * x), Tree(mh, roots, b, t - 1, 2 * x + 1));
    if p != q || t == b + 1 then Preimages(p, q) else OpenedWitness(mh, m, roots, b, t - 1, c)
  }

  /** If nothing is beside an opened subtree, the trees have different hashes above it, or two preimages of one hash
      can be read off them. */
  lemma {:induction false} OpenedShows(mh: MapHasher, m: map<nat, Hash>, roots: map<nat, Hash>, b: nat,
                                       open: seq<nat>, t: nat, c: nat)
    requires b < t && Opens(mh, m, roots, b, open) && c in open && Vacant(m, 0, b + 1, c / 2)
    requires Tree(mh, roots, b, t, Shr(c, t - b)) == Tree(mh, m, 0, t, Shr(c, t - b))
    ensures OpenedWitness(mh, m, roots, b, t, c).Collides(mh)
    decreases t
  {
    hide Vacant, Shl, Shr;
    var x := Shr(c, t - b);
    OpenedNotVacant(mh, m, roots, b, open, t, c);
    ShrStep(c, t - 1 - b);
    if t == b + 1 {
      ShiftNothing(c);
    } else if !Vacant(m, 0, t, x) {
      var below := Shr(c, t - 1 - b);
      assert below == 2 * x || below == 2 * x + 1;
      if OfNode(Tree(mh, m, 0, t - 1, 2 * x), Tree(mh, m, 0, t - 1, 2 * x + 1)) ==
         OfNode(Tree(mh, roots, b, t - 1, 2 * x), Tree(mh, roots, b, t - 1, 2 * x + 1)) {
        OpenedShows(mh, m, roots, b, open, t - 1, c);
      }
    }
  }

  lemma OpenedNotVacant(mh: MapHasher, m: map<nat, Hash>, roots: map<nat, Hash>, b: nat, open: seq<nat>, t: nat,
                        c: nat)
    requires b <= t && Opens(mh, m, roots, b, open) && c in open
    ensures !Vacant(roots, b, t, Shr(c, t - b))
  {
    assert OpensAt(mh, m, roots, b, open, c);
  }
}
