/** HStar2 (merkle/hstar2.go): recomputes the part of a sparse tree that new values touch and takes the rest
    from a getter. A getter is the map of the nodes it knows; no getter is the empty map. The nodes passed to
    the setter are collected in a map. */
module HStar2 {
  import opened Bits
  import opened Hashing
  import opened LogTree
  import opened SparseTree

  datatype LeafHash = LeafHash(index: nat, hash: Hash)

  datatype HStarError = SubtreeOverrun | SharedIndex

  /** The result and the nodes passed to the setter. */
  datatype Outcome = Outcome(root: Result<Hash, HStarError>, sets: map<Coord, Hash>)

  predicate SortedByIndex(values: seq<LeafHash>) {
    forall i, j :: 0 <= i < j < |values| ==> values[i].index <= values[j].index
  }

  /** `sort.Search` for the first value at or after `split`. */
  function FirstAtLeast(values: seq<LeafHash>, split: nat): (i: nat)
    ensures i <= |values|
    ensures forall j :: 0 <= j < i ==> values[j].index < split
    ensures i < |values| ==> values[i].index >= split
  {
    if values == [] || values[0].index >= split then 0 else 1 + FirstAtLeast(values[1..], split)
  }

  function Get(mh: MapHasher, store: map<Coord, Hash>, offset: nat, t: nat): Hash {
    var c := Coord(t, Shr(offset, t));
    if c in store then store[c] else mh.HashEmpty(offset, t)
  }

  /** `hStar2b` at height `t`; the values are placed at height `b`. */
  function HStar2b(mh: MapHasher, store: map<Coord, Hash>, values: seq<LeafHash>, offset: nat, t: nat, b: nat): Outcome
    requires b <= t
    decreases t
  {
    if t == b then
      if |values| == 0 then Outcome(Ok(Get(mh, store, offset, t)), map[])
      else if |values| == 1 then Outcome(Ok(values[0].hash), map[])
      else Outcome(Err(SharedIndex), map[])
    else if |values| == 0 then Outcome(Ok(Get(mh, store, offset, t)), map[])
    else
      var split := offset + Pow2(t - 1);
      var i := FirstAtLeast(values, split);
      Join(mh, Coord(t, Shr(offset, t)),
           HStar2b(mh, store, values[..i], offset, t - 1, b),
           HStar2b(mh, store, values[i..], split, t - 1, b))
  }

  /** Both halves done: hash them and set the node; an error on the left comes first. */
  function Join(mh: MapHasher, node: Coord, lhs: Outcome, rhs: Outcome): Outcome {
    if lhs.root.Err? then lhs
    else if rhs.root.Err? then Outcome(rhs.root, lhs.sets + rhs.sets)
    else
      var h := mh.HashChildren(lhs.root.value, rhs.root.value);
      Outcome(Ok(h), (lhs.sets + rhs.sets)[node := h])
  }

  // ---------- what it is meant to compute ----------

  /** All values lie below node `x` at height `t`. */
  predicate AllBelow(values: seq<LeafHash>, t: nat, x: nat) {
    forall i :: 0 <= i < |values| ==> Shr(values[i].index, t) == x
  }

  /** No two values fall on the same node at height `b`. */
  predicate Distinct(values: seq<LeafHash>, b: nat) {
    forall i, j :: 0 <= i < j < |values| ==> Shr(values[i].index, b) != Shr(values[j].index, b)
  }

  /** The values by the node at height `b` they are placed on. */
  function ValueMap(values: seq<LeafHash>, b: nat): map<nat, Hash> {
    if values == [] then map[]
    else ValueMap(values[..|values| - 1], b)[Shr(values[|values| - 1].index, b) := values[|values| - 1].hash]
  }

  lemma {:induction false} ValueMapKeys(values: seq<LeafHash>, b: nat, y: nat)
    ensures y in ValueMap(values, b) <==> exists i :: 0 <= i < |values| && Shr(values[i].index, b) == y
    ensures forall i :: 0 <= i < |values| && Distinct(values, b) && Shr(values[i].index, b) == y ==>
                          y in ValueMap(values, b) && ValueMap(values, b)[y] == values[i].hash
  {
    if values != [] {
      ValueMapKeys(values[..|values| - 1], b, y);
    }
  }

  lemma SearchSorted(values: seq<LeafHash>, split: nat)
    requires SortedByIndex(values)
    ensures var i := FirstAtLeast(values, split);
            && SortedByIndex(values[..i]) && SortedByIndex(values[i..])
            && forall j :: 0 <= j < |values| ==> (j < i <==> values[j].index < split)
  {
    var i := FirstAtLeast(values, split);
    forall j | 0 <= j < |values| ensures j < i <==> values[j].index < split {
      if i < j { assert values[i].index <= values[j].index; }
    }
    var right := values[i..];
    forall j, k | 0 <= j < k < |right| ensures right[j].index <= right[k].index {
      assert right[j] == values[i + j] && right[k] == values[i + k];
    }
  }

  /** The values that fall on the left and on the right child. */
  lemma SplitValues(values: seq<LeafHash>, t: nat, x: nat) returns (i: nat)
    requires SortedByIndex(values) && AllBelow(values, t + 1, x)
    ensures Shl(x, t + 1) + Pow2(t) == Shl(2 * x + 1, t) && Shl(x, t + 1) == Shl(2 * x, t)
    ensures i == FirstAtLeast(values, Shl(x, t + 1) + Pow2(t)) <= |values|
    ensures SortedByIndex(values[..i]) && AllBelow(values[..i], t, 2 * x)
    ensures SortedByIndex(values[i..]) && AllBelow(values[i..], t, 2 * x + 1)
  {
    ShlDouble(x, t);
    ShlSucc(2 * x, t);
    hide FirstAtLeast, Shl, Shr, SortedByIndex, Pow2;
    i := FirstAtLeast(values, Shl(2 * x + 1, t));
    SearchSorted(values, Shl(2 * x + 1, t));
    forall j | 0 <= j < |values| ensures Shr(values[j].index, t) == if j < i then 2 * x else 2 * x + 1 {
      ShrStep(values[j].index, t);
      ShrCompare(2 * x + 1, t, values[j].index);
    }
  }

  /** One step of the recursion, in terms of node `x` at height `t`. */
  lemma HStarStep(mh: MapHasher, store: map<Coord, Hash>, values: seq<LeafHash>, t: nat, x: nat, b: nat)
      returns (i: nat, lhs: Outcome, rhs: Outcome)
    requires b < t && values != [] && SortedByIndex(values) && AllBelow(values, t, x)
    ensures i <= |values|
    ensures SortedByIndex(values[..i]) && AllBelow(values[..i], t - 1, 2 * x)
    ensures SortedByIndex(values[i..]) && AllBelow(values[i..], t - 1, 2 * x + 1)
    ensures lhs == HStar2b(mh, store, values[..i], Shl(2 * x, t - 1), t - 1, b)
    ensures rhs == HStar2b(mh, store, values[i..], Shl(2 * x + 1, t - 1), t - 1, b)
    ensures HStar2b(mh, store, values, Shl(x, t), t, b) == Join(mh, Coord(t, x), lhs, rhs)
  {
    hide HStar2b, Join, FirstAtLeast, SortedByIndex, AllBelow;
    i := SplitValues(values, t - 1, x);
    ShrUnique(Shl(x, t), t, x);
    lhs := HStar2b(mh, store, values[..i], Shl(2 * x, t - 1), t - 1, b);
    rhs := HStar2b(mh, store, values[i..], Shl(2 * x + 1, t - 1), t - 1, b);
    HStarUnfold(mh, store, values, Shl(x, t), Shl(2 * x + 1, t - 1), t, b, i);
  }

  /** Where the recursion ends: at the height of the values, or where there are none. */
  lemma HStarBase(mh: MapHasher, store: map<Coord, Hash>, values: seq<LeafHash>, t: nat, x: nat, b: nat)
    requires b <= t && (t == b || values == [])
    ensures
      var out := HStar2b(mh, store, values, Shl(x, t), t, b);
      && out.sets == map[]
      && (out.root.Err? <==> |values| > 1)
      && (values == [] ==>
            out.root == Ok(if Coord(t, x) in store then store[Coord(t, x)] else mh.HashEmpty(Shl(x, t), t)))
      && (|values| == 1 ==> out.root == Ok(values[0].hash))
  {
    ShrUnique(Shl(x, t), t, x);
  }

  lemma HStarUnfold(mh: MapHasher, store: map<Coord, Hash>, values: seq<LeafHash>, offset: nat, split: nat, t: nat,
                    b: nat, i: nat)
    requires b < t && values != [] && split == offset + Pow2(t - 1) && i == FirstAtLeast(values, split)
    ensures HStar2b(mh, store, values, offset, t, b)
            == Join(mh, Coord(t, Shr(offset, t)),
                    HStar2b(mh, store, values[..i], offset, t - 1, b), HStar2b(mh, store, values[i..], split, t - 1, b))
  {
    hide Join, FirstAtLeast, Shr, Pow2;
  }

  /** Splitting at a child boundary separates the nodes that values fall on. */
  lemma DistinctSplit(values: seq<LeafHash>, i: nat, t: nat, x: nat, b: nat)
    requires i <= |values| && b <= t
    requires AllBelow(values[..i], t, 2 * x) && AllBelow(values[i..], t, 2 * x + 1)
    ensures Distinct(values, b) <==> Distinct(values[..i], b) && Distinct(values[i..], b)
  {
    forall j, k | 0 <= j < i <= k < |values| ensures Shr(values[j].index, b) != Shr(values[k].index, b) {
      assert values[..i][j] == values[j] && values[i..][k - i] == values[k];
      ShrCompose(values[j].index, b, t - b);
      ShrCompose(values[k].index, b, t - b);
    }
    if Distinct(values, b) {
      forall j, k | 0 <= j < k < |values| - i ensures Shr(values[i..][j].index, b) != Shr(values[i..][k].index, b) {
        assert values[i..][j] == values[i + j] && values[i..][k] == values[i + k];
      }
    }
    if Distinct(values[..i], b) && Distinct(values[i..], b) {
      forall j, k | 0 <= j < k < |values| ensures Shr(values[j].index, b) != Shr(values[k].index, b) {
        if k < i {
          assert values[..i][j] == values[j] && values[..i][k] == values[k];
        } else if j >= i {
          assert values[i..][j - i] == values[j] && values[i..][k - i] == values[k];
        }
      }
    }
  }

  /** It fails exactly when two values share a node at the height they are placed at. */
  lemma {:induction false} FailsOnSharedIndex(mh: MapHasher, store: map<Coord, Hash>, values: seq<LeafHash>, t: nat,
      x: nat, b: nat)
    requires b <= t && SortedByIndex(values) && AllBelow(values, t, x)
    ensures HStar2b(mh, store, values, Shl(x, t), t, b).root.Err? <==> !Distinct(values, b)
    decreases t
  {
    hide HStar2b, Shl, Shr, SortedByIndex;
    if t == b || values == [] {
      HStarBase(mh, store, values, t, x, b);
      if |values| > 1 { assert Shr(values[0].index, b) == Shr(values[1].index, b); }
    } else {
      var i, lhs, rhs := HStarStep(mh, store, values, t, x, b);
      FailsOnSharedIndex(mh, store, values[..i], t - 1, 2 * x, b);
      FailsOnSharedIndex(mh, store, values[i..], t - 1, 2 * x + 1, b);
      DistinctSplit(values, i, t - 1, x, b);
    }
  }

  /** The map after the values have been put in. */
  function Updated(m: map<nat, Hash>, values: seq<LeafHash>, b: nat): map<nat, Hash> {
    m + ValueMap(values, b)
  }

  /** Below the left child only the left values matter, and below the right child only the right ones. */
  lemma UpdatedSplit(m: map<nat, Hash>, values: seq<LeafHash>, i: nat, t: nat, x: nat, b: nat)
    requires i <= |values| && b <= t && Distinct(values, b)
    requires AllBelow(values[..i], t, 2 * x) && AllBelow(values[i..], t, 2 * x + 1)
    ensures SameBelow(Updated(m, values, b), Updated(m, values[..i], b), b, t, 2 * x)
    ensures SameBelow(Updated(m, values, b), Updated(m, values[i..], b), b, t, 2 * x + 1)
  {
    DistinctSplit(values, i, t, x, b);
    var n := t - b;
    forall y: nat
      ensures Shr(y, n) == 2 * x ==> SameEntry(ValueMap(values, b), ValueMap(values[..i], b), y)
      ensures Shr(y, n) == 2 * x + 1 ==> SameEntry(ValueMap(values, b), ValueMap(values[i..], b), y)
    {
      EntrySplit(values, i, t, x, b, y);
    }
  }

  ghost predicate SameEntry(m: map<nat, Hash>, m': map<nat, Hash>, y: nat) {
    (y in m <==> y in m') && (y in m ==> m[y] == m'[y])
  }

  lemma SameEntries(m: map<nat, Hash>, m': map<nat, Hash>)
    requires forall y: nat :: SameEntry(m, m', y)
    ensures m == m'
  {
    forall y: nat ensures y in m <==> y in m' ensures y in m ==> m[y] == m'[y] { assert SameEntry(m, m', y); }
    assert m.Keys == m'.Keys;
  }

  lemma EntrySplit(values: seq<LeafHash>, i: nat, t: nat, x: nat, b: nat, y: nat)
    requires i <= |values| && b <= t && Distinct(values, b) && Distinct(values[..i], b) && Distinct(values[i..], b)
    requires AllBelow(values[..i], t, 2 * x) && AllBelow(values[i..], t, 2 * x + 1)
    ensures Shr(y, t - b) == 2 * x ==> SameEntry(ValueMap(values, b), ValueMap(values[..i], b), y)
    ensures Shr(y, t - b) == 2 * x + 1 ==> SameEntry(ValueMap(values, b), ValueMap(values[i..], b), y)
  {
    hide ValueMap, Distinct;
    ValueMapKeys(values, b, y);
    ValueMapKeys(values[..i], b, y);
    ValueMapKeys(values[i..], b, y);
    if j :| 0 <= j < |values| && Shr(values[j].index, b) == y {
      ShrCompose(values[j].index, b, t - b);
      if j < i {
        assert values[..i][j] == values[j];
      } else {
        assert values[i..][j - i] == values[j];
      }
    }
  }

  // ---------- correctness ----------

  lemma StoreOkChildren(mh: MapHasher, store: map<Coord, Hash>, m: map<nat, Hash>, b: nat, t: nat, x: nat)
    requires b < t && StoreOk(mh, store, m, b, t, x)
    ensures StoreOk(mh, store, m, b, t - 1, 2 * x) && StoreOk(mh, store, m, b, t - 1, 2 * x + 1)
  {
    hide NodeOk;
    forall c: Coord | b <= c.level && (Inside(c, t - 1, 2 * x) || Inside(c, t - 1, 2 * x + 1))
      ensures NodeOk(mh, store, m, b, c)
    {
      InsideChildren(c, t, x);
    }
  }

  lemma StoreOkTop(mh: MapHasher, store: map<Coord, Hash>, m: map<nat, Hash>, b: nat, t: nat, x: nat)
    requires b <= t && StoreOk(mh, store, m, b, t, x)
    ensures Tree(mh, m, b, t, x) == if Coord(t, x) in store then store[Coord(t, x)] else mh.HashEmpty(Shl(x, t), t)
  {
    assert Inside(Coord(t, x), t, x);
    assert NodeOk(mh, store, m, b, Coord(t, x));
  }

  lemma UpdatedOne(mh: MapHasher, m: map<nat, Hash>, v: LeafHash, b: nat)
    ensures Tree(mh, Updated(m, [v], b), b, b, Shr(v.index, b)) == v.hash
    ensures !Vacant(Updated(m, [v], b), b, b, Shr(v.index, b))
  {
    var m', y := Updated(m, [v], b), Shr(v.index, b);
    assert ValueMap([v], b) == map[][y := v.hash];
    assert y in m' && Shr(y, 0) == y;
  }

  /** A node with a value below it is not empty. */
  lemma TouchedNotVacant(m: map<nat, Hash>, values: seq<LeafHash>, b: nat, t: nat, i: nat)
    requires b <= t && i < |values|
    ensures !Vacant(Updated(m, values, b), b, t, Shr(values[i].index, t))
  {
    var y := Shr(values[i].index, b);
    ValueMapKeys(values, b, y);
    ShrCompose(values[i].index, b, t - b);
    assert y in Updated(m, values, b);
  }

  /** The root is that of the naive tree over the old map with the new values put in. */
  lemma {:induction false} HStarRoot(mh: MapHasher, store: map<Coord, Hash>, m: map<nat, Hash>,
                                     values: seq<LeafHash>, t: nat, x: nat, b: nat)
    requires b <= t && SortedByIndex(values) && AllBelow(values, t, x) && Distinct(values, b)
    requires StoreOk(mh, store, m, b, t, x)
    ensures HStar2b(mh, store, values, Shl(x, t), t, b).root == Ok(Tree(mh, Updated(m, values, b), b, t, x))
    decreases t
  {
    hide HStar2b, StoreOk, SortedByIndex, Shl, Shr, Vacant, Distinct;
    if values == [] {
      HStarBase(mh, store, values, t, x, b);
      StoreOkTop(mh, store, m, b, t, x);
      assert Updated(m, values, b) == m;
    } else if t == b {
      FailsOnSharedIndex(mh, store, values, t, x, b);
      HStarBase(mh, store, values, t, x, b);
      assert values == [values[0]];
      UpdatedOne(mh, m, values[0], b);
    } else {
      var i, lhs, rhs := HStarStep(mh, store, values, t, x, b);
      DistinctSplit(values, i, t - 1, x, b);
      StoreOkChildren(mh, store, m, b, t, x);
      HStarRoot(mh, store, m, values[..i], t - 1, 2 * x, b);
      HStarRoot(mh, store, m, values[i..], t - 1, 2 * x + 1, b);
      UpdatedSplit(m, values, i, t - 1, x, b);
      TreeFrame(mh, Updated(m, values, b), Updated(m, values[..i], b), b, t - 1, 2 * x);
      TreeFrame(mh, Updated(m, values, b), Updated(m, values[i..], b), b, t - 1, 2 * x + 1);
      TouchedNotVacant(m, values, b, t, 0);
    }
  }

  predicate Touched(values: seq<LeafHash>, c: Coord) {
    exists i :: 0 <= i < |values| && Shr(values[i].index, c.level) == c.index
  }

  /** Node `c` was set exactly if a value lies below it, to its hash in the new tree. */
  ghost predicate SetOk(mh: MapHasher, sets: map<Coord, Hash>, m': map<nat, Hash>, values: seq<LeafHash>, t: nat,
                        x: nat, b: nat, c: Coord) {
    && (c in sets <==> b < c.level && Inside(c, t, x) && Touched(values, c))
    && (c in sets ==> sets[c] == Tree(mh, m', b, c.level, c.index))
  }

  /** A node below one child is touched by the values of that child only. */
  lemma TouchedSplit(values: seq<LeafHash>, i: nat, t: nat, x: nat, c: Coord)
    requires i <= |values| && AllBelow(values[..i], t, 2 * x) && AllBelow(values[i..], t, 2 * x + 1)
    ensures Inside(c, t, 2 * x) ==> !Inside(c, t, 2 * x + 1) && (Touched(values, c) <==> Touched(values[..i], c))
    ensures Inside(c, t, 2 * x + 1) ==> !Inside(c, t, 2 * x) && (Touched(values, c) <==> Touched(values[i..], c))
  {
    if c.level <= t {
      forall j | 0 <= j < |values| && Shr(values[j].index, c.level) == c.index
        ensures Shr(c.index, t - c.level) == if j < i then 2 * x else 2 * x + 1
      {
        ShrCompose(values[j].index, c.level, t - c.level);
        if j < i { assert values[..i][j] == values[j]; } else { assert values[i..][j - i] == values[j]; }
      }
      if Touched(values, c) {
        var j :| 0 <= j < |values| && Shr(values[j].index, c.level) == c.index;
        if j < i { assert values[..i][j] == values[j]; } else { assert values[i..][j - i] == values[j]; }
      }
      if Touched(values[i..], c) {
        var j :| 0 <= j < |values[i..]| && Shr(values[i..][j].index, c.level) == c.index;
        assert values[i + j] == values[i..][j];
      }
    }
  }

  lemma {:induction false} HStarSets(mh: MapHasher, store: map<Coord, Hash>, m: map<nat, Hash>,
                                     values: seq<LeafHash>, t: nat, x: nat, b: nat, c: Coord)
    requires b <= t && SortedByIndex(values) && AllBelow(values, t, x) && Distinct(values, b)
    requires StoreOk(mh, store, m, b, t, x)
    ensures SetOk(mh, HStar2b(mh, store, values, Shl(x, t), t, b).sets, Updated(m, values, b), values, t, x, b, c)
    decreases t
  {
    hide HStar2b, StoreOk, SortedByIndex, Shl, Shr, Vacant, Distinct, Updated, AllBelow;
    if values == [] || t == b {
      FailsOnSharedIndex(mh, store, values, t, x, b);
      HStarBase(mh, store, values, t, x, b);
    } else {
      var i, lhs, rhs := HStarStep(mh, store, values, t, x, b);
      var m' := Updated(m, values, b);
      FailsOnSharedIndex(mh, store, values, t, x, b);
      DistinctSplit(values, i, t - 1, x, b);
      StoreOkChildren(mh, store, m, b, t, x);
      HStarSets(mh, store, m, values[..i], t - 1, 2 * x, b, c);
      HStarSets(mh, store, m, values[i..], t - 1, 2 * x + 1, b, c);
      HStarRoot(mh, store, m, values, t, x, b);
      UpdatedSplit(m, values, i, t - 1, x, b);
      InsideChildren(c, t, x);
      TouchedSplit(values, i, t - 1, x, c);
      TopTouched(values, t, x);
      if c.level >= b && Inside(c, t - 1, 2 * x) {
        FrameInside(mh, m', Updated(m, values[..i], b), b, t - 1, 2 * x, c);
      }
      if c.level >= b && Inside(c, t - 1, 2 * x + 1) {
        FrameInside(mh, m', Updated(m, values[i..], b), b, t - 1, 2 * x + 1, c);
      }
    }
  }

  lemma TopTouched(values: seq<LeafHash>, t: nat, x: nat)
    requires values != [] && AllBelow(values, t, x)
    ensures Touched(values, Coord(t, x)) && Inside(Coord(t, x), t, x)
  {
    assert Shr(values[0].index, t) == x;
  }

  /** Maps that agree below a node give the same hash to every node inside it. */
  lemma FrameInside(mh: MapHasher, m: map<nat, Hash>, m': map<nat, Hash>, b: nat, t: nat, x: nat, c: Coord)
    requires b <= c.level && Inside(c, t, x) && SameBelow(m, m', b, t, x)
    ensures SameBelow(m, m', b, c.level, c.index)
    ensures Vacant(m, b, c.level, c.index) <==> Vacant(m', b, c.level, c.index)
    ensures Tree(mh, m, b, c.level, c.index) == Tree(mh, m', b, c.level, c.index)
  {
    var n := c.level - b;
    forall y: nat | Shr(y, n) == c.index ensures Shr(y, t - b) == x { InsideBelow(c, y, b, t, x); }
    TreeFrame(mh, m, m', b, c.level, c.index);
  }

  // ---------- sorting and the entry point ----------

  /** `sort.Sort` by index. */
  function Sort(values: seq<LeafHash>): seq<LeafHash> {
    if values == [] then [] else Insert(Sort(values[..|values| - 1]), values[|values| - 1])
  }

  function Insert(s: seq<LeafHash>, v: LeafHash): seq<LeafHash> {
    var p := FirstAtLeast(s, v.index);
    s[..p] + [v] + s[p..]
  }

  /** No value of `s` falls on the node of `v`. */
  predicate Apart(s: seq<LeafHash>, v: LeafHash, b: nat) {
    forall j :: 0 <= j < |s| ==> Shr(s[j].index, b) != Shr(v.index, b)
  }

  lemma DistinctInsert(s: seq<LeafHash>, p: nat, v: LeafHash, b: nat)
    requires p <= |s|
    ensures Distinct(s[..p] + [v] + s[p..], b) <==> Distinct(s, b) && Apart(s, v, b)
  {
    var r := s[..p] + [v] + s[p..];
    assert r[p] == v;
    forall j | 0 <= j < |s| ensures r[if j < p then j else j + 1] == s[j] {}
    if Distinct(r, b) { DistinctWithout(s, p, v, r, b); }
    if Distinct(s, b) && Apart(s, v, b) { DistinctWith(s, p, v, r, b); }
  }

  lemma DistinctWithout(s: seq<LeafHash>, p: nat, v: LeafHash, r: seq<LeafHash>, b: nat)
    requires p <= |s| && |r| == |s| + 1 && r[p] == v && Distinct(r, b)
    requires forall j :: 0 <= j < |s| ==> r[if j < p then j else j + 1] == s[j]
    ensures Distinct(s, b) && Apart(s, v, b)
  {
    hide Shr;
    forall j, k | 0 <= j < k < |s| ensures Shr(s[j].index, b) != Shr(s[k].index, b) {
      assert Shr(r[if j < p then j else j + 1].index, b) != Shr(r[if k < p then k else k + 1].index, b);
    }
    forall j | 0 <= j < |s| ensures Shr(s[j].index, b) != Shr(v.index, b) {
      if j < p {
        assert Shr(r[j].index, b) != Shr(r[p].index, b);
      } else {
        assert Shr(r[p].index, b) != Shr(r[j + 1].index, b);
      }
    }
  }

  lemma DistinctWith(s: seq<LeafHash>, p: nat, v: LeafHash, r: seq<LeafHash>, b: nat)
    requires p <= |s| && |r| == |s| + 1 && r[p] == v && Distinct(s, b) && Apart(s, v, b)
    requires forall j :: 0 <= j < |s| ==> r[if j < p then j else j + 1] == s[j]
    ensures Distinct(r, b)
  {
    hide Shr;
    forall j, k | 0 <= j < k < |r| ensures Shr(r[j].index, b) != Shr(r[k].index, b) {
      assert j < p ==> r[j] == s[j];
      assert j > p ==> r[j] == s[j - 1];
      assert k < p ==> r[k] == s[k];
      assert k > p ==> r[k] == s[k - 1];
    }
  }

  lemma InsertSorted(s: seq<LeafHash>, v: LeafHash)
    requires SortedByIndex(s)
    ensures SortedByIndex(Insert(s, v))
  {
    SearchSorted(s, v.index);
  }

  lemma {:induction false} SortSorts(values: seq<LeafHash>)
    ensures SortedByIndex(Sort(values)) && |Sort(values)| == |values|
    ensures forall v :: v in Sort(values) <==> v in values
  {
    if values != [] {
      hide SortedByIndex, FirstAtLeast;
      var rest, v := values[..|values| - 1], values[|values| - 1];
      var s := Sort(rest);
      var p := FirstAtLeast(s, v.index);
      SortSorts(rest);
      InsertSorted(s, v);
      assert s == s[..p] + s[p..];
      assert values == rest + [v];
    }
  }

  /** Sorting keeps whether two values share a node. */
  lemma {:induction false} SortDistinct(values: seq<LeafHash>, b: nat)
    ensures Distinct(Sort(values), b) <==> Distinct(values, b)
  {
    hide Shr, Apart, Distinct, FirstAtLeast, SortedByIndex, Sort;
    if values == [] {
      NothingToSort();
    } else {
      var rest, v := values[..|values| - 1], values[|values| - 1];
      var s := Sort(rest);
      SortSorts(rest);
      SortDistinct(rest, b);
      AppendIsInsert(values);
      DistinctInsert(rest, |rest|, v, b);
      DistinctInsert(s, FirstAtLeast(s, v.index), v, b);
      ApartPermuted(rest, s, v, b);
    }
  }

  lemma NothingToSort()
    ensures Sort([]) == []
  {
  }

  lemma AppendIsInsert(values: seq<LeafHash>)
    requires values != []
    ensures
      var rest, v := values[..|values| - 1], values[|values| - 1];
      && values == rest[..|rest|] + [v] + rest[|rest|..]
      && Sort(values) == Insert(Sort(rest), v)
  {
    hide FirstAtLeast;
  }

  lemma ApartPermuted(a: seq<LeafHash>, s: seq<LeafHash>, v: LeafHash, b: nat)
    requires forall w :: w in a <==> w in s
    ensures Apart(a, v, b) <==> Apart(s, v, b)
  {
    assert forall j :: 0 <= j < |a| ==> a[j] in s;
    assert forall j :: 0 <= j < |s| ==> s[j] in a;
  }

  /** The same values in another order make the same map. */
  lemma ValueMapPermuted(a: seq<LeafHash>, s: seq<LeafHash>, b: nat)
    requires Distinct(a, b) && Distinct(s, b) && forall w :: w in a <==> w in s
    ensures ValueMap(a, b) == ValueMap(s, b)
  {
    hide ValueMap, Distinct;
    forall y: nat
      ensures y in ValueMap(a, b) ==> y in ValueMap(s, b) && ValueMap(s, b)[y] == ValueMap(a, b)[y]
      ensures y in ValueMap(s, b) ==> y in ValueMap(a, b)
    {
      ValueMapKeys(a, b, y);
      ValueMapKeys(s, b, y);
      if y in ValueMap(a, b) {
        var i :| 0 <= i < |a| && Shr(a[i].index, b) == y;
        assert a[i] in s;
        var j :| 0 <= j < |s| && s[j] == a[i];
      }
      if y in ValueMap(s, b) {
        var j :| 0 <= j < |s| && Shr(s[j].index, b) == y;
        assert s[j] in a;
        var i :| 0 <= i < |a| && a[i] == s[j];
      }
    }
    assert ValueMap(a, b).Keys == ValueMap(s, b).Keys;
  }

  /** `HStar2Nodes` for the subtree of `subtreeDepth` levels under the prefix `x` of `prefixBytes` bytes. */
  function HStar2Nodes(mh: MapHasher, store: map<Coord, Hash>, prefixBytes: nat, x: nat, subtreeDepth: nat,
                       values: seq<LeafHash>): Outcome {
    var depth := 8 * prefixBytes;
    var totalDepth := depth + subtreeDepth;
    if totalDepth > mh.bits then Outcome(Err(SubtreeOverrun), map[])
    else HStar2b(mh, store, Sort(values), Shl(x, mh.bits - depth), mh.bits - depth, mh.bits - totalDepth)
  }

  /** The values as nodes at height `b`. */
  function BaseNodes(vm: map<nat, Hash>, b: nat): map<Coord, Hash> {
    map y | y in vm :: Coord(b, y) := vm[y]
  }

  /** Storage once the values and the set nodes have been written. */
  function Written(store: map<Coord, Hash>, values: seq<LeafHash>, sets: map<Coord, Hash>, b: nat): map<Coord, Hash> {
    store + BaseNodes(ValueMap(values, b), b) + sets
  }

  /** The only error, once the subtree fits. */
  lemma {:induction false} OnlySharedIndex(mh: MapHasher, store: map<Coord, Hash>, values: seq<LeafHash>, offset: nat,
                                           t: nat, b: nat)
    requires b <= t
    ensures HStar2b(mh, store, values, offset, t, b).root.Err? ==>
              HStar2b(mh, store, values, offset, t, b).root == Err(SharedIndex)
    decreases t
  {
    hide Shr, Pow2, FirstAtLeast;
    if t > b && values != [] {
      var split := offset + Pow2(t - 1);
      var i := FirstAtLeast(values, split);
      OnlySharedIndex(mh, store, values[..i], offset, t - 1, b);
      OnlySharedIndex(mh, store, values[i..], split, t - 1, b);
    }
  }

  lemma NodesError(mh: MapHasher, store: map<Coord, Hash>, prefixBytes: nat, x: nat, depth: nat, values: seq<LeafHash>)
    ensures
      var out := HStar2Nodes(mh, store, prefixBytes, x, depth, values);
      out.root.Err? ==> out.root == Err(if 8 * prefixBytes + depth > mh.bits then SubtreeOverrun else SharedIndex)
  {
    hide HStar2b;
    if 8 * prefixBytes + depth <= mh.bits {
      var t := mh.bits - 8 * prefixBytes;
      OnlySharedIndex(mh, store, Sort(values), Shl(x, t), t, t - depth);
    }
  }

  ghost predicate AgreeUpTo(s1: map<Coord, Hash>, s2: map<Coord, Hash>, t: int) {
    forall c: Coord :: c.level <= t ==> (c in s1 <==> c in s2) && (c in s1 ==> s1[c] == s2[c])
  }

  /** Nodes above the subtree are not read. */
  lemma {:induction false} HStarFrame(mh: MapHasher, s1: map<Coord, Hash>, s2: map<Coord, Hash>,
                                      values: seq<LeafHash>, offset: nat, t: nat, b: nat)
    requires b <= t && AgreeUpTo(s1, s2, t)
    ensures HStar2b(mh, s1, values, offset, t, b) == HStar2b(mh, s2, values, offset, t, b)
    decreases t
  {
    hide Shr, Pow2, FirstAtLeast;
    if t > b && values != [] {
      var split := offset + Pow2(t - 1);
      var i := FirstAtLeast(values, split);
      HStarFrame(mh, s1, s2, values[..i], offset, t - 1, b);
      HStarFrame(mh, s1, s2, values[i..], split, t - 1, b);
    }
  }

  /** Nor is its root, if there is a value. */
  lemma RootNotRead(mh: MapHasher, s1: map<Coord, Hash>, s2: map<Coord, Hash>, prefixBytes: nat, x: nat, depth: nat,
                    values: seq<LeafHash>)
    requires depth > 0 && values != [] && AgreeUpTo(s1, s2, mh.bits - 8 * prefixBytes - 1)
    ensures HStar2Nodes(mh, s1, prefixBytes, x, depth, values) == HStar2Nodes(mh, s2, prefixBytes, x, depth, values)
  {
    hide Shr, Pow2, Shl, HStar2b, Join, Sort, FirstAtLeast;
    if 8 * prefixBytes + depth <= mh.bits {
      var t, b, sorted := mh.bits - 8 * prefixBytes, mh.bits - 8 * prefixBytes - depth, Sort(values);
      SortSorts(values);
      assert values[0] in sorted;
      var offset := Shl(x, t);
      var split := offset + Pow2(t - 1);
      var i := FirstAtLeast(sorted, split);
      HStarFrame(mh, s1, s2, sorted[..i], offset, t - 1, b);
      HStarFrame(mh, s1, s2, sorted[i..], split, t - 1, b);
      HStarUnfold(mh, s1, sorted, offset, split, t, b, i);
      HStarUnfold(mh, s2, sorted, offset, split, t, b, i);
    }
  }

  /** Incremental update: in place of the naive tree over the new map, only touched nodes are recomputed; the
      root is right, the nodes set bring storage up to date, and it fails exactly on a shared index. */
  lemma HStar2NodesCorrect(mh: MapHasher, store: map<Coord, Hash>, m: map<nat, Hash>, prefixBytes: nat, x: nat,
                           subtreeDepth: nat, values: seq<LeafHash>)
    requires 8 * prefixBytes + subtreeDepth <= mh.bits
    requires AllBelow(values, mh.bits - 8 * prefixBytes, x)
    requires StoreOk(mh, store, m, mh.bits - 8 * prefixBytes - subtreeDepth, mh.bits - 8 * prefixBytes, x)
    ensures
      var t, b := mh.bits - 8 * prefixBytes, mh.bits - 8 * prefixBytes - subtreeDepth;
      var out := HStar2Nodes(mh, store, prefixBytes, x, subtreeDepth, values);
      && (out.root.Err? <==> !Distinct(values, b))
      && (Distinct(values, b) ==>
            && out.root == Ok(Tree(mh, Updated(m, values, b), b, t, x))
            && StoreOk(mh, Written(store, values, out.sets, b), Updated(m, values, b), b, t, x)
            && forall c: Coord :: SetOk(mh, out.sets, Updated(m, values, b), values, t, x, b, c))
  {
    var t, b := mh.bits - 8 * prefixBytes, mh.bits - 8 * prefixBytes - subtreeDepth;
    var out := HStar2Nodes(mh, store, prefixBytes, x, subtreeDepth, values);
    hide HStar2b, StoreOk, Shr, Shl, Distinct, Sort, SortedByIndex, ValueMap, Written, SetOk;
    SortSorts(values);
    SortDistinct(values, b);
    AllBelowPermuted(values, Sort(values), t, x);
    FailsOnSharedIndex(mh, store, Sort(values), t, x, b);
    if Distinct(values, b) {
      ValueMapPermuted(values, Sort(values), b);
      HStarRoot(mh, store, m, Sort(values), t, x, b);
      forall c: Coord ensures SetOk(mh, out.sets, Updated(m, values, b), values, t, x, b, c) {
        HStarSets(mh, store, m, Sort(values), t, x, b, c);
        TouchedPermuted(mh, out.sets, Updated(m, values, b), values, Sort(values), t, x, b, c);
      }
      WrittenOk(mh, store, m, values, out.sets, t, x, b);
    }
  }

  /** `HStar2Root`: one pass over all values at any depth, with nothing stored before. */
  lemma OnePass(mh: MapHasher, depth: nat, values: seq<LeafHash>)
    requires depth <= mh.bits && AllBelow(values, mh.bits, 0)
    ensures
      var out, b := HStar2Nodes(mh, map[], 0, 0, depth, values), mh.bits - depth;
      && (out.root.Err? <==> !Distinct(values, b))
      && (Distinct(values, b) ==> out.root == Ok(Tree(mh, ValueMap(values, b), b, mh.bits, 0)))
      && (Distinct(values, b) && depth == mh.bits ==> out.root == Ok(MapRoot(mh, ValueMap(values, 0))))
  {
    hide HStar2Nodes, StoreOk, ValueMap, Distinct, AllBelow, Tree;
    var b := mh.bits - depth;
    NothingStored(mh, b, mh.bits, 0);
    HStar2NodesCorrect(mh, map[], map[], 0, 0, depth, values);
    assert Updated(map[], values, b) == ValueMap(values, b);
  }

  lemma AllBelowPermuted(values: seq<LeafHash>, s: seq<LeafHash>, t: nat, x: nat)
    requires AllBelow(values, t, x) && forall v :: v in s <==> v in values
    ensures AllBelow(s, t, x)
  {
    forall j | 0 <= j < |s| ensures Shr(s[j].index, t) == x { assert s[j] in values; }
  }

  lemma TouchedPermuted(mh: MapHasher, sets: map<Coord, Hash>, m': map<nat, Hash>, values: seq<LeafHash>,
                        s: seq<LeafHash>, t: nat, x: nat, b: nat, c: Coord)
    requires forall v :: v in s <==> v in values
    requires SetOk(mh, sets, m', s, t, x, b, c)
    ensures SetOk(mh, sets, m', values, t, x, b, c)
  {
    assert forall j :: 0 <= j < |s| ==> s[j] in values;
    assert forall j :: 0 <= j < |values| ==> values[j] in s;
  }

  /** The values by node: an entry is the hash of a value on that node. */
  lemma UpdatedEntry(mh: MapHasher, m: map<nat, Hash>, values: seq<LeafHash>, b: nat, c: Coord)
    requires b <= c.level && Distinct(values, b)
    ensures Touched(values, c) ==> !Vacant(Updated(m, values, b), b, c.level, c.index)
    ensures Touched(values, c) && c.level == b ==>
              c.index in ValueMap(values, b)
                  && Tree(mh, Updated(m, values, b), b, b, c.index) == ValueMap(values, b)[c.index]
    ensures !Touched(values, c) ==> SameBelow(m, Updated(m, values, b), b, c.level, c.index)
    ensures !Touched(values, c) && c.level == b ==> c.index !in ValueMap(values, b)
  {
    var m' := Updated(m, values, b);
    if Touched(values, c) {
      var i :| 0 <= i < |values| && Shr(values[i].index, c.level) == c.index;
      TouchedNotVacant(m, values, b, c.level, i);
      if c.level == b { ValueMapKeys(values, b, c.index); }
    } else {
      var n := c.level - b;
      forall y: nat | Shr(y, n) == c.index ensures y !in ValueMap(values, b) { UntouchedEntry(values, b, c, y); }
      if c.level == b { assert Shr(c.index, n) == c.index; }
    }
  }

  lemma UntouchedEntry(values: seq<LeafHash>, b: nat, c: Coord, y: nat)
    requires b <= c.level && !Touched(values, c) && Shr(y, c.level - b) == c.index
    ensures y !in ValueMap(values, b)
  {
    ValueMapKeys(values, b, y);
    if i :| 0 <= i < |values| && Shr(values[i].index, b) == y {
      ShrCompose(values[i].index, b, c.level - b);
      assert false;
    }
  }

  lemma WrittenOk(mh: MapHasher, store: map<Coord, Hash>, m: map<nat, Hash>, values: seq<LeafHash>,
                  sets: map<Coord, Hash>, t: nat, x: nat, b: nat)
    requires b <= t && Distinct(values, b) && StoreOk(mh, store, m, b, t, x)
    requires forall c: Coord :: SetOk(mh, sets, Updated(m, values, b), values, t, x, b, c)
    ensures StoreOk(mh, Written(store, values, sets, b), Updated(m, values, b), b, t, x)
  {
    hide Shr, Distinct, ValueMap, Vacant, Tree, Touched, Updated, Inside, SameBelow;
    var m', store' := Updated(m, values, b), Written(store, values, sets, b);
    forall c: Coord | b <= c.level && Inside(c, t, x) ensures NodeOk(mh, store', m', b, c) {
      assert NodeOk(mh, store, m, b, c) && SetOk(mh, sets, m', values, t, x, b, c);
      UpdatedEntry(mh, m, values, b, c);
      BaseNodesEntry(ValueMap(values, b), b, c);
      if !Touched(values, c) { TreeFrame(mh, m, m', b, c.level, c.index); }
    }
  }

  lemma BaseNodesEntry(vm: map<nat, Hash>, b: nat, c: Coord)
    ensures c in BaseNodes(vm, b) <==> c.level == b && c.index in vm
    ensures c in BaseNodes(vm, b) ==> BaseNodes(vm, b)[c] == vm[c.index]
  {
    if c.level == b && c.index in vm { assert Coord(b, c.index) == c; }
  }
}
