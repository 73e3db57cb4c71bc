/**
  The integrity tree itself: construction, the O(log n) leaf update, and the four proof
  operations, written as the loops the program runs and proved against `MerkleLevels`
  and `MerkleProofs`.
 */
module MerkleTrees {
  import opened Bytes
  import opened Hashing
  import opened MerkleLevels
  import opened MerkleProofs

  // ---- Facts about the list of levels ----------------------------------------

  /** Each level is the pairing of the one below; the last has a single node. */
  lemma {:induction false} LevelAbove(leaves: seq<Hash>, d: nat)
    requires |leaves| > 0 && d < |Levels(leaves)|
    ensures |Levels(leaves)[d]| > 0
    ensures |Levels(leaves)[d]| == 1 <==> d + 1 == |Levels(leaves)|
    ensures d + 1 < |Levels(leaves)| ==> Levels(leaves)[d + 1] == PairUp(Levels(leaves)[d])
    ensures Levels(leaves)[d..] == Levels(Levels(leaves)[d])
    decreases |leaves|
  {
    if |leaves| > 1 && d > 0 { LevelAbove(PairUp(leaves), d - 1); }
  }

  lemma {:induction false} TopLevelIsApex(leaves: seq<Hash>)
    requires |leaves| > 0
    ensures var levels := Levels(leaves); levels[|levels| - 1] == [Apex(leaves)]
    decreases |leaves|
  {
    if |leaves| > 1 { TopLevelIsApex(PairUp(leaves)); }
  }

  lemma {:induction false} SameSizeSameShape(a: seq<Hash>, b: seq<Hash>)
    requires |a| == |b| > 0
    ensures |Levels(a)| == |Levels(b)|
    ensures forall d :: 0 <= d < |Levels(a)| ==> |Levels(a)[d]| == |Levels(b)[d]|
    decreases |a|
  {
    if |a| > 1 { SameSizeSameShape(PairUp(a), PairUp(b)); }
  }

  /** Replacing one node changes exactly its parent on the level above. */
  lemma {:induction false} PairUpUpdate(level: seq<Hash>, i: nat, x: Hash)
    requires i < |level|
    ensures PairUp(level[i := x]) == PairUp(level)[i / 2 := ParentOf(level[i := x], i)]
  {
    var new_ := level[i := x];
    ParentAt(new_, i);
    forall j | 0 <= j < |PairUp(level)| && j != i / 2
      ensures PairUp(new_)[j] == PairUp(level)[j]
    {
      assert 2 * j != i && 2 * j + 1 != i;
    }
  }

  lemma {:induction false} PathUnfolds(level: seq<Hash>, index: nat)
    requires index < |level|
    ensures |level| == 1 ==> Path(level, index) == []
    ensures |level| > 1 ==> Path(level, index) == SiblingStep(level, index) + Path(PairUp(level), index / 2)
  {
  }

  // ---- Loops without state ----------------------------------------------------

  /** `split_point`. */
  method FindSplit(n: nat) returns (k: nat)
    requires n >= 2
    ensures k == SplitPoint(n)
  {
    k := 1;
    while k * 2 < n
      invariant IsPowerOfTwo(k) && k < n
    {
      k := k * 2;
    }
    SplitIsPower(n);
    PowerBelowIsUnique(k, SplitPoint(n), n);
  }

  /** One round of `build`: pair the nodes of a level, two at a time. */
  method PairLevel(current: seq<Hash>) returns (next: seq<Hash>)
    ensures next == PairUp(current)
  {
    next := [];
    var i := 0;
    while i < |current|
      invariant i % 2 == 0 || i == |current|
      invariant i <= |current| && |next| == (i + 1) / 2
      invariant next == PairUp(current)[..|next|]
    {
      if i + 1 < |current| {
        next := next + [NodeHash(current[i], current[i + 1])];
        i := i + 2;
      } else {
        next := next + [current[i]];
        i := i + 1;
      }
    }
  }

  method BuildLevels(leaves: seq<Hash>) returns (r: Result<seq<seq<Hash>>, CryptoError>)
    ensures r == if 0 < |leaves| <= U32_MAX then Ok(Levels(leaves)) else Err(BadLength)
  {
    if |leaves| == 0 || |leaves| > U32_MAX {
      return Err(BadLength);
    }
    var current := leaves;
    var levels: seq<seq<Hash>> := [];
    while |current| > 1
      invariant |current| > 0
      invariant levels + Levels(current) == Levels(leaves)
      decreases |current|
    {
      var next := PairLevel(current);
      assert levels + Levels(current) == levels + [current] + Levels(next);
      levels := levels + [current];
      current := next;
    }
    return Ok(levels + [current]);
  }

  /** `subproof`: appends to the path already collected. */
  method AppendSubproof(m: nat, leaves: seq<Hash>, complete: bool, out: seq<Hash>) returns (path: seq<Hash>)
    requires 0 < m <= |leaves|
    ensures path == out + Subproof(m, leaves, complete)
    decreases |leaves|
  {
    if m == |leaves| {
      return if complete then out else out + [Mth(leaves)];
    }
    var k := FindSplit(|leaves|);
    if m <= k {
      path := AppendSubproof(m, leaves[..k], complete, out);
      path := path + [Mth(leaves[k..])];
    } else {
      path := AppendSubproof(m - k, leaves[k..], false, out);
      path := path + [Mth(leaves[..k])];
    }
  }

  /** The loop of `proof` over the stored levels. */
  method CollectPath(levels: seq<seq<Hash>>, index: nat) returns (path: seq<Hash>)
    requires |levels| > 0 && levels == Levels(levels[0]) && index < |levels[0]|
    ensures path == Path(levels[0], index)
  {
    hide PairUp, Levels, Path;
    path := [];
    var position: nat, d := index, 0;
    while |levels[d]| > 1
      invariant d < |levels| && position < |levels[d]|
      invariant path + Path(levels[d], position) == Path(levels[0], index)
      decreases |levels| - d
    {
      LevelAbove(levels[0], d);
      PathUnfolds(levels[d], position);
      Regroup(path, SiblingStep(levels[d], position), Path(levels[d + 1], position / 2));
      if !IsPromoted(|levels[d]|, position) {
        path := path + [levels[d][SiblingOf(position)]];
      } else {
        assert path + [] == path;
      }
      position := position / 2;
      d := d + 1;
    }
    PathUnfolds(levels[d], position);
    assert path + [] == path;
  }

  /** The loop of `verify_proof`: the apex a path leads to. */
  method FollowPath<T>(node: (T, T) -> T, leafCount: nat, index: nat, leaf: T, proof: seq<T>) returns (apex: Option<T>)
    requires index < leafCount
    ensures apex == ClimbPath(node, leafCount, index, leaf, proof)
  {
    var len: nat, position: nat := leafCount, index;
    var accumulator, used := leaf, 0;
    while len > 1
      invariant position < len && used <= |proof|
      invariant ClimbPath(node, len, position, accumulator, proof[used..]) == ClimbPath(node, leafCount, index, leaf, proof)
      decreases len
    {
      if !IsPromoted(len, position) {
        if used >= |proof| {
          return None;
        }
        var sibling := proof[used];
        assert proof[used..][1..] == proof[used + 1..];
        used := used + 1;
        accumulator := if position % 2 == 0 then node(accumulator, sibling) else node(sibling, accumulator);
      }
      position := position / 2;
      len := (len + 1) / 2;
    }
    return if used == |proof| then Some(accumulator) else None;
  }

  /** Verify an inclusion path without the tree. */
  method VerifyProof(root: Hash, index: u32, leafCount: u32, leaf: Hash, proof: seq<Hash>) returns (ok: bool)
    ensures ok == InclusionAccepts(root, index, leafCount, leaf, proof)
    ensures forall leaves: seq<Hash> :: 0 < |leaves| <= U32_MAX && root == RootOf(leaves) ==>
              (ok <==> leafCount == |leaves| && index < leafCount
                       && leaf == leaves[index] && proof == Path(leaves, index))
  {
    hide ClimbPath, Path, RootOf;
    forall leaves: seq<Hash> | 0 < |leaves| <= U32_MAX && root == RootOf(leaves) {
      InclusionExact(leaves, index, leafCount, leaf, proof);
    }
    if leafCount == 0 || index >= leafCount {
      return false;
    }
    var apex := FollowPath(Pair, leafCount, index, leaf, proof);
    return apex.Some? && RootHash(leafCount, apex.value) == root;
  }

  /** Against an exhausted path the climb succeeds only at the top. */
  lemma {:induction false} ClimbNeedsNodes<T>(node: (T, T) -> T, f: nat, s: nat, old_: T, new_: T)
    requires f <= s
    ensures Climb(node, f, s, old_, new_, []) == if s == 0 then Some((old_, new_)) else None
    decreases s
  {
    if s > 0 && f % 2 == 0 && f == s { ClimbNeedsNodes(node, f / 2, s / 2, old_, new_); }
  }

  /** The loops over the proof nodes: levels without one first, then node by node. */
  method FollowBoth<T>(node: (T, T) -> T, f0: nat, s0: nat, first: T, rest: seq<T>) returns (ends: Option<(T, T)>)
    requires f0 <= s0
    ensures ends == ClimbStripped(node, f0, s0, first, rest)
  {
    hide Climb;
    var f, s := f0, s0;
    while f % 2 == 1
      invariant f <= s
      invariant ClimbStripped(node, f, s, first, rest) == ClimbStripped(node, f0, s0, first, rest)
      decreases f
    {
      f, s := f / 2, s / 2;
    }
    ends := ClimbRest(node, f, s, first, rest);
  }

  method ClimbRest<T>(node: (T, T) -> T, f0: nat, s0: nat, first: T, rest: seq<T>) returns (ends: Option<(T, T)>)
    requires f0 <= s0
    ensures ends == Climb(node, f0, s0, first, first, rest)
  {
    var f, s, oldAcc, newAcc, i := f0, s0, first, first, 0;
    while i < |rest|
      invariant 0 <= i <= |rest| && f <= s
      invariant Climb(node, f, s, oldAcc, newAcc, rest[i..]) == Climb(node, f0, s0, first, first, rest)
    {
      if s == 0 {
        return None;
      }
      var sibling := rest[i];
      assert rest[i..][1..] == rest[i + 1..];
      if f % 2 == 1 || f == s {
        // A left sibling, shared by both trees.
        ghost var o, w := oldAcc, newAcc;
        oldAcc := node(sibling, oldAcc);
        newAcc := node(sibling, newAcc);
        while f % 2 == 0 && f != 0
          invariant 0 < f <= s && (f % 2 == 1 || f == s)
          invariant Climb(node, f, s, o, w, rest[i..]) == Climb(node, f0, s0, first, first, rest)
          decreases f
        {
          f, s := f / 2, s / 2;
        }
      } else {
        // A right sibling the old tree did not have yet.
        newAcc := node(newAcc, sibling);
      }
      f, s := f / 2, s / 2;
      i := i + 1;
    }
    ClimbNeedsNodes(node, f, s, oldAcc, newAcc);
    assert rest[i..] == [];
    return if s == 0 then Some((oldAcc, newAcc)) else None;
  }

  /** Verify that one root extends another, without either tree. */
  method VerifyConsistency(oldCount: u32, oldRoot: Hash, newCount: u32, newRoot: Hash, proof: seq<Hash>)
    returns (ok: bool)
    ensures ok == ConsistencyAccepts(oldCount, oldRoot, newCount, newRoot, proof)
    ensures forall a: seq<Hash>, b: seq<Hash> ::
              0 < |a| == oldCount && 0 < |b| == newCount && oldRoot == RootOf(a) && newRoot == RootOf(b) ==>
                (ok <==> |a| <= |b| && a == b[..|a|] && proof == ConsistencyPath(|a|, b))
  {
    hide Climb, ConsistencyPath;
    ConsistencyDecides(oldCount, oldRoot, newCount, newRoot, proof);
    if oldCount == 0 || oldCount > newCount {
      return false;
    }
    if oldCount == newCount {
      return proof == [] && oldRoot == newRoot;
    }
    if |proof| == 0 {
      return false;
    }
    var ends := FollowBoth(Pair, oldCount - 1, newCount - 1, proof[0], proof[1..]);
    return ends.Some? && RootHash(oldCount, ends.value.0) == oldRoot
                      && RootHash(newCount, ends.value.1) == newRoot;
  }

  // ---- The tree ----------------------------------------------------------------

  class MerkleTree {
    var levels: seq<seq<Hash>>

    /** The stored levels are what building from the stored leaves would give. */
    ghost predicate Valid()
      reads this
    {
      |levels| > 0 && 0 < |levels[0]| <= U32_MAX && levels == Levels(levels[0])
    }

    ghost function Leaves(): seq<Hash>
      reads this
      requires Valid()
    {
      levels[0]
    }

    constructor FromLevels(levels: seq<seq<Hash>>)
      ensures this.levels == levels
    {
      this.levels := levels;
    }

    static method Build(leaves: seq<Hash>) returns (r: Result<MerkleTree, CryptoError>)
      ensures r.Ok? <==> 0 < |leaves| <= U32_MAX
      ensures r.Err? ==> r.error == BadLength
      ensures r.Ok? ==> fresh(r.value) && r.value.Valid() && r.value.Leaves() == leaves
    {
      var built := BuildLevels(leaves);
      if built.Err? {
        return Err(built.error);
      }
      var tree := new MerkleTree.FromLevels(built.value);
      return Ok(tree);
    }

    method Root() returns (root: Hash)
      requires Valid()
      ensures root == RootOf(Leaves())
    {
      TopLevelIsApex(levels[0]);
      root := RootHash(|levels[0]|, levels[|levels| - 1][0]);
    }

    /**
      Replace one leaf, recomputing one node per level. Every level, not only the root,
      ends up as a rebuild would leave it; a refused call changes nothing.
     */
    method UpdateLeaf(index: u32, leaf: Hash) returns (r: Result<Hash, CryptoError>)
      requires Valid()
      modifies this
      ensures Valid()
      ensures index < |old(Leaves())| ==>
                && Leaves() == old(Leaves())[index := leaf]
                && levels == Levels(old(Leaves())[index := leaf])
                && r == Ok(RootOf(Leaves()))
      ensures index >= |old(Leaves())| ==> r == Err(IndexOutOfRange) && levels == old(levels)
    {
      if index >= |levels[0]| {
        return Err(IndexOutOfRange);
      }
      ghost var before, after := levels, Levels(levels[0][index := leaf]);
      SameSizeSameShape(levels[0], levels[0][index := leaf]);
      var position: nat, depth := index, 0;
      levels := levels[0 := levels[0][position := leaf]];
      while |levels[depth]| > 1
        invariant depth < |levels| == |before| == |after|
        invariant position < |before[depth]| && after[depth] == before[depth][position := after[depth][position]]
        invariant forall d :: 0 <= d <= depth ==> levels[d] == after[d]
        invariant forall d :: depth < d < |levels| ==> levels[d] == before[d]
        decreases |levels| - depth
      {
        LevelAbove(before[0], depth);
        LevelAbove(after[0], depth);
        PairUpUpdate(before[depth], position, after[depth][position]);
        var level := levels[depth];
        var parent := ParentOf(level, position);
        levels := levels[depth + 1 := levels[depth + 1][position / 2 := parent]];
        position := position / 2;
        depth := depth + 1;
      }
      LevelAbove(after[0], depth);
      assert levels == after;
      var root := Root();
      return Ok(root);
    }

    /** The proof path of a leaf. */
    method Proof(index: u32) returns (r: Result<seq<Hash>, CryptoError>)
      requires Valid()
      ensures r == if index < |Leaves()| then Ok(Path(Leaves(), index)) else Err(IndexOutOfRange)
    {
      if index >= |levels[0]| {
        return Err(IndexOutOfRange);
      }
      var path := CollectPath(levels, index);
      return Ok(path);
    }

    /** Prove that the first `oldCount` leaves are a prefix of this tree. */
    method Consistency(oldCount: u32) returns (r: Result<seq<Hash>, CryptoError>)
      requires Valid()
      ensures r == if 0 < oldCount <= |Leaves()| then Ok(ConsistencyPath(oldCount, Leaves())) else Err(IndexOutOfRange)
    {
      var leaves := levels[0];
      if oldCount == 0 || oldCount > |leaves| {
        return Err(IndexOutOfRange);
      }
      if oldCount == |leaves| {
        return Ok([]);
      }
      var path := [];
      if IsPowerOfTwo(oldCount) {
        path := path + [Mth(leaves[..oldCount])];
      }
      path := AppendSubproof(oldCount, leaves, true, path);
      assert path == ConsistencyPath(oldCount, leaves);
      return Ok(path);
    }
  }
}
