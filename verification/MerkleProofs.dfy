/**
  Inclusion and consistency proofs: what the verifiers compute, level by level, and
  the theorems that they accept exactly the honest proof of a true statement.
 */
module MerkleProofs {
  import opened Bytes
  import opened Hashing
  import opened MerkleLevels

  // ---- Inclusion -------------------------------------------------------------

  /** The apex an inclusion path leads to under a node function, or `None` for a path of the wrong length. */
  function ClimbPath<T>(node: (T, T) -> T, len: nat, index: nat, acc: T, path: seq<T>): Option<T>
    requires index < len
    decreases len
  {
    if len == 1 then
      if |path| == 0 then Some(acc) else None
    else if IsPromoted(len, index) then ClimbPath(node, (len + 1) / 2, index / 2, acc, path)
    else if |path| == 0 then None
    else
      var parent := if index % 2 == 0 then node(acc, path[0]) else node(path[0], acc);
      ClimbPath(node, (len + 1) / 2, index / 2, parent, path[1..])
  }

  /** The node over two symbolic digests. */
  function Pair(left: Hash, right: Hash): Hash {
    NodeHash(left, right)
  }

  predicate InclusionAccepts(root: Hash, index: u32, leafCount: u32, leaf: Hash, path: seq<Hash>) {
    && index < leafCount
    && var apex := ClimbPath(Pair, leafCount, index, leaf, path);
       apex.Some? && root == RootHash(leafCount, apex.value)
  }

  /** A path from `acc` reaches the apex of a level exactly when both are the level's own. */
  ghost predicate PathIsExact(level: seq<Hash>, index: nat, acc: Hash, path: seq<Hash>)
    requires index < |level|
  {
    ClimbPath(Pair, |level|, index, acc, path) == Some(Apex(level))
    <==> acc == level[index] && path == Path(level, index)
  }

  function Joined(index: nat, acc: Hash, step: seq<Hash>): Hash
    requires |step| <= 1
  {
    if step == [] then acc
    else if index % 2 == 0 then NodeHash(acc, step[0]) else NodeHash(step[0], acc)
  }

  lemma {:induction false} ClimbPathStep(level: seq<Hash>, index: nat, acc: Hash, step: seq<Hash>, tail: seq<Hash>)
    requires index < |level| && |level| > 1
    requires |step| == (if IsPromoted(|level|, index) then 0 else 1)
    requires PathIsExact(PairUp(level), index / 2, Joined(index, acc, step), tail)
    ensures PathIsExact(level, index, acc, step + tail)
  {
    hide PairUp, ClimbPath, Apex, Path;
    ParentAt(level, index);
    PathStep(level, index, step, tail);
    ApexOfPairUp(level);
    ClimbPathUnfolds(|level|, index, acc, step, tail);
  }

  lemma {:induction false} ClimbPathUnfolds(len: nat, index: nat, acc: Hash, step: seq<Hash>, tail: seq<Hash>)
    requires index < len && len > 1
    requires |step| == (if IsPromoted(len, index) then 0 else 1)
    ensures ClimbPath(Pair, len, index, acc, step + tail)
         == ClimbPath(Pair, (len + 1) / 2, index / 2, Joined(index, acc, step), tail)
  {
    if |step| == 0 { assert step + tail == tail; } else { assert (step + tail)[1..] == tail; }
  }

  lemma {:induction false} ClimbPathExact(level: seq<Hash>, index: nat, acc: Hash, path: seq<Hash>)
    requires index < |level|
    ensures PathIsExact(level, index, acc, path)
    decreases |level|
  {
    hide PairUp;
    if |level| > 1 {
      if IsPromoted(|level|, index) {
        ClimbPathExact(PairUp(level), index / 2, acc, path);
        ClimbPathStep(level, index, acc, [], path);
        assert [] + path == path;
      } else if path != [] {
        ClimbPathExact(PairUp(level), index / 2, Joined(index, acc, [path[0]]), path[1..]);
        ClimbPathStep(level, index, acc, [path[0]], path[1..]);
        assert [path[0]] + path[1..] == path;
      }
    }
  }

  lemma {:induction false} ParentAt(level: seq<Hash>, index: nat)
    requires index < |level|
    ensures PairUp(level)[index / 2] == ParentOf(level, index)
  {
    assert 2 * (index / 2) == index - index % 2;
  }

  /**
    Inclusion proofs are exact: against the root of `leaves` the verifier accepts only
    the true count, the true leaf at that index, and the one path the tree hands out.
   */
  lemma {:induction false} InclusionExact(leaves: seq<Hash>, index: u32, leafCount: u32, leaf: Hash, path: seq<Hash>)
    requires 0 < |leaves| <= U32_MAX
    ensures InclusionAccepts(RootOf(leaves), index, leafCount, leaf, path)
            <==> leafCount == |leaves| && index < leafCount
                 && leaf == leaves[index] && path == Path(leaves, index)
  {
    if leafCount == |leaves| && index < leafCount {
      ClimbPathExact(leaves, index, leaf, path);
    }
  }

  lemma {:induction false} SameCons<T>(x: T, xs: seq<T>, y: T, ys: seq<T>)
    ensures [x] + xs == [y] + ys <==> x == y && xs == ys
  {
    assert ([x] + xs)[1..] == xs && ([y] + ys)[1..] == ys;
  }

  // ---- Consistency -----------------------------------------------------------

  /**
    One level per step: `f` and `s` are the last nodes of the old and of the new tree on
    this level, `old` and `new` what the proof claims stands at position `f` in each.
   */
  function Climb<T>(node: (T, T) -> T, f: nat, s: nat, old_: T, new_: T, rest: seq<T>): Option<(T, T)>
    requires f <= s
    decreases s
  {
    if s == 0 then
      if |rest| == 0 then Some((old_, new_)) else None
    else if f % 2 == 0 && f == s then Climb(node, f / 2, s / 2, old_, new_, rest)
    else if |rest| == 0 then None
    else if f % 2 == 1 then
      Climb(node, f / 2, s / 2, node(rest[0], old_), node(rest[0], new_), rest[1..])
    else
      Climb(node, f / 2, s / 2, old_, node(new_, rest[0]), rest[1..])
  }

  /** The levels on which the old tree ends with a full pair need no proof node. */
  function ClimbStripped<T>(node: (T, T) -> T, f: nat, s: nat, first: T, rest: seq<T>): Option<(T, T)>
    requires f <= s
  {
    if f % 2 == 1 then ClimbStripped(node, f / 2, s / 2, first, rest) else Climb(node, f, s, first, first, rest)
  }

  predicate ConsistencyAccepts(oldCount: u32, oldRoot: Hash, newCount: u32, newRoot: Hash, proof: seq<Hash>) {
    && 0 < oldCount <= newCount
    && if oldCount == newCount then proof == [] && oldRoot == newRoot
       else
         && proof != []
         && var ends := ClimbStripped(Pair, oldCount - 1, newCount - 1, proof[0], proof[1..]);
            && ends.Some?
            && oldRoot == RootHash(oldCount, ends.value.0)
            && newRoot == RootHash(newCount, ends.value.1)
  }

  lemma {:induction false} ApexOfPairUp(level: seq<Hash>)
    requires |level| > 0
    ensures Apex(PairUp(level)) == Apex(level)
  {
    if |level| == 1 { PairUpSingle(level); }
  }

  /** Pairing an old level that shares all but its last node with the new one. */
  lemma {:induction false} PairUpShared(level: seq<Hash>, f: nat, x: Hash)
    requires f < |level|
    ensures PairUp(level[..f] + [x]) ==
            PairUp(level)[..f / 2] + [if f % 2 == 1 then NodeHash(level[f - 1], x) else x]
  {
    var mixed := level[..f] + [x];
    assert |PairUp(mixed)| == f / 2 + 1;
    forall i | 0 <= i < f / 2
      ensures PairUp(mixed)[i] == PairUp(level)[i]
    {
      assert !IsPromoted(|level|, 2 * i) && !IsPromoted(f + 1, 2 * i);
    }
  }

  /**
    Against a level of the new tree, the climb reaches the new apex exactly when it started
    from the level's own node with that node's own path; the old apex is then that of the
    same level cut off after `f`, with `old_` as its last node.
   */
  ghost predicate ClimbIsExact(level: seq<Hash>, f: nat, old_: Hash, new_: Hash, rest: seq<Hash>)
    requires f < |level|
  {
    var ends := Climb(Pair, f, |level| - 1, old_, new_, rest);
    if new_ == level[f] && rest == Path(level, f)
    then ends == Some((Apex(level[..f] + [old_]), Apex(level)))
    else ends.None? || ends.value.1 != Apex(level)
  }

  /** One step of the climb against one step of pairing. */
  lemma {:induction false} ClimbStep(level: seq<Hash>, f: nat, old_: Hash, new_: Hash, step: seq<Hash>, tail: seq<Hash>)
    requires f < |level| && |level| > 1
    requires |step| == (if IsPromoted(|level|, f) then 0 else 1)
    ensures var up := PairUp(level);
            var o := if f % 2 == 1 then NodeHash(step[0], old_) else old_;
            var w := if f % 2 == 1 then NodeHash(step[0], new_)
                     else if f + 1 < |level| then NodeHash(new_, step[0]) else new_;
            ClimbIsExact(up, f / 2, o, w, tail) ==> ClimbIsExact(level, f, old_, new_, step + tail)
  {
    hide PairUp, Climb, Apex, Path;
    var up := PairUp(level);
    var o := if f % 2 == 1 then NodeHash(step[0], old_) else old_;
    var w := if f % 2 == 1 then NodeHash(step[0], new_)
             else if f + 1 < |level| then NodeHash(new_, step[0]) else new_;
    ParentAt(level, f);
    PathStep(level, f, step, tail);
    ApexOfPairUp(level);
    if step == SiblingStep(level, f) {
      PairUpShared(level, f, old_);
      ApexOfPairUp(level[..f] + [old_]);
      assert Apex(up[..f / 2] + [o]) == Apex(level[..f] + [old_]);
    }
    ClimbUnfolds(f, |level| - 1, old_, new_, step, tail);
  }

  lemma {:induction false} PathStep(level: seq<Hash>, f: nat, step: seq<Hash>, tail: seq<Hash>)
    requires f < |level| && |level| > 1 && |step| == |SiblingStep(level, f)|
    ensures step + tail == Path(level, f)
            <==> step == SiblingStep(level, f) && tail == Path(PairUp(level), f / 2)
  {
    hide PairUp;
    var p := Path(PairUp(level), f / 2);
    if step + tail == SiblingStep(level, f) + p {
      assert (step + tail)[..|step|] == step && (step + tail)[|step|..] == tail;
    }
  }

  lemma {:induction false} ClimbUnfolds(f: nat, s: nat, old_: Hash, new_: Hash, step: seq<Hash>, tail: seq<Hash>)
    requires f <= s && s > 0 && |step| == (if f % 2 == 0 && f == s then 0 else 1)
    ensures Climb(Pair, f, s, old_, new_, step + tail) ==
            if f % 2 == 1 then Climb(Pair, f / 2, s / 2, NodeHash(step[0], old_), NodeHash(step[0], new_), tail)
            else if f < s then Climb(Pair, f / 2, s / 2, old_, NodeHash(new_, step[0]), tail)
            else Climb(Pair, f / 2, s / 2, old_, new_, tail)
  {
    if |step| == 0 { assert step + tail == tail; } else { assert (step + tail)[1..] == tail; }
  }

  /** At the top the climb is over. */
  lemma {:induction false} ClimbTop(level: seq<Hash>, f: nat, old_: Hash, new_: Hash, rest: seq<Hash>)
    requires f < |level| == 1
    ensures ClimbIsExact(level, f, old_, new_, rest)
  {
    assert level[..0] + [old_] == [old_];
  }

  /** Below the top a node with a sibling needs a proof node. */
  lemma {:induction false} ClimbStuck(level: seq<Hash>, f: nat, old_: Hash, new_: Hash)
    requires f < |level| && |level| > 1 && !IsPromoted(|level|, f)
    ensures ClimbIsExact(level, f, old_, new_, [])
  {
    hide PairUp, Apex;
  }

  lemma {:induction false} ClimbExact(level: seq<Hash>, f: nat, old_: Hash, new_: Hash, rest: seq<Hash>)
    requires f < |level|
    ensures ClimbIsExact(level, f, old_, new_, rest)
    decreases |level|
  {
    hide PairUp, ClimbIsExact;
    if |level| == 1 {
      ClimbTop(level, f, old_, new_, rest);
    } else if IsPromoted(|level|, f) {
      ClimbExact(PairUp(level), f / 2, old_, new_, rest);
      ClimbStep(level, f, old_, new_, [], rest);
      assert [] + rest == rest;
    } else if rest == [] {
      ClimbStuck(level, f, old_, new_);
    } else {
      var c, tail, up := rest[0], rest[1..], PairUp(level);
      assert [c] + tail == rest;
      if f % 2 == 1 {
        ClimbExact(up, f / 2, NodeHash(c, old_), NodeHash(c, new_), tail);
      } else {
        ClimbExact(up, f / 2, old_, NodeHash(new_, c), tail);
      }
      ClimbStep(level, f, old_, new_, [c], tail);
    }
  }

  lemma {:induction false} PairUpInjective(a: seq<Hash>, b: seq<Hash>)
    requires |a| == |b| && PairUp(a) == PairUp(b)
    ensures a == b
  {
    forall i | 0 <= i < |a|
      ensures a[i] == b[i]
    {
      ParentAt(a, i);
      ParentAt(b, i);
    }
  }

  /** Two leaf lists of one size with one apex are the same list. */
  lemma {:induction false} ApexInjective(a: seq<Hash>, b: seq<Hash>)
    requires |a| == |b| > 0 && Apex(a) == Apex(b)
    ensures a == b
    decreases |a|
  {
    if |a| > 1 {
      ApexInjective(PairUp(a), PairUp(b));
      PairUpInjective(a, b);
    }
  }

  /** The consistency path read bottom-up: one shared node, then its inclusion path. */
  function StrippedPath(m: nat, leaves: seq<Hash>): seq<Hash>
    requires 0 < m < |leaves|
  {
    if m % 2 == 0 then StrippedPath(m / 2, PairUp(leaves))
    else [leaves[m - 1]] + Path(leaves, m - 1)
  }

  lemma {:induction false} ClimbStrippedExact(a: seq<Hash>, b: seq<Hash>, first: Hash, rest: seq<Hash>)
    requires 0 < |a| < |b|
    ensures ClimbStripped(Pair, |a| - 1, |b| - 1, first, rest) == Some((Apex(a), Apex(b)))
            <==> a == b[..|a|] && [first] + rest == StrippedPath(|a|, b)
    decreases |a|
  {
    hide PairUp, Climb, Path, Apex;
    var f := |a| - 1;
    if f % 2 == 1 {
      ClimbStrippedExact(PairUp(a), PairUp(b), first, rest);
      ApexOfPairUp(a);
      ApexOfPairUp(b);
      PairUpSplits(b, |a|);
      if PairUp(a) == PairUp(b[..|a|]) { PairUpInjective(a, b[..|a|]); }
    } else {
      ClimbExact(b, f, first, first, rest);
      assert b[..f] + [b[f]] == b[..|a|];
      SameCons(first, rest, b[f], Path(b, f));
      if Apex(a) == Apex(b[..|a|]) { ApexInjective(a, b[..|a|]); }
    }
  }

  // ---- The recursive proof builder makes the same path -----------------------

  lemma {:induction false} SubproofUnfolds(m: nat, leaves: seq<Hash>, complete: bool)
    requires 0 < m <= |leaves|
    ensures m == |leaves| ==> Subproof(m, leaves, complete) == if complete then [] else [Mth(leaves)]
    ensures m < |leaves| ==>
              var k := SplitPoint(|leaves|);
              Subproof(m, leaves, complete) ==
              if m <= k then Subproof(m, leaves[..k], complete) + [Mth(leaves[k..])]
              else Subproof(m - k, leaves[k..], false) + [Mth(leaves[..k])]
  {
  }

  /** An even old size: the subproof is the one of the level above. */
  lemma {:induction false} SubproofOfPairUp(m: nat, leaves: seq<Hash>, complete: bool)
    requires 0 < m <= |leaves| && m % 2 == 0
    ensures Subproof(m, leaves, complete) == Subproof(m / 2, PairUp(leaves), complete)
    decreases |leaves|
  {
    hide PairUp, Mth, SplitPoint, Subproof;
    var up := PairUp(leaves);
    SubproofUnfolds(m, leaves, complete);
    SubproofUnfolds(m / 2, up, complete);
    if m == |leaves| {
      MthOfPairUp(leaves);
    } else {
      var k := SplitPoint(|leaves|);
      SplitOfPairUp(leaves);
      if m <= k {
        SubproofOfPairUp(m, leaves[..k], complete);
      } else {
        assert (m - k) / 2 == m / 2 - k / 2;
        SubproofOfPairUp(m - k, leaves[k..], false);
      }
    }
  }

  /** What the odd subproof starts with: the last old leaf, unless the verifier has it. */
  function OddHead(m: nat, leaves: seq<Hash>, complete: bool): seq<Hash>
    requires 0 < m <= |leaves|
  {
    if complete && m == 1 then [] else [leaves[m - 1]]
  }

  /** An odd old size: the last old leaf, then its audit path. */
  lemma {:induction false} SubproofOfOdd(m: nat, leaves: seq<Hash>, complete: bool)
    requires 0 < m <= |leaves| && m % 2 == 1
    requires m < |leaves| || |leaves| == 1
    ensures Subproof(m, leaves, complete) == OddHead(m, leaves, complete) + AuditPath(leaves, m - 1)
    decreases |leaves|
  {
    hide SplitPoint, Mth;
    if |leaves| == 1 {
      MthOfOne(leaves);
    } else {
      var k := SplitPoint(|leaves|);
      if |leaves| > 2 { SplitHalves(|leaves|); }
      if m <= k {
        SubproofOfOdd(m, leaves[..k], complete);
        Regroup(OddHead(m, leaves, complete), AuditPath(leaves[..k], m - 1), [Mth(leaves[k..])]);
      } else {
        assert k % 2 == 0;
        SubproofOfOdd(m - k, leaves[k..], false);
        Regroup(OddHead(m, leaves, complete), AuditPath(leaves[k..], m - k - 1), [Mth(leaves[..k])]);
      }
    }
  }

  lemma {:induction false} MthOfOne(leaves: seq<Hash>)
    requires |leaves| == 1
    ensures Mth(leaves) == leaves[0]
  {
  }

  lemma {:induction false} ConsistencyPathOfOdd(m: nat, leaves: seq<Hash>)
    requires 0 < m < |leaves| && m % 2 == 1
    ensures ConsistencyPath(m, leaves) == [leaves[m - 1]] + Path(leaves, m - 1)
  {
    hide Mth, SplitPoint, AuditPath, Path, Subproof;
    SubproofOfOdd(m, leaves, true);
    PathIsAuditPath(leaves, m - 1);
    if m == 1 { MthOfOne(leaves[..1]); }
  }

  lemma {:induction false} ConsistencyPathOfEven(m: nat, leaves: seq<Hash>)
    requires 0 < m < |leaves| && m % 2 == 0
    ensures ConsistencyPath(m, leaves) == ConsistencyPath(m / 2, PairUp(leaves))
  {
    hide PairUp, Mth, SplitPoint, Subproof;
    SubproofOfPairUp(m, leaves, true);
    PairUpSplits(leaves, m);
    MthOfPairUp(leaves[..m]);
  }

  /** The path of `consistency` is the bottom-up one, for every old size. */
  lemma {:induction false} ConsistencyPathIsStripped(m: nat, leaves: seq<Hash>)
    requires 0 < m < |leaves|
    ensures ConsistencyPath(m, leaves) == StrippedPath(m, leaves)
    decreases m
  {
    hide PairUp, ConsistencyPath, Path;
    if m % 2 == 0 {
      ConsistencyPathIsStripped(m / 2, PairUp(leaves));
      ConsistencyPathOfEven(m, leaves);
    } else {
      ConsistencyPathOfOdd(m, leaves);
    }
  }

  /**
    Consistency proofs are exact. Between different sizes the verifier accepts only the true
    counts, an old list that is a prefix of the new one, and the very path `consistency` builds.
    Between equal sizes it compares the roots alone and does not look at the stated count.
   */
  lemma {:induction false} ConsistencyExact(a: seq<Hash>, b: seq<Hash>, oldCount: u32, newCount: u32, proof: seq<Hash>)
    requires 0 < |a| <= U32_MAX && 0 < |b| <= U32_MAX
    ensures ConsistencyAccepts(oldCount, RootOf(a), newCount, RootOf(b), proof)
            <==> if oldCount == newCount then 0 < oldCount && a == b && proof == []
                 else 0 < oldCount < newCount && oldCount == |a| && newCount == |b|
                      && a == b[..|a|] && proof == ConsistencyPath(|a|, b)
  {
    if 0 < oldCount == newCount {
      if RootOf(a) == RootOf(b) { ApexInjective(a, b); }
    } else if 0 < oldCount < newCount && oldCount == |a| && newCount == |b| {
      ConsistencyPathIsStripped(|a|, b);
      if proof != [] {
        ClimbStrippedExact(a, b, proof[0], proof[1..]);
        assert proof == [proof[0]] + proof[1..];
      }
    }
  }

  /** Equal counts are not compared with anything: a tree of one leaf passes as one of seven. */
  lemma {:induction false} EqualCountsAreNotBound(leaf: Hash)
    ensures ConsistencyAccepts(7, RootOf([leaf]), 7, RootOf([leaf]), [])
  {
    ConsistencyExact([leaf], [leaf], 7, 7, []);
  }

  /** Soundness and uniqueness for whoever holds two roots of lists of the stated sizes. */
  lemma {:induction false} ConsistencyDecides(oldCount: u32, oldRoot: Hash, newCount: u32, newRoot: Hash, proof: seq<Hash>)
    ensures forall a: seq<Hash>, b: seq<Hash> ::
              0 < |a| == oldCount && 0 < |b| == newCount && oldRoot == RootOf(a) && newRoot == RootOf(b) ==>
                (ConsistencyAccepts(oldCount, oldRoot, newCount, newRoot, proof)
                 <==> |a| <= |b| && a == b[..|a|] && proof == ConsistencyPath(|a|, b))
  {
    forall a: seq<Hash>, b: seq<Hash>
      | 0 < |a| == oldCount && 0 < |b| == newCount && oldRoot == RootOf(a) && newRoot == RootOf(b)
      ensures ConsistencyAccepts(oldCount, oldRoot, newCount, newRoot, proof)
              <==> |a| <= |b| && a == b[..|a|] && proof == ConsistencyPath(|a|, b)
    {
      ConsistencyExact(a, b, oldCount, newCount, proof);
      if |a| == |b| { assert b[..|a|] == b; }
    }
  }

  /** Completeness: every prefix, powers of two and the whole list included, is provable. */
  lemma {:induction false} PrefixIsConsistent(leaves: seq<Hash>, m: nat)
    requires 0 < m <= |leaves| <= U32_MAX
    ensures ConsistencyAccepts(m, RootOf(leaves[..m]), |leaves|, RootOf(leaves), ConsistencyPath(m, leaves))
  {
    ConsistencyExact(leaves[..m], leaves, m, |leaves|, ConsistencyPath(m, leaves));
    if m == |leaves| { assert leaves[..m] == leaves; }
  }
}
