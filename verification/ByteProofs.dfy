/**
  The proof verifiers over 32-byte digests and an arbitrary hash function. True statements are
  accepted; an accepted proof of a false one hands over two different hashed inputs with one hash.
 */
module ByteProofs {
  import opened Bytes
  import opened Hashing
  import opened MerkleLevels
  import opened MerkleProofs
  import opened MerkleTrees
  import opened TreeDigests

  // ---- The verifiers on bytes -------------------------------------------------------------------

  /** `node_of` under a hash function. */
  function NodeOver(hash: bytes -> digest): (digest, digest) -> digest {
    (left: digest, right: digest) => hash(NodeInput(left, right))
  }

  function RootDigest(hash: bytes -> digest, count: u32, apex: digest): digest {
    hash(RootInput(count, apex))
  }

  predicate AcceptsInclusion(hash: bytes -> digest, root: digest, index: u32, leafCount: u32, leaf: digest, path: seq<digest>) {
    && index < leafCount
    && var apex := ClimbPath(NodeOver(hash), leafCount, index, leaf, path);
       apex.Some? && root == RootDigest(hash, leafCount, apex.value)
  }

  predicate AcceptsConsistency(hash: bytes -> digest, oldCount: u32, oldRoot: digest, newCount: u32, newRoot: digest, proof: seq<digest>) {
    && 0 < oldCount <= newCount
    && if oldCount == newCount then proof == [] && oldRoot == newRoot
       else
         && proof != []
         && var ends := ClimbStripped(NodeOver(hash), oldCount - 1, newCount - 1, proof[0], proof[1..]);
            && ends.Some?
            && oldRoot == RootDigest(hash, oldCount, ends.value.0)
            && newRoot == RootDigest(hash, newCount, ends.value.1)
  }

  /** `verify_proof`. */
  method VerifyInclusion(hash: bytes -> digest, root: digest, index: u32, leafCount: u32, leaf: digest, proof: seq<digest>) returns (ok: bool)
    ensures ok == AcceptsInclusion(hash, root, index, leafCount, leaf, proof)
  {
    hide ClimbPath;
    if leafCount == 0 || index >= leafCount {
      return false;
    }
    var apex := FollowPath(NodeOver(hash), leafCount, index, leaf, proof);
    return apex.Some? && RootDigest(hash, leafCount, apex.value) == root;
  }

  /** `verify_consistency`. */
  method VerifyExtension(hash: bytes -> digest, oldCount: u32, oldRoot: digest, newCount: u32, newRoot: digest, proof: seq<digest>) returns (ok: bool)
    ensures ok == AcceptsConsistency(hash, oldCount, oldRoot, newCount, newRoot, proof)
  {
    hide ClimbStripped;
    if oldCount == 0 || oldCount > newCount {
      return false;
    }
    if oldCount == newCount {
      return proof == [] && oldRoot == newRoot;
    }
    if |proof| == 0 {
      return false;
    }
    var ends := FollowBoth(NodeOver(hash), oldCount - 1, newCount - 1, proof[0], proof[1..]);
    return ends.Some? && RootDigest(hash, oldCount, ends.value.0) == oldRoot
                      && RootDigest(hash, newCount, ends.value.1) == newRoot;
  }

  // ---- Bytes are the values of terms --------------------------------------------------------------

  function Values(hash: bytes -> digest, hs: seq<Hash>): (ds: seq<digest>)
    ensures |ds| == |hs|
  {
    seq(|hs|, i requires 0 <= i < |hs| => Value(hash, hs[i]))
  }

  /** Digests taken on trust. */
  function Raw(ds: seq<digest>): (hs: seq<Hash>)
    ensures |hs| == |ds| && forall i :: 0 <= i < |hs| ==> hs[i] == Opaque(ds[i])
  {
    seq(|ds|, i requires 0 <= i < |ds| => Opaque(ds[i]))
  }

  lemma {:induction false} ValuesOfRaw(hash: bytes -> digest, ds: seq<digest>)
    ensures Values(hash, Raw(ds)) == ds
  {
  }

  predicate AllSound(hs: seq<Hash>) {
    forall i :: 0 <= i < |hs| ==> Sound(hs[i])
  }

  /** Climbing commutes with taking values, and stays within sound terms. */
  lemma {:induction false} PathOfValues(hash: bytes -> digest, len: nat, index: nat, acc: Hash, path: seq<Hash>)
    requires index < len
    ensures var t := ClimbPath(Pair, len, index, acc, path);
            && ClimbPath(NodeOver(hash), len, index, Value(hash, acc), Values(hash, path))
               == (if t.Some? then Some(Value(hash, t.value)) else None)
            && (Sound(acc) && AllSound(path) && t.Some? ==> Sound(t.value))
    decreases len
  {
    hide NodeInput;
    if len > 1 {
      if IsPromoted(len, index) {
        PathOfValues(hash, (len + 1) / 2, index / 2, acc, path);
      } else if path != [] {
        var parent := if index % 2 == 0 then NodeHash(acc, path[0]) else NodeHash(path[0], acc);
        PathOfValues(hash, (len + 1) / 2, index / 2, parent, path[1..]);
        assert Values(hash, path)[1..] == Values(hash, path[1..]);
        assert Values(hash, path)[0] == Value(hash, path[0]);
      }
    }
  }

  lemma {:induction false} ClimbOfValues(hash: bytes -> digest, f: nat, s: nat, old_: Hash, new_: Hash, rest: seq<Hash>)
    requires f <= s
    ensures var t := Climb(Pair, f, s, old_, new_, rest);
            && Climb(NodeOver(hash), f, s, Value(hash, old_), Value(hash, new_), Values(hash, rest))
               == (if t.Some? then Some((Value(hash, t.value.0), Value(hash, t.value.1))) else None)
            && (Sound(old_) && Sound(new_) && AllSound(rest) && t.Some? ==> Sound(t.value.0) && Sound(t.value.1))
    decreases s
  {
    hide NodeInput;
    if s > 0 {
      if f % 2 == 0 && f == s {
        ClimbOfValues(hash, f / 2, s / 2, old_, new_, rest);
      } else if rest != [] {
        assert Values(hash, rest)[1..] == Values(hash, rest[1..]);
        assert Values(hash, rest)[0] == Value(hash, rest[0]);
        if f % 2 == 1 {
          ClimbOfValues(hash, f / 2, s / 2, NodeHash(rest[0], old_), NodeHash(rest[0], new_), rest[1..]);
        } else {
          ClimbOfValues(hash, f / 2, s / 2, old_, NodeHash(new_, rest[0]), rest[1..]);
        }
      }
    }
  }

  lemma {:induction false} StrippedOfValues(hash: bytes -> digest, f: nat, s: nat, first: Hash, rest: seq<Hash>)
    requires f <= s
    ensures var t := ClimbStripped(Pair, f, s, first, rest);
            && ClimbStripped(NodeOver(hash), f, s, Value(hash, first), Values(hash, rest))
               == (if t.Some? then Some((Value(hash, t.value.0), Value(hash, t.value.1))) else None)
            && (Sound(first) && AllSound(rest) && t.Some? ==> Sound(t.value.0) && Sound(t.value.1))
    decreases f
  {
    hide Climb, Value;
    if f % 2 == 1 {
      StrippedOfValues(hash, f / 2, s / 2, first, rest);
    } else {
      ClimbOfValues(hash, f, s, first, first, rest);
    }
  }

  // ---- True statements are accepted -----------------------------------------------------------------

  lemma {:induction false} TrueInclusionAccepted(hash: bytes -> digest, leaves: seq<Hash>, index: u32)
    requires index < |leaves| <= U32_MAX
    ensures AcceptsInclusion(hash, Value(hash, RootOf(leaves)), index, |leaves|, Value(hash, leaves[index]), Values(hash, Path(leaves, index)))
  {
    hide ClimbPath, Path, Apex;
    InclusionExact(leaves, index, |leaves|, leaves[index], Path(leaves, index));
    PathOfValues(hash, |leaves|, index, leaves[index], Path(leaves, index));
  }

  lemma {:induction false} TrueConsistencyAccepted(hash: bytes -> digest, leaves: seq<Hash>, m: nat)
    requires 0 < m <= |leaves| <= U32_MAX
    ensures AcceptsConsistency(hash, m, Value(hash, RootOf(leaves[..m])), |leaves|, Value(hash, RootOf(leaves)),
                               Values(hash, ConsistencyPath(m, leaves)))
  {
    hide ClimbStripped, ConsistencyPath, Apex;
    PrefixIsConsistent(leaves, m);
    var proof := ConsistencyPath(m, leaves);
    if m < |leaves| {
      StrippedOfValues(hash, m - 1, |leaves| - 1, proof[0], proof[1..]);
      assert Values(hash, proof)[1..] == Values(hash, proof[1..]);
    }
  }

  // ---- False statements need a collision --------------------------------------------------------------

  /** A digest met on the way to another. */
  predicate PartOf(a: Hash, g: Hash) {
    || a == g
    || (g.NodeHash? && (PartOf(a, g.left) || PartOf(a, g.right)))
    || (g.RootHash? && PartOf(a, g.apex))
  }

  lemma {:induction false} PartIsGrounded(a: Hash, g: Hash)
    requires PartOf(a, g) && Grounded(g)
    ensures Grounded(a)
    decreases g
  {
    if a != g {
      if g.RootHash? { PartIsGrounded(a, g.apex); }
      else if PartOf(a, g.left) { PartIsGrounded(a, g.left); }
      else { PartIsGrounded(a, g.right); }
    }
  }

  lemma {:induction false} PartIsHashed(hash: bytes -> digest, a: Hash, g: Hash, x: bytes)
    requires PartOf(a, g) && HashedIn(hash, a, x)
    ensures HashedIn(hash, g, x)
    decreases g
  {
    hide Preimage;
    if a != g {
      if g.RootHash? { PartIsHashed(hash, a, g.apex, x); }
      else if PartOf(a, g.left) { PartIsHashed(hash, a, g.left, x); }
      else { PartIsHashed(hash, a, g.right, x); }
    }
  }

  /** The children of a part are parts. */
  lemma {:induction false} ChildrenAreParts(a: Hash, g: Hash)
    requires PartOf(a, g) && a.NodeHash?
    ensures PartOf(a.left, g) && PartOf(a.right, g)
    decreases g
  {
    if a == g {
      assert PartOf(a.left, a.left) && PartOf(a.right, a.right);
    } else {
      if g.RootHash? { ChildrenAreParts(a, g.apex); }
      else if PartOf(a, g.left) { ChildrenAreParts(a, g.left); }
      else { ChildrenAreParts(a, g.right); }
    }
  }

  predicate AllStandFor(hash: bytes -> digest, ts: seq<Hash>, gs: seq<Hash>) {
    |ts| == |gs| && forall i :: 0 <= i < |ts| ==> StandsFor(hash, ts[i], gs[i])
  }

  lemma {:induction false} StandCons(hash: bytes -> digest, ts: seq<Hash>, g: Hash, gs: seq<Hash>)
    requires ts != [] && StandsFor(hash, ts[0], g) && AllStandFor(hash, ts[1..], gs)
    ensures AllStandFor(hash, ts, [g] + gs)
  {
    hide StandsFor;
    forall i | 0 <= i < |ts|
      ensures StandsFor(hash, ts[i], ([g] + gs)[i])
    {
      if i > 0 { assert ts[i] == ts[1..][i - 1]; }
    }
  }

  /** A climb that ends in a stand-in for `g` started from stand-ins for a climb that ends in `g`. */
  lemma {:induction false} LiftPath(hash: bytes -> digest, len: nat, index: nat, acc: Hash, path: seq<Hash>, g: Hash)
    returns (acc': Hash, path': seq<Hash>)
    requires index < len
    requires ClimbPath(Pair, len, index, acc, path).Some? && StandsFor(hash, ClimbPath(Pair, len, index, acc, path).value, g)
    ensures ClimbPath(Pair, len, index, acc', path') == Some(g)
    ensures StandsFor(hash, acc, acc') && AllStandFor(hash, path, path')
    decreases len
  {
    hide Value;
    if len == 1 {
      acc', path' := g, [];
    } else if IsPromoted(len, index) {
      acc', path' := LiftPath(hash, (len + 1) / 2, index / 2, acc, path, g);
    } else {
      var left := index % 2 == 0;
      var parent := if left then NodeHash(acc, path[0]) else NodeHash(path[0], acc);
      var parent', tail := LiftPath(hash, (len + 1) / 2, index / 2, parent, path[1..], g);
      acc' := if left then parent'.left else parent'.right;
      var sibling := if left then parent'.right else parent'.left;
      path' := [sibling] + tail;
      StandCons(hash, path, sibling, tail);
      assert path'[1..] == tail;
    }
  }

  /** Standing for a digest means having its bytes. */
  lemma {:induction false} StandInValue(hash: bytes -> digest, t: Hash, g: Hash)
    requires StandsFor(hash, t, g)
    ensures Value(hash, t) == Value(hash, g)
    decreases t
  {
    hide LeafInput, NodeInput, RootInput;
    match t
    case Opaque(_) =>
    case LeafHash(_, _, _, _) =>
    case NodeHash(left, right) => StandInValue(hash, left, g.left); StandInValue(hash, right, g.right);
    case RootHash(_, apex) => StandInValue(hash, apex, g.apex);
  }

  lemma {:induction false} StandInValues(hash: bytes -> digest, ds: seq<digest>, gs: seq<Hash>)
    requires AllStandFor(hash, Raw(ds), gs)
    ensures ds == Values(hash, gs)
  {
    hide Value;
    forall i | 0 <= i < |ds|
      ensures ds[i] == Value(hash, gs[i])
    {
      assert Raw(ds)[i] == Opaque(ds[i]);
      StandInValue(hash, Raw(ds)[i], gs[i]);
      ValueOfRaw(hash, ds[i]);
    }
  }

  lemma {:induction false} ValueOfRaw(hash: bytes -> digest, d: digest)
    ensures Value(hash, Opaque(d)) == d
  {
  }

  /** What the verifier hashes: the root over the climb from the digests it was given. */
  function ClaimedRoot(index: u32, leafCount: u32, leaf: digest, path: seq<digest>): Option<Hash>
    requires index < leafCount
  {
    var apex := ClimbPath(Pair, leafCount, index, Opaque(leaf), Raw(path));
    if apex.Some? then Some(RootHash(leafCount, apex.value)) else None
  }

  /**
    An inclusion proof accepted against the root of a tree either states its true size, the
    bytes of its leaf at that index and of its own path, or the verifier and the tree hashed two
    different inputs to one value.
   */
  lemma {:induction false} ForgedInclusionCollides(hash: bytes -> digest, leaves: seq<Hash>, index: u32, leafCount: u32, leaf: digest, path: seq<digest>)
    returns (x: bytes, y: bytes)
    requires 0 < |leaves| <= U32_MAX && AllGrounded(leaves)
    requires AcceptsInclusion(hash, Value(hash, RootOf(leaves)), index, leafCount, leaf, path)
    requires !(leafCount == |leaves| && leaf == Value(hash, leaves[index]) && path == Values(hash, Path(leaves, index)))
    ensures ClaimedRoot(index, leafCount, leaf, path).Some?
    ensures Collides(hash, ClaimedRoot(index, leafCount, leaf, path).value, x, RootOf(leaves), y)
  {
    hide ClimbPath, Path, Apex, HashedIn, NodeInput, RootInput, StandsFor;
    PathOfValues(hash, leafCount, index, Opaque(leaf), Raw(path));
    ValuesOfRaw(hash, path);
    var claimed, root := ClaimedRoot(index, leafCount, leaf, path).value, RootOf(leaves);
    assert Value(hash, claimed) == Value(hash, root);
    ApexGrounded(leaves);
    if StandsFor(hash, claimed, root) {
      InclusionOfStandIn(hash, leaves, index, leafCount, leaf, path);
    }
    x, y := StandsOrCollides(hash, claimed, root);
  }

  lemma {:induction false} InclusionOfStandIn(hash: bytes -> digest, leaves: seq<Hash>, index: u32, leafCount: u32, leaf: digest, path: seq<digest>)
    requires 0 < |leaves| <= U32_MAX && index < leafCount
    requires ClaimedRoot(index, leafCount, leaf, path).Some?
    requires StandsFor(hash, ClaimedRoot(index, leafCount, leaf, path).value, RootOf(leaves))
    ensures leafCount == |leaves| && leaf == Value(hash, leaves[index]) && path == Values(hash, Path(leaves, index))
  {
    hide ClimbPath, Path, Apex, Value;
    var leaf', path' := LiftPath(hash, leafCount, index, Opaque(leaf), Raw(path), Apex(leaves));
    InclusionExact(leaves, index, leafCount, leaf', path');
    StandInValue(hash, Opaque(leaf), leaf');
    ValueOfRaw(hash, leaf);
    StandInValues(hash, path, path');
  }

  /** Two parts of two trees that one digest stood for are equal, or the trees collide. */
  lemma {:induction false} OneDigestTwoParts(hash: bytes -> digest, t: Hash, a: Hash, ga: Hash, b: Hash, gb: Hash) returns (x: bytes, y: bytes)
    requires StandsFor(hash, t, a) && StandsFor(hash, t, b) && a != b
    requires PartOf(a, ga) && PartOf(b, gb) && Grounded(ga) && Grounded(gb)
    ensures Collides(hash, ga, x, gb, y)
  {
    hide Value, HashedIn, StandsFor, PartOf;
    StandInValue(hash, t, a);
    StandInValue(hash, t, b);
    PartIsGrounded(a, ga);
    PartIsGrounded(b, gb);
    x, y := SameValueOrCollision(hash, a, b);
    PartIsHashed(hash, a, ga, x);
    PartIsHashed(hash, b, gb, y);
  }

  /** What a lifted climb starts from, or the collision that stops it. */
  datatype Lifted = Climbs(old_: Hash, new_: Hash, rest: seq<Hash>) | Collision(x: bytes, y: bytes)

  ghost predicate IsLift(hash: bytes -> digest, f: nat, s: nat, old_: Hash, new_: Hash, rest: seq<Hash>, go: Hash, gn: Hash, l: Lifted)
    requires f <= s
  {
    match l
    case Collision(x, y) => Collides(hash, go, x, gn, y)
    case Climbs(o, n, r) =>
      && Climb(Pair, f, s, o, n, r) == Some((go, gn))
      && StandsFor(hash, old_, o) && StandsFor(hash, new_, n) && AllStandFor(hash, rest, r)
      && PartOf(o, go) && PartOf(n, gn)
  }

  /** One shared left sibling, or one right sibling of the new tree alone, taken off a lift. */
  lemma {:induction false} LiftStep(hash: bytes -> digest, f: nat, s: nat, old_: Hash, new_: Hash, rest: seq<Hash>, go: Hash, gn: Hash, up: Lifted)
    returns (l: Lifted)
    requires f <= s && 0 < s && !(f % 2 == 0 && f == s) && rest != [] && Grounded(go) && Grounded(gn)
    requires var o := if f % 2 == 1 then NodeHash(rest[0], old_) else old_;
             var n := if f % 2 == 1 then NodeHash(rest[0], new_) else NodeHash(new_, rest[0]);
             IsLift(hash, f / 2, s / 2, o, n, rest[1..], go, gn, up)
    ensures IsLift(hash, f, s, old_, new_, rest, go, gn, l)
  {
    hide Value, HashedIn;
    if up.Collision? {
      l := up;
    } else {
      ChildrenAreParts(up.new_, gn);
      if f % 2 == 1 {
        ChildrenAreParts(up.old_, go);
        if up.old_.left != up.new_.left {
          var x, y := OneDigestTwoParts(hash, rest[0], up.old_.left, go, up.new_.left, gn);
          l := Collision(x, y);
        } else {
          l := Climbs(up.old_.right, up.new_.right, [up.old_.left] + up.rest);
          StandCons(hash, rest, up.old_.left, up.rest);
          assert l.rest[1..] == up.rest;
        }
      } else {
        l := Climbs(up.old_, up.new_.left, [up.new_.right] + up.rest);
        StandCons(hash, rest, up.new_.right, up.rest);
        assert l.rest[1..] == up.rest;
      }
    }
  }

  lemma {:induction false} LiftClimb(hash: bytes -> digest, f: nat, s: nat, old_: Hash, new_: Hash, rest: seq<Hash>, go: Hash, gn: Hash)
    returns (l: Lifted)
    requires f <= s && Grounded(go) && Grounded(gn)
    requires var ends := Climb(Pair, f, s, old_, new_, rest);
             ends.Some? && StandsFor(hash, ends.value.0, go) && StandsFor(hash, ends.value.1, gn)
    ensures IsLift(hash, f, s, old_, new_, rest, go, gn, l)
    decreases s
  {
    hide Value, HashedIn, StandsFor;
    if s == 0 {
      l := Climbs(go, gn, []);
    } else if f % 2 == 0 && f == s {
      l := LiftClimb(hash, f / 2, s / 2, old_, new_, rest, go, gn);
    } else {
      var o := if f % 2 == 1 then NodeHash(rest[0], old_) else old_;
      var n := if f % 2 == 1 then NodeHash(rest[0], new_) else NodeHash(new_, rest[0]);
      var up := LiftClimb(hash, f / 2, s / 2, o, n, rest[1..], go, gn);
      l := LiftStep(hash, f, s, old_, new_, rest, go, gn, up);
    }
  }

  /** The same from the first proof node, which stands for one node of both trees. */
  lemma {:induction false} LiftStripped(hash: bytes -> digest, f: nat, s: nat, first: Hash, rest: seq<Hash>, go: Hash, gn: Hash)
    returns (l: Lifted)
    requires f <= s && Grounded(go) && Grounded(gn)
    requires var ends := ClimbStripped(Pair, f, s, first, rest);
             ends.Some? && StandsFor(hash, ends.value.0, go) && StandsFor(hash, ends.value.1, gn)
    ensures l.Collision? ==> Collides(hash, go, l.x, gn, l.y)
    ensures l.Climbs? ==> l.old_ == l.new_ && ClimbStripped(Pair, f, s, l.old_, l.rest) == Some((go, gn))
                          && StandsFor(hash, first, l.old_) && AllStandFor(hash, rest, l.rest)
    decreases f
  {
    hide Value, HashedIn, StandsFor, Climb, PartOf;
    if f % 2 == 1 {
      l := LiftStripped(hash, f / 2, s / 2, first, rest, go, gn);
    } else {
      l := LiftClimb(hash, f, s, first, first, rest, go, gn);
      if l.Climbs? && l.old_ != l.new_ {
        var x, y := OneDigestTwoParts(hash, first, l.old_, go, l.new_, gn);
        l := Collision(x, y);
      }
    }
  }

  /** What the consistency verifier hashes on its way to the two roots. */
  function ClaimedEnds(oldCount: u32, newCount: u32, proof: seq<digest>): Option<(Hash, Hash)>
    requires 0 < oldCount < newCount && proof != []
  {
    var ends := ClimbStripped(Pair, oldCount - 1, newCount - 1, Opaque(proof[0]), Raw(proof[1..]));
    if ends.Some? then Some((RootHash(oldCount, ends.value.0), RootHash(newCount, ends.value.1))) else None
  }

  /** `x` was hashed by one of the two trees or by the verifier. */
  predicate Involved(hash: bytes -> digest, a: seq<Hash>, b: seq<Hash>, oldCount: u32, newCount: u32, proof: seq<digest>, x: bytes)
    requires 0 < |a| <= U32_MAX && 0 < |b| <= U32_MAX
  {
    || HashedIn(hash, RootOf(a), x) || HashedIn(hash, RootOf(b), x)
    || (0 < oldCount < newCount && proof != [] && ClaimedEnds(oldCount, newCount, proof).Some?
        && (HashedIn(hash, ClaimedEnds(oldCount, newCount, proof).value.0, x)
            || HashedIn(hash, ClaimedEnds(oldCount, newCount, proof).value.1, x)))
  }

  /** What an accepted consistency proof is meant to show. */
  predicate TrulyExtends(hash: bytes -> digest, a: seq<Hash>, b: seq<Hash>, oldCount: u32, newCount: u32, proof: seq<digest>) {
    if oldCount == newCount then a == b
    else 0 < |a| == oldCount < |b| == newCount && a == b[..|a|] && proof == Values(hash, ConsistencyPath(|a|, b))
  }

  lemma {:induction false} ConsistencyOfStandIns(hash: bytes -> digest, a: seq<Hash>, b: seq<Hash>, proof: seq<digest>) returns (l: Lifted)
    requires 0 < |a| < |b| <= U32_MAX && AllGrounded(a) && AllGrounded(b) && proof != []
    requires var ends := ClimbStripped(Pair, |a| - 1, |b| - 1, Opaque(proof[0]), Raw(proof[1..]));
             ends.Some? && StandsFor(hash, ends.value.0, Apex(a)) && StandsFor(hash, ends.value.1, Apex(b))
    ensures l.Collision? ==> Collides(hash, Apex(a), l.x, Apex(b), l.y)
    ensures l.Climbs? ==> a == b[..|a|] && proof == Values(hash, ConsistencyPath(|a|, b))
  {
    hide Value, HashedIn, ClimbStripped, Apex, ConsistencyPath;
    ApexGrounded(a);
    ApexGrounded(b);
    l := LiftStripped(hash, |a| - 1, |b| - 1, Opaque(proof[0]), Raw(proof[1..]), Apex(a), Apex(b));
    if l.Climbs? {
      ClimbStrippedExact(a, b, l.old_, l.rest);
      ConsistencyPathIsStripped(|a|, b);
      StandInValue(hash, Opaque(proof[0]), l.old_);
      ValueOfRaw(hash, proof[0]);
      StandInValues(hash, proof[1..], l.rest);
      assert Values(hash, [l.old_] + l.rest) == [Value(hash, l.old_)] + Values(hash, l.rest);
      assert proof == [proof[0]] + proof[1..];
    }
  }

  /**
    A consistency proof accepted between the roots of two trees either shows what it claims, with
    the bytes of the one path `consistency` builds, or two different inputs that the trees and
    the verifier hashed have one hash.
   */
  lemma {:induction false} ForgedConsistencyCollides(hash: bytes -> digest, a: seq<Hash>, b: seq<Hash>, oldCount: u32, newCount: u32, proof: seq<digest>)
    returns (x: bytes, y: bytes)
    requires 0 < |a| <= U32_MAX && 0 < |b| <= U32_MAX && AllGrounded(a) && AllGrounded(b)
    requires AcceptsConsistency(hash, oldCount, Value(hash, RootOf(a)), newCount, Value(hash, RootOf(b)), proof)
    requires !TrulyExtends(hash, a, b, oldCount, newCount, proof)
    ensures x != y && hash(x) == hash(y)
    ensures Involved(hash, a, b, oldCount, newCount, proof, x) && Involved(hash, a, b, oldCount, newCount, proof, y)
  {
    hide HashedIn, ClimbStripped, Apex, ConsistencyPath, NodeInput, RootInput, StandsFor, Values;
    if oldCount == newCount {
      x, y := RootCommits(hash, a, b);
    } else {
      StrippedOfValues(hash, oldCount - 1, newCount - 1, Opaque(proof[0]), Raw(proof[1..]));
      ValuesOfRaw(hash, proof[1..]);
      var (old_, new_) := ClaimedEnds(oldCount, newCount, proof).value;
      ApexGrounded(a);
      ApexGrounded(b);
      if !StandsFor(hash, old_, RootOf(a)) {
        x, y := StandsOrCollides(hash, old_, RootOf(a));
      } else if !StandsFor(hash, new_, RootOf(b)) {
        x, y := StandsOrCollides(hash, new_, RootOf(b));
      } else {
        RootsStand(hash, oldCount, old_.apex, a);
        RootsStand(hash, newCount, new_.apex, b);
        var l := ConsistencyOfStandIns(hash, a, b, proof);
        x, y := l.x, l.y;
        ApexIsHashed(hash, a, x);
        ApexIsHashed(hash, b, y);
      }
    }
  }

  lemma {:induction false} RootsStand(hash: bytes -> digest, count: u32, apex: Hash, leaves: seq<Hash>)
    requires 0 < |leaves| <= U32_MAX && StandsFor(hash, RootHash(count, apex), RootOf(leaves))
    ensures count == |leaves| && StandsFor(hash, apex, Apex(leaves))
  {
    hide Apex;
  }

  lemma {:induction false} ApexIsHashed(hash: bytes -> digest, leaves: seq<Hash>, x: bytes)
    requires 0 < |leaves| <= U32_MAX && HashedIn(hash, Apex(leaves), x)
    ensures HashedIn(hash, RootOf(leaves), x)
  {
    hide Apex;
  }
}
