/**
  The tree over real digests. Under any hash function at all, two different trees with one root
  digest contain two different inputs with one hash, and so does every accepted proof of a false
  statement together with the tree it lies about: modelling digests by what was hashed assumes
  collision resistance and nothing else.
 */
module TreeDigests {
  import opened Bytes
  import opened Hashing
  import opened MerkleLevels
  import opened MerkleProofs

  const LEAF_LABEL := "CC/v1/leaf"
  const NODE_LABEL := "CC/v1/node"

  // ---- Terms and their bytes ------------------------------------------------------------------

  function LeafInput(index: u32, nonce: bytes, tag: bytes, ct: bytes): bytes {
    [0] + (Ascii(LEAF_LABEL) + (Be32(index) + (Be64(|ct| % 0x1_0000_0000_0000_0000) + (nonce + (tag + ct)))))
  }

  function NodeInput(left: digest, right: digest): bytes {
    [1] + (Ascii(NODE_LABEL) + (left + right))
  }

  function RootInput(count: u32, apex: digest): bytes {
    [2] + (Ascii(NODE_LABEL) + (Be32(count) + apex))
  }

  /** The 32 bytes a digest stands for. */
  function Value(hash: bytes -> digest, h: Hash): digest
    decreases h, 1
  {
    match h
    case Opaque(raw) => if |raw| == 32 then raw else Zeros(32)
    case _ => hash(Preimage(hash, h))
  }

  /** What is fed to the hash function. */
  function Preimage(hash: bytes -> digest, h: Hash): bytes
    decreases h, 0
  {
    match h
    case LeafHash(index, nonce, tag, ct) => LeafInput(index, nonce, tag, ct)
    case NodeHash(left, right) => NodeInput(Value(hash, left), Value(hash, right))
    case RootHash(count, apex) => RootInput(count, Value(hash, apex))
    case Opaque(_) => []
  }

  /** `x` is hashed on the way to this digest. */
  predicate HashedIn(hash: bytes -> digest, h: Hash, x: bytes) {
    !h.Opaque?
    && (x == Preimage(hash, h)
        || (h.NodeHash? && (HashedIn(hash, h.left, x) || HashedIn(hash, h.right, x)))
        || (h.RootHash? && HashedIn(hash, h.apex, x)))
  }

  /** Two different inputs with one hash, the first hashed on the way to `a`, the second to `b`. */
  predicate Collides(hash: bytes -> digest, a: Hash, x: bytes, b: Hash, y: bytes) {
    x != y && hash(x) == hash(y) && HashedIn(hash, a, x) && HashedIn(hash, b, y)
  }

  /** Leaves are hashed from whole frames; digests taken on trust are 32 bytes. */
  predicate Sound(h: Hash) {
    match h
    case LeafHash(_, nonce, tag, ct) => |nonce| == 24 && |tag| == 16 && |ct| <= U64_MAX
    case NodeHash(left, right) => Sound(left) && Sound(right)
    case RootHash(_, apex) => Sound(apex)
    case Opaque(raw) => |raw| == 32
  }

  /** A digest that really is one: hashed from leaves, nothing in it taken on trust. */
  predicate Grounded(h: Hash) {
    match h
    case LeafHash(_, nonce, tag, ct) => |nonce| == 24 && |tag| == 16 && |ct| <= U64_MAX
    case NodeHash(left, right) => Grounded(left) && Grounded(right)
    case RootHash(_, apex) => Grounded(apex)
    case Opaque(_) => false
  }

  /** `t` is `g` with some subterms replaced by their bytes. */
  predicate StandsFor(hash: bytes -> digest, t: Hash, g: Hash) {
    match t
    case Opaque(_) => Value(hash, t) == Value(hash, g)
    case LeafHash(_, _, _, _) => t == g
    case NodeHash(left, right) => g.NodeHash? && StandsFor(hash, left, g.left) && StandsFor(hash, right, g.right)
    case RootHash(count, apex) => g.RootHash? && count == g.leafCount && StandsFor(hash, apex, g.apex)
  }

  lemma {:induction false} LeavesDiffer(hash: bytes -> digest, a: Hash, b: Hash)
    requires a.LeafHash? && b.LeafHash? && Sound(a) && Sound(b) && a != b
    ensures Preimage(hash, a) != Preimage(hash, b)
  {
    hide Be32, Be64, Ascii;
    if Preimage(hash, a) == Preimage(hash, b) {
      var name, zero := Ascii(LEAF_LABEL), [0];
      var a5, b5 := a.tag + a.ct, b.tag + b.ct;
      var a4, b4 := a.nonce + a5, b.nonce + b5;
      var a3, b3 := Be64(|a.ct|) + a4, Be64(|b.ct|) + b4;
      var a2, b2 := Be32(a.index) + a3, Be32(b.index) + b3;
      assert |a.ct| % 0x1_0000_0000_0000_0000 == |a.ct| && |b.ct| % 0x1_0000_0000_0000_0000 == |b.ct|;
      SplitConcat(zero, name + a2, zero, name + b2);
      SplitConcat(name, a2, name, b2);
      SplitConcat(Be32(a.index), a3, Be32(b.index), b3);
      Be32Injective(a.index, b.index);
      SplitConcat(Be64(|a.ct|), a4, Be64(|b.ct|), b4);
      SplitConcat(a.nonce, a5, b.nonce, b5);
      SplitConcat(a.tag, a.ct, b.tag, b.ct);
      assert false;
    }
  }

  /** The first byte tells leaf, node and root apart. */
  lemma {:induction false} KindsDiffer(hash: bytes -> digest, a: Hash, b: Hash)
    requires !a.Opaque? && !b.Opaque? && Preimage(hash, a) == Preimage(hash, b)
    ensures a.LeafHash? == b.LeafHash? && a.NodeHash? == b.NodeHash? && a.RootHash? == b.RootHash?
  {
    hide Be32, Be64, Ascii;
    assert Preimage(hash, a)[0] == Preimage(hash, b)[0];
  }

  lemma {:induction false} SameChildren(hash: bytes -> digest, a: Hash, b: Hash)
    requires Preimage(hash, a) == Preimage(hash, b)
    ensures a.NodeHash? && b.NodeHash? ==> Value(hash, a.left) == Value(hash, b.left) && Value(hash, a.right) == Value(hash, b.right)
    ensures a.RootHash? && b.RootHash? ==> a.leafCount == b.leafCount && Value(hash, a.apex) == Value(hash, b.apex)
  {
    hide Be32, Ascii, Value;
    var name := Ascii(NODE_LABEL);
    if a.NodeHash? && b.NodeHash? {
      var x, y := Value(hash, a.left) + Value(hash, a.right), Value(hash, b.left) + Value(hash, b.right);
      SplitConcat([1], name + x, [1], name + y);
      SplitConcat(name, x, name, y);
      SplitConcat(Value(hash, a.left), Value(hash, a.right), Value(hash, b.left), Value(hash, b.right));
    }
    if a.RootHash? && b.RootHash? {
      var x, y := Be32(a.leafCount) + Value(hash, a.apex), Be32(b.leafCount) + Value(hash, b.apex);
      SplitConcat([2], name + x, [2], name + y);
      SplitConcat(name, x, name, y);
      SplitConcat(Be32(a.leafCount), Value(hash, a.apex), Be32(b.leafCount), Value(hash, b.apex));
      Be32Injective(a.leafCount, b.leafCount);
    }
  }

  /**
    A term with the bytes of a real digest that does not stand for it holds one half of a
    collision, the digest the other, and the proof finds both.
   */
  lemma {:induction false} StandsOrCollides(hash: bytes -> digest, t: Hash, g: Hash) returns (x: bytes, y: bytes)
    requires Sound(t) && Grounded(g) && Value(hash, t) == Value(hash, g) && !StandsFor(hash, t, g)
    ensures Collides(hash, t, x, g, y)
    decreases t
  {
    hide LeafInput, NodeInput, RootInput;
    x, y := Preimage(hash, t), Preimage(hash, g);
    if t.LeafHash? && g.LeafHash? {
      LeavesDiffer(hash, t, g);
    } else if x == y {
      KindsDiffer(hash, t, g);
      SameChildren(hash, t, g);
      if t.RootHash? {
        x, y := StandsOrCollides(hash, t.apex, g.apex);
      } else if !StandsFor(hash, t.left, g.left) {
        x, y := StandsOrCollides(hash, t.left, g.left);
      } else {
        x, y := StandsOrCollides(hash, t.right, g.right);
      }
    }
  }

  lemma {:induction false} GroundedStands(hash: bytes -> digest, t: Hash, g: Hash)
    requires Grounded(t)
    ensures Sound(t) && (StandsFor(hash, t, g) ==> t == g)
    decreases t
  {
    match t
    case LeafHash(_, _, _, _) =>
    case NodeHash(left, right) =>
      GroundedStands(hash, left, if g.NodeHash? then g.left else g);
      GroundedStands(hash, right, if g.NodeHash? then g.right else g);
    case RootHash(_, apex) => GroundedStands(hash, apex, if g.RootHash? then g.apex else g);
  }

  /** Two different digests of one value hold a collision between their own inputs. */
  lemma {:induction false} SameValueOrCollision(hash: bytes -> digest, a: Hash, b: Hash) returns (x: bytes, y: bytes)
    requires Grounded(a) && Grounded(b) && a != b && Value(hash, a) == Value(hash, b)
    ensures Collides(hash, a, x, b, y)
  {
    hide Value, StandsFor, HashedIn;
    GroundedStands(hash, a, b);
    x, y := StandsOrCollides(hash, a, b);
  }

  predicate AllGrounded(leaves: seq<Hash>) {
    forall i :: 0 <= i < |leaves| ==> Grounded(leaves[i])
  }

  lemma {:induction false} MthGrounded(leaves: seq<Hash>)
    requires |leaves| > 0 && AllGrounded(leaves)
    ensures Grounded(Mth(leaves))
    decreases |leaves|
  {
    if |leaves| > 1 {
      var k := SplitPoint(|leaves|);
      MthGrounded(leaves[..k]);
      MthGrounded(leaves[k..]);
    }
  }

  lemma {:induction false} ApexGrounded(leaves: seq<Hash>)
    requires |leaves| > 0 && AllGrounded(leaves)
    ensures Grounded(Apex(leaves))
  {
    hide Apex, Mth;
    ApexIsMth(leaves);
    MthGrounded(leaves);
  }

  /**
    The published 32-byte root commits to the whole leaf list and its length: two different
    lists of leaves, of any sizes, with one root digest hashed two different inputs to one value.
   */
  lemma {:induction false} RootCommits(hash: bytes -> digest, a: seq<Hash>, b: seq<Hash>) returns (x: bytes, y: bytes)
    requires 0 < |a| <= U32_MAX && 0 < |b| <= U32_MAX && AllGrounded(a) && AllGrounded(b) && a != b
    requires Value(hash, RootOf(a)) == Value(hash, RootOf(b))
    ensures Collides(hash, RootOf(a), x, RootOf(b), y)
  {
    hide Apex, Value, HashedIn;
    ApexGrounded(a);
    ApexGrounded(b);
    if |a| == |b| && Apex(a) == Apex(b) { ApexInjective(a, b); }
    x, y := SameValueOrCollision(hash, RootOf(a), RootOf(b));
  }
}
