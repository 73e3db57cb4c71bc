/**
  Sealed chunk frames and how a row of them fills the payload. Encryption is a parameter:
  any function from chunk index, nonce seed and plaintext to a nonce, a ciphertext of the
  plaintext's length and a tag.
 */
module Frames {
  import opened Bytes
  import opened Hashing
  import opened Layouts
  import opened MerkleLevels
  import opened MerkleProofs

  datatype Sealed = Sealed(nonce: bytes, ct: bytes, tag: bytes)

  /** `seal_chunk_hedged` with key, algorithm and file fixed. */
  type Cipher = (u32, bytes, bytes) -> Result<Sealed, CryptoError>

  ghost predicate LengthPreserving(cipher: Cipher) {
    forall index: u32, seed: bytes, plaintext: bytes ::
      cipher(index, seed, plaintext).Ok? ==>
        var s := cipher(index, seed, plaintext).value;
        |s.nonce| == NONCE_LEN && |s.tag| == TAG_LEN && |s.ct| == |plaintext|
  }

  predicate WellFormed(s: Sealed) {
    |s.nonce| == NONCE_LEN && |s.tag| == TAG_LEN
  }

  function FrameBytes(s: Sealed): (frame: bytes)
    ensures |frame| == |s.nonce| + |s.ct| + |s.tag|
  {
    s.nonce + s.ct + s.tag
  }

  /** Cut a frame into nonce, ciphertext and tag. */
  function SplitFrame(frame: bytes): (s: Sealed)
    requires |frame| >= NONCE_LEN + TAG_LEN
    ensures WellFormed(s) && FrameBytes(s) == frame && |s.ct| == |frame| - NONCE_LEN - TAG_LEN
  {
    Sealed(frame[..NONCE_LEN], frame[NONCE_LEN..|frame| - TAG_LEN], frame[|frame| - TAG_LEN..])
  }

  lemma {:induction false} SplitOfFrame(s: Sealed)
    requires WellFormed(s)
    ensures |FrameBytes(s)| >= NONCE_LEN + TAG_LEN && SplitFrame(FrameBytes(s)) == s
  {
    var f := FrameBytes(s);
    assert f[..NONCE_LEN] == s.nonce && f[NONCE_LEN..|f| - TAG_LEN] == s.ct && f[|f| - TAG_LEN..] == s.tag;
  }

  function LeafOf(index: u32, s: Sealed): Hash {
    LeafHash(index, s.nonce, s.tag, s.ct)
  }

  /** The leaves of a row of frames whose first has index `from`. */
  function LeavesFrom(frames: seq<Sealed>, from: nat): (leaves: seq<Hash>)
    requires from + |frames| <= U32_MAX + 1
    ensures |leaves| == |frames|
    ensures forall i :: 0 <= i < |frames| ==> leaves[i] == LeafOf(from + i, frames[i])
  {
    seq(|frames|, i requires 0 <= i < |frames| => LeafOf(from + i, frames[i]))
  }

  /** A tree over frames fixes every byte of every frame, the ciphertexts included, and their order. */
  lemma {:induction false} RootFixesFrames(a: seq<Sealed>, b: seq<Sealed>)
    requires 0 < |a| <= U32_MAX && 0 < |b| <= U32_MAX
    ensures RootOf(LeavesFrom(a, 0)) == RootOf(LeavesFrom(b, 0)) <==> a == b
  {
    hide Apex;
    if RootOf(LeavesFrom(a, 0)) == RootOf(LeavesFrom(b, 0)) {
      ApexInjective(LeavesFrom(a, 0), LeavesFrom(b, 0));
      forall i | 0 <= i < |a|
        ensures a[i] == b[i]
      {
        assert LeavesFrom(a, 0)[i] == LeavesFrom(b, 0)[i];
      }
    }
  }

  /** The leaf of a frame lying at `at` in a payload: its index, and its nonce, tag and ciphertext as bytes there. */
  lemma {:induction false} LeafOfBytes(payload: bytes, at: nat, end: nat, index: u32, s: Sealed)
    requires WellFormed(s) && at <= end <= |payload| && payload[at..end] == FrameBytes(s)
    ensures at + 40 <= end
    ensures LeafOf(index, s) == LeafHash(index, payload[at..at + 24], payload[end - 16..end], payload[at + 24..end - 16])
  {
    var f := payload[at..end];
    assert f[..24] == s.nonce && f[24..|f| - 16] == s.ct && f[|f| - 16..] == s.tag;
    SliceOfSlice(payload, at, end, 0, 24);
    SliceOfSlice(payload, at, end, 24, |f| - 16);
    SliceOfSlice(payload, at, end, |f| - 16, |f|);
  }

  function Concat(frames: seq<Sealed>): bytes {
    if frames == [] then [] else FrameBytes(frames[0]) + Concat(frames[1..])
  }

  lemma {:induction false} ConcatAppend(a: seq<Sealed>, b: seq<Sealed>)
    ensures Concat(a + b) == Concat(a) + Concat(b)
  {
    hide FrameBytes;
    if a == [] {
      assert a + b == b;
    } else {
      ConcatAppend(a[1..], b);
      assert (a + b)[0] == a[0] && (a + b)[1..] == a[1..] + b;
      Regroup(FrameBytes(a[0]), Concat(a[1..]), Concat(b));
    }
  }

  lemma {:induction false} ConcatOfOne(s: Sealed)
    ensures Concat([s]) == FrameBytes(s)
  {
    hide FrameBytes;
    assert FrameBytes(s) + [] == FrameBytes(s);
  }

  /** Every frame but the last carries a full chunk; the last carries what is left. */
  predicate Tiles(frames: seq<Sealed>, chunkSize: nat, totalLen: nat) {
    && |frames| > 0
    && (forall i :: 0 <= i < |frames| ==> WellFormed(frames[i]))
    && (forall i :: 0 <= i < |frames| - 1 ==> |frames[i].ct| == chunkSize)
    && var last := |frames[|frames| - 1].ct|;
       && last <= chunkSize
       && (|frames| > 1 ==> last > 0)
       && totalLen == chunkSize * (|frames| - 1) + last
  }

  lemma {:induction false} TilesGivesLayout(frames: seq<Sealed>, chunkSize: u32, totalLen: u64, payloadOffset: u64)
    requires ValidChunkSize(chunkSize) && |frames| <= U32_MAX && Tiles(frames, chunkSize, totalLen)
    ensures Layout(chunkSize, |frames|, totalLen, payloadOffset).Valid()
  {
    RequiredChunksMeans(totalLen, chunkSize, |frames|);
    var d: nat, n: nat := chunkSize, |frames|;
    assert d * n == d * (n - 1) + d;
  }

  lemma {:induction false} FullFramesLength(frames: seq<Sealed>, chunkSize: nat)
    requires forall i :: 0 <= i < |frames| ==> WellFormed(frames[i]) && |frames[i].ct| == chunkSize
    ensures |Concat(frames)| == |frames| * (chunkSize + NONCE_LEN + TAG_LEN)
  {
    if frames != [] {
      FullFramesLength(frames[1..], chunkSize);
      var w := chunkSize + NONCE_LEN + TAG_LEN;
      assert |frames| * w == (|frames| - 1) * w + w;
    }
  }

  /** Frame `i` starts behind the full frames in front of it and holds the plaintext length of chunk `i`. */
  lemma {:induction false} FramePlace(frames: seq<Sealed>, l: Layout, i: u32)
    requires l.Valid() && |frames| == l.chunkCount && Tiles(frames, l.chunkSize, l.totalLen) && i < l.chunkCount
    ensures FrameStart(l, i) == l.payloadOffset + |Concat(frames[..i])|
    ensures l.PlaintextLenOf(i) == Ok(|frames[i].ct|)
  {
    hide RequiredChunks, IsPowerOfTwo, Concat;
    FullFramesLength(frames[..i], l.chunkSize);
    ChunkLength(l, i);
  }

  /**
    Frame `i` of a tiled row fills exactly the span the layout gives it, and the layout gives it
    one exactly when the frame ends below 2^64; it does so for all frames if the last one does.
   */
  lemma {:induction false} FrameFillsSpan(frames: seq<Sealed>, l: Layout, i: u32)
    requires l.Valid() && |frames| == l.chunkCount && Tiles(frames, l.chunkSize, l.totalLen) && i < l.chunkCount
    ensures |Concat(frames[..i + 1])| <= |Concat(frames)|
    ensures l.CiphertextSpan(i).Ok? <==> l.payloadOffset + |Concat(frames[..i + 1])| <= U64_MAX
    ensures l.CiphertextSpan(i).Ok? ==>
              var span := l.CiphertextSpan(i).value;
              && l.payloadOffset <= span.start <= span.end <= l.payloadOffset + |Concat(frames)|
              && Concat(frames)[span.start - l.payloadOffset..span.end - l.payloadOffset] == FrameBytes(frames[i])
              && (i + 1 == l.chunkCount ==> span.end == l.payloadOffset + |Concat(frames)|)
  {
    hide RequiredChunks, IsPowerOfTwo, FrameBytes, Concat, Layout.CiphertextSpan, Layout.PlaintextLenOf, FrameStart, Tiles;
    var a, f, z := Concat(frames[..i]), FrameBytes(frames[i]), Concat(frames[i + 1..]);
    FramePlace(frames, l, i);
    SpanIs(l, i);
    ConcatAround(frames, i);
    assert |f| == NONCE_LEN + |frames[i].ct| + TAG_LEN by { FrameLength(frames, l.chunkSize, l.totalLen, i); }
    assert (a + (f + z))[|a|..|a| + |f|] == f;
  }

  /** Span i holds one whole frame of the payload, the last span up to its end, and `leaf` is its leaf. */
  predicate LeafInSpan(payload: bytes, l: Layout, i: u32, leaf: Hash)
    requires i < l.chunkCount && l.chunkSize > 0 && l.CiphertextSpan(i).Ok?
  {
    var span := l.CiphertextSpan(i).value;
    && l.payloadOffset <= span.start && span.start + NONCE_LEN + TAG_LEN <= span.end
    && span.end <= l.payloadOffset + |payload|
    && (i + 1 == l.chunkCount ==> span.end == l.payloadOffset + |payload|)
    && var at, end := span.start - l.payloadOffset, span.end - l.payloadOffset;
       leaf == LeafHash(i, payload[at..at + 24], payload[end - 16..end], payload[at + 24..end - 16])
  }

  lemma {:induction false} LeafFillsSpan(frames: seq<Sealed>, l: Layout, i: u32)
    requires l.Valid() && Tiles(frames, l.chunkSize, l.totalLen) && |frames| == l.chunkCount
    requires i < l.chunkCount && l.chunkSize > 0
    ensures l.payloadOffset + |Concat(frames)| <= U64_MAX ==> l.CiphertextSpan(i).Ok?
    ensures l.CiphertextSpan(i).Ok? ==> LeafInSpan(Concat(frames), l, i, LeafOf(i, frames[i]))
  {
    hide Concat, RequiredChunks, IsPowerOfTwo, FrameBytes, LeafOf, Layout.CiphertextSpan;
    FrameFillsSpan(frames, l, i);
    assert WellFormed(frames[i]);
    if l.CiphertextSpan(i).Ok? {
      var span := l.CiphertextSpan(i).value;
      LeafOfBytes(Concat(frames), span.start - l.payloadOffset, span.end - l.payloadOffset, i, frames[i]);
    }
  }

  lemma {:induction false} FrameLength(frames: seq<Sealed>, chunkSize: nat, totalLen: nat, i: nat)
    requires Tiles(frames, chunkSize, totalLen) && i < |frames|
    ensures |FrameBytes(frames[i])| == NONCE_LEN + |frames[i].ct| + TAG_LEN
  {
  }

  lemma {:induction false} ConcatAround(frames: seq<Sealed>, i: nat)
    requires i < |frames|
    ensures Concat(frames) == Concat(frames[..i]) + (FrameBytes(frames[i]) + Concat(frames[i + 1..]))
    ensures Concat(frames[..i + 1]) == Concat(frames[..i]) + FrameBytes(frames[i])
    ensures i + 1 == |frames| ==> Concat(frames[i + 1..]) == []
  {
    hide FrameBytes;
    var before, rest := frames[..i], frames[i + 1..];
    assert frames == before + ([frames[i]] + rest);
    ConcatAppend(before, [frames[i]] + rest);
    assert frames[..i + 1] == before + [frames[i]];
    ConcatAppend(before, [frames[i]]);
    ConcatOfOne(frames[i]);
    assert ([frames[i]] + rest)[1..] == rest;
  }
}
