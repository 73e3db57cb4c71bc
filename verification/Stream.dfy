/** Streaming encryption: cutting a source that may read short into chunks. */
module Stream {
  import opened Bytes
  import opened Hashing
  import opened MerkleLevels
  import opened MerkleTrees
  import opened Layouts
  import opened Frames

  type HostError = string

  datatype StreamError = Crypto(crypto: CryptoError) | Host(host: HostError) | TooLarge

  datatype StreamResult = StreamResult(totalLen: u64, chunkCount: u32, treeRoot: Hash)

  // ---- The host ------------------------------------------------------------------

  /** One answer of the host: at most this many bytes (but some, if any are left), or a failure. */
  datatype Answer = Give(most: nat) | Refuse(error: HostError)

  /** The first failure among the answers to come. */
  function FirstRefusal(answers: seq<Answer>): Option<HostError> {
    if answers == [] then None
    else if answers[0].Refuse? then Some(answers[0].error)
    else FirstRefusal(answers[1..])
  }

  /**
    The caller's source. It never reports more than it wrote and reports zero only at the end
    of its input; how it splits the input is up to `answers`.
   */
  class Source {
    var rest: bytes
    var answers: seq<Answer>

    constructor (input: bytes, answers: seq<Answer>)
      ensures rest == input && this.answers == answers
    {
      rest, this.answers := input, answers;
    }

    /** Write into the buffer from `at` on; returns the number of bytes written. */
    method Read(buf: array<byte>, at: nat) returns (r: Result<nat, HostError>)
      requires at < buf.Length
      modifies this, buf
      ensures r.Ok? ==>
                && r.value <= buf.Length - at && r.value <= |old(rest)|
                && (r.value == 0 <==> old(rest) == [])
                && buf[..at] == old(buf[..at])
                && buf[at..at + r.value] == old(rest)[..r.value]
                && rest == old(rest)[r.value..]
      ensures r.Ok? ==> FirstRefusal(answers) == FirstRefusal(old(answers))
      ensures r.Err? ==> FirstRefusal(old(answers)) == Some(r.error)
    {
      var most := buf.Length - at;
      if |answers| > 0 {
        var answer := answers[0];
        answers := answers[1..];
        match answer
        case Refuse(e) => return Err(e);
        case Give(n) => if n < most { most := if n == 0 then 1 else n; }
      }
      var got := if |rest| < most then |rest| else most;
      forall i | at <= i < at + got {
        buf[i] := rest[i - at];
      }
      rest := rest[got..];
      return Ok(got);
    }
  }

  /** The caller's sink. */
  class Sink {
    var out: bytes
    var answers: seq<Answer>

    constructor (answers: seq<Answer>)
      ensures out == [] && this.answers == answers
    {
      out, this.answers := [], answers;
    }

    method Write(data: bytes) returns (r: Result<(), HostError>)
      modifies this
      ensures r.Ok? ==> out == old(out) + data
      ensures r.Ok? ==> FirstRefusal(answers) == FirstRefusal(old(answers))
      ensures r.Err? ==> FirstRefusal(old(answers)) == Some(r.error)
    {
      if |answers| > 0 {
        var answer := answers[0];
        answers := answers[1..];
        if answer.Refuse? {
          return Err(answer.error);
        }
      }
      out := out + data;
      return Ok(());
    }
  }

  // ---- What streaming must produce -------------------------------------------------

  function Min(a: nat, b: nat): nat {
    if a < b then a else b
  }

  /** Seal what is left of the input chunk by chunk, an empty file as one empty chunk. */
  function SealFrom(cipher: Cipher, seeds: u32 -> bytes, chunkSize: nat, input: bytes, index: nat)
    : Result<seq<Sealed>, StreamError>
    requires chunkSize > 0 && index <= U32_MAX
    decreases |input|
  {
    match cipher(index, seeds(index), input[..Min(chunkSize, |input|)])
    case Err(e) => Err(Crypto(e))
    case Ok(s) =>
      if index == U32_MAX then Err(TooLarge)
      else if |input| <= chunkSize then Ok([s])
      else
        match SealFrom(cipher, seeds, chunkSize, input[chunkSize..], index + 1)
        case Err(e) => Err(e)
        case Ok(frames) => Ok([s] + frames)
  }

  /** The plaintext of chunk `i`. */
  function PieceAt(input: bytes, chunkSize: nat, i: nat): bytes
    requires chunkSize * i <= |input|
  {
    input[chunkSize * i..][..Min(chunkSize, |input| - chunkSize * i)]
  }

  /** The frames of a successful run tile the file and stay addressable by 32-bit indices. */
  lemma {:induction false} SealedFramesTile(cipher: Cipher, seeds: u32 -> bytes, chunkSize: nat, input: bytes, index: nat)
    requires LengthPreserving(cipher) && chunkSize > 0 && index <= U32_MAX
    requires SealFrom(cipher, seeds, chunkSize, input, index).Ok?
    ensures var frames := SealFrom(cipher, seeds, chunkSize, input, index).value;
            Tiles(frames, chunkSize, |input|) && index + |frames| <= U32_MAX
    decreases |input|
  {
    var frames := SealFrom(cipher, seeds, chunkSize, input, index).value;
    if |input| > chunkSize {
      SealedFramesTile(cipher, seeds, chunkSize, input[chunkSize..], index + 1);
      TilesCons(frames[0], frames[1..], chunkSize, |input| - chunkSize);
      assert frames == [frames[0]] + frames[1..];
    } else {
      assert chunkSize * 0 == 0;
    }
  }

  lemma {:induction false} TilesCons(s: Sealed, frames: seq<Sealed>, chunkSize: nat, totalLen: nat)
    requires WellFormed(s) && |s.ct| == chunkSize && totalLen > 0 && Tiles(frames, chunkSize, totalLen)
    ensures Tiles([s] + frames, chunkSize, totalLen + chunkSize)
  {
    var n := |frames|;
    assert chunkSize * n == chunkSize * (n - 1) + chunkSize;
    if n == 1 { assert chunkSize * 0 == 0; }
  }

  /** Frame `i` of a successful run is the cipher's answer for piece `i` under seed `i`. */
  lemma {:induction false} SealedFrameIs(cipher: Cipher, seeds: u32 -> bytes, chunkSize: nat, input: bytes, index: nat, i: nat)
    requires chunkSize > 0 && index <= U32_MAX
    requires SealFrom(cipher, seeds, chunkSize, input, index).Ok?
    requires i < |SealFrom(cipher, seeds, chunkSize, input, index).value|
    ensures index + i <= U32_MAX && chunkSize * i <= |input|
    ensures cipher(index + i, seeds(index + i), PieceAt(input, chunkSize, i))
            == Ok(SealFrom(cipher, seeds, chunkSize, input, index).value[i])
    decreases |input|
  {
    if i == 0 {
      assert chunkSize * i == 0 && input[0..] == input;
    } else {
      var tail := input[chunkSize..];
      SealedFrameIs(cipher, seeds, chunkSize, tail, index + 1, i - 1);
      assert chunkSize * i == chunkSize * (i - 1) + chunkSize;
      assert tail[chunkSize * (i - 1)..] == input[chunkSize * i..];
    }
  }

  /**
    Frames and results depend only on the input and the seeds, and fit the layout the reader
    computes: the chunk count is the one required, frame i is the cipher's answer for piece i
    under seed i and fills span i, and all spans exist if the payload ends below 2^64.
   */
  lemma {:induction false} StreamFitsLayout(cipher: Cipher, seeds: u32 -> bytes, chunkSize: u32, input: bytes, payloadOffset: u64, i: u32)
    requires LengthPreserving(cipher) && ValidChunkSize(chunkSize) && |input| <= U64_MAX
    requires SealFrom(cipher, seeds, chunkSize, input, 0).Ok?
    ensures var frames := SealFrom(cipher, seeds, chunkSize, input, 0).value;
            && 0 < |frames| <= U32_MAX
            && RequiredChunks(|input|, chunkSize) == Ok(|frames|)
            && var l := Layout(chunkSize, |frames|, |input|, payloadOffset);
               i < |frames| ==>
                 && chunkSize * i <= |input|
                 && cipher(i, seeds(i), PieceAt(input, chunkSize, i)) == Ok(frames[i])
                 && (payloadOffset + |Concat(frames)| <= U64_MAX ==> l.CiphertextSpan(i).Ok?)
                 && (l.CiphertextSpan(i).Ok? ==>
                       var span := l.CiphertextSpan(i).value;
                       && LeafInSpan(Concat(frames), l, i, LeavesFrom(frames, 0)[i])
                       && Concat(frames)[span.start - payloadOffset..span.end - payloadOffset] == FrameBytes(frames[i]))
  {
    hide SealFrom, RequiredChunks, IsPowerOfTwo, Concat, FrameBytes, LengthPreserving, Layout.CiphertextSpan, PieceAt, LeafOf, Tiles;
    SealedFramesTile(cipher, seeds, chunkSize, input, 0);
    var frames := SealFrom(cipher, seeds, chunkSize, input, 0).value;
    TilesGivesLayout(frames, chunkSize, |input|, payloadOffset);
    var l := Layout(chunkSize, |frames|, |input|, payloadOffset);
    if i < |frames| {
      FrameFillsSpan(frames, l, i);
      SealedFrameIs(cipher, seeds, chunkSize, input, 0, i);
      LeafFillsSpan(frames, l, i);
    }
  }

  /** There is a chunk `i`: the first always, any other if the input reaches beyond its start. */
  predicate IsChunk(input: bytes, chunkSize: nat, i: nat) {
    i == 0 || chunkSize * i < |input|
  }

  /** The cipher can answer for chunk `i`, and there is still an index for it. */
  predicate Sealable(cipher: Cipher, seeds: u32 -> bytes, chunkSize: nat, input: bytes, index: nat, i: nat) {
    && index + i < U32_MAX && chunkSize * i <= |input|
    && cipher(index + i, seeds(index + i), input[chunkSize * i..][..Min(chunkSize, |input| - chunkSize * i)]).Ok?
  }

  /** A stream is sealed exactly when every chunk of it can be. */
  lemma {:induction false} SealedExactly(cipher: Cipher, seeds: u32 -> bytes, chunkSize: nat, input: bytes, index: nat)
    requires chunkSize > 0 && index <= U32_MAX
    ensures SealFrom(cipher, seeds, chunkSize, input, index).Ok? <==>
            forall i: nat :: IsChunk(input, chunkSize, i) ==> Sealable(cipher, seeds, chunkSize, input, index, i)
    decreases |input|
  {
    hide Sealable, IsChunk;
    FirstChunk(cipher, seeds, chunkSize, input, index);
    if |input| > chunkSize && index < U32_MAX {
      var tail := input[chunkSize..];
      SealedExactly(cipher, seeds, chunkSize, tail, index + 1);
      forall i: nat
        ensures IsChunk(tail, chunkSize, i) <==> IsChunk(input, chunkSize, i + 1)
        ensures Sealable(cipher, seeds, chunkSize, tail, index + 1, i) <==> Sealable(cipher, seeds, chunkSize, input, index, i + 1)
      {
        NextChunk(cipher, seeds, chunkSize, input, index, i);
      }
      forall i: nat | i > 0
        ensures IsChunk(tail, chunkSize, i - 1) <==> IsChunk(input, chunkSize, i)
        ensures Sealable(cipher, seeds, chunkSize, tail, index + 1, i - 1) <==> Sealable(cipher, seeds, chunkSize, input, index, i)
      {
        NextChunk(cipher, seeds, chunkSize, input, index, i - 1);
      }
    } else {
      forall i: nat | i > 0
        ensures |input| <= chunkSize ==> !IsChunk(input, chunkSize, i)
      {
        if |input| <= chunkSize { OnlyChunk(input, chunkSize, i); }
      }
    }
  }

  lemma {:induction false} FirstChunk(cipher: Cipher, seeds: u32 -> bytes, chunkSize: nat, input: bytes, index: nat)
    requires chunkSize > 0 && index <= U32_MAX
    ensures IsChunk(input, chunkSize, 0)
    ensures Sealable(cipher, seeds, chunkSize, input, index, 0) <==>
            index < U32_MAX && cipher(index, seeds(index), input[..Min(chunkSize, |input|)]).Ok?
  {
    assert chunkSize * 0 == 0 && input[0..] == input;
  }

  lemma {:induction false} NextChunk(cipher: Cipher, seeds: u32 -> bytes, chunkSize: nat, input: bytes, index: nat, i: nat)
    requires chunkSize > 0 && index < U32_MAX && |input| > chunkSize
    ensures IsChunk(input[chunkSize..], chunkSize, i) <==> IsChunk(input, chunkSize, i + 1)
    ensures Sealable(cipher, seeds, chunkSize, input[chunkSize..], index + 1, i) <==> Sealable(cipher, seeds, chunkSize, input, index, i + 1)
  {
    assert chunkSize * (i + 1) == chunkSize * i + chunkSize;
    if chunkSize * (i + 1) <= |input| { assert input[chunkSize..][chunkSize * i..] == input[chunkSize * (i + 1)..]; }
    if i == 0 { assert chunkSize * 0 == 0; }
  }

  lemma {:induction false} OnlyChunk(input: bytes, chunkSize: nat, i: nat)
    requires |input| <= chunkSize && i > 0
    ensures !IsChunk(input, chunkSize, i)
  {
    MulMonotone(chunkSize, 1, i);
  }

  // ---- The loops -------------------------------------------------------------------

  /** Read until the buffer is full or the input ends; a short read is not the end. */
  method Fill(source: Source, buf: array<byte>) returns (r: Result<nat, StreamError>)
    modifies source, buf
    ensures r.Ok? ==>
              && r.value == Min(buf.Length, |old(source.rest)|)
              && buf[..r.value] == old(source.rest)[..r.value]
              && source.rest == old(source.rest)[r.value..]
    ensures r.Ok? ==> FirstRefusal(source.answers) == FirstRefusal(old(source.answers))
    ensures r.Err? ==> r.error.Host? && FirstRefusal(old(source.answers)) == Some(r.error.host)
  {
    var filled := 0;
    while filled < buf.Length
      invariant 0 <= filled <= buf.Length && filled <= |old(source.rest)|
      invariant buf[..filled] == old(source.rest)[..filled]
      invariant source.rest == old(source.rest)[filled..]
      invariant FirstRefusal(source.answers) == FirstRefusal(old(source.answers))
      decreases buf.Length - filled
    {
      ghost var whole := old(source.rest);
      var got := source.Read(buf, filled);
      if got.Err? {
        return Err(Host(got.error));
      }
      if got.value == 0 {
        break;
      }
      assert buf[..filled + got.value] == buf[..filled] + buf[filled..filled + got.value];
      TakenSoFar(whole, filled, got.value);
      filled := filled + got.value;
    }
    return Ok(filled);
  }

  lemma {:induction false} TakenSoFar(whole: bytes, a: nat, b: nat)
    requires a + b <= |whole|
    ensures whole[..a + b] == whole[..a] + whole[a..][..b] && whole[a + b..] == whole[a..][b..]
  {
  }

  lemma {:induction false} LeavesOneMore(frames: seq<Sealed>, s: Sealed)
    requires |frames| < U32_MAX
    ensures LeavesFrom(frames + [s], 0) == LeavesFrom(frames, 0) + [LeafOf(|frames|, s)]
  {
  }

  /** A run that has sealed `frames` already and continues with `r`. */
  function Continued(frames: seq<Sealed>, r: Result<seq<Sealed>, StreamError>): Result<seq<Sealed>, StreamError> {
    match r
    case Err(e) => Err(e)
    case Ok(more) => Ok(frames + more)
  }

  /** What is still to come after `frames`, each of them full. */
  predicate Pending(cipher: Cipher, seeds: u32 -> bytes, chunkSize: nat, input: bytes, frames: seq<Sealed>, rest: bytes)
    requires chunkSize > 0
  {
    && |frames| <= U32_MAX
    && SealFrom(cipher, seeds, chunkSize, input, 0) ==
       if frames != [] && rest == [] then Ok(frames)
       else Continued(frames, SealFrom(cipher, seeds, chunkSize, rest, |frames|))
  }

  lemma {:induction false} PendingStep(cipher: Cipher, seeds: u32 -> bytes, chunkSize: nat, input: bytes, frames: seq<Sealed>, rest: bytes, s: Sealed)
    requires chunkSize > 0 && Pending(cipher, seeds, chunkSize, input, frames, rest)
    requires frames == [] || rest != []
    requires cipher(|frames|, seeds(|frames|), rest[..Min(chunkSize, |rest|)]) == Ok(s)
    ensures |frames| == U32_MAX ==> SealFrom(cipher, seeds, chunkSize, input, 0) == Err(TooLarge)
    ensures |frames| < U32_MAX && |rest| < chunkSize ==>
              SealFrom(cipher, seeds, chunkSize, input, 0) == Ok(frames + [s])
    ensures |frames| < U32_MAX && |rest| >= chunkSize ==>
              Pending(cipher, seeds, chunkSize, input, frames + [s], rest[chunkSize..])
  {
    if |frames| < U32_MAX && |rest| > chunkSize {
      var tail := SealFrom(cipher, seeds, chunkSize, rest[chunkSize..], |frames| + 1);
      if tail.Ok? { Regroup(frames, [s], tail.value); }
    }
  }

  /** Hand one frame to the sink: the nonce, then ciphertext and tag. */
  method Deliver(sink: Sink, s: Sealed) returns (r: Result<(), HostError>)
    modifies sink
    ensures r.Ok? ==> sink.out == old(sink.out) + FrameBytes(s)
    ensures r.Ok? ==> FirstRefusal(sink.answers) == FirstRefusal(old(sink.answers))
    ensures r.Err? ==> FirstRefusal(old(sink.answers)) == Some(r.error)
  {
    r := sink.Write(s.nonce);
    if r.Ok? {
      r := sink.Write(s.ct + s.tag);
      assert FrameBytes(s) == s.nonce + (s.ct + s.tag);
    }
  }

  /**
    Encrypt a stream in chunks. Unless the host fails, the outcome is the one `SealFrom` gives
    for the whole input, however the source split its reads.
   */
  method SealChunks(cipher: Cipher, seeds: u32 -> bytes, chunkSize: u32, source: Source, sink: Sink)
    returns (r: Result<StreamResult, StreamError>)
    requires LengthPreserving(cipher)
    modifies source, sink
    ensures chunkSize == 0 ==> r == Err(Crypto(BadLength)) && unchanged(source) && unchanged(sink)
    ensures chunkSize > 0 && !(r.Err? && r.error.Host?) ==>
              match SealFrom(cipher, seeds, chunkSize, old(source.rest), 0)
              case Err(e) => r == Err(e)
              case Ok(frames) =>
                && 0 < |frames| <= U32_MAX && |old(source.rest)| <= U64_MAX
                && r == Ok(StreamResult(|old(source.rest)|, |frames|, RootOf(LeavesFrom(frames, 0))))
                && sink.out == old(sink.out) + Concat(frames)
    ensures r.Err? && r.error.Host? ==>
              Some(r.error.host) == FirstRefusal(old(source.answers)) || Some(r.error.host) == FirstRefusal(old(sink.answers))
  {
    hide SealFrom, Concat, FrameBytes, RootOf, Levels, Pending, LengthPreserving, FirstRefusal, LeavesFrom, LeafOf;
    if chunkSize == 0 {
      return Err(Crypto(BadLength));
    }
    var capacity: nat := chunkSize;
    var plaintext := new byte[capacity];
    ghost var input, frames := source.rest, [];
    var leaves: seq<Hash>, totalLen: nat, index: nat := [], 0, 0;
    StartPending(cipher, seeds, capacity, input);
    assert leaves == LeavesFrom(frames, 0);
    while true
      invariant index == |frames| <= U32_MAX && leaves == LeavesFrom(frames, 0)
      invariant totalLen + |source.rest| == |input| && totalLen <= U32_MAX * index
      invariant Pending(cipher, seeds, capacity, input, frames, source.rest)
      invariant sink.out == old(sink.out) + Concat(frames)
      invariant FirstRefusal(source.answers) == FirstRefusal(old(source.answers))
      invariant FirstRefusal(sink.answers) == FirstRefusal(old(sink.answers))
      decreases |source.rest|
    {
      ghost var rest := source.rest;
      var got := Fill(source, plaintext);
      if got.Err? {
        return Err(got.error);
      }
      var filled := got.value;
      if filled == 0 && index > 0 {
        EndPending(cipher, seeds, capacity, input, frames);
        break;
      }
      var piece := plaintext[..filled];
      var sealed := cipher(index, seeds(index), piece);
      if sealed.Err? {
        FailPending(cipher, seeds, capacity, input, frames, rest);
        return Err(Crypto(sealed.error));
      }
      var s := sealed.value;
      var wrote := Deliver(sink, s);
      if wrote.Err? {
        return Err(Host(wrote.error));
      }
      PendingStep(cipher, seeds, capacity, input, frames, rest, s);
      ConcatAppend(frames, [s]);
      ConcatOfOne(s);
      Regroup(old(sink.out), Concat(frames), FrameBytes(s));
      leaves := leaves + [LeafOf(index, s)];
      totalLen := totalLen + filled;
      if index == U32_MAX {
        return Err(TooLarge);
      }
      LeavesOneMore(frames, s);
      frames := frames + [s];
      index := index + 1;
      if filled < capacity {
        break;
      }
    }
    var built := MerkleTree.Build(leaves);
    var tree := built.value;
    var root := tree.Root();
    return Ok(StreamResult(totalLen, index, root));
  }

  lemma {:induction false} StartPending(cipher: Cipher, seeds: u32 -> bytes, chunkSize: nat, input: bytes)
    requires chunkSize > 0
    ensures Pending(cipher, seeds, chunkSize, input, [], input) && Concat([]) == []
  {
    var r := SealFrom(cipher, seeds, chunkSize, input, 0);
    if r.Ok? { assert [] + r.value == r.value; }
  }

  lemma {:induction false} EndPending(cipher: Cipher, seeds: u32 -> bytes, chunkSize: nat, input: bytes, frames: seq<Sealed>)
    requires chunkSize > 0 && frames != [] && Pending(cipher, seeds, chunkSize, input, frames, [])
    ensures SealFrom(cipher, seeds, chunkSize, input, 0) == Ok(frames)
  {
  }

  lemma {:induction false} FailPending(cipher: Cipher, seeds: u32 -> bytes, chunkSize: nat, input: bytes, frames: seq<Sealed>, rest: bytes)
    requires chunkSize > 0 && (frames == [] || rest != []) && Pending(cipher, seeds, chunkSize, input, frames, rest)
    requires cipher(|frames|, seeds(|frames|), rest[..Min(chunkSize, |rest|)]).Err?
    ensures SealFrom(cipher, seeds, chunkSize, input, 0)
         == Err(Crypto(cipher(|frames|, seeds(|frames|), rest[..Min(chunkSize, |rest|)]).error))
  {
  }
}
