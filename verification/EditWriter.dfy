/** Assembling a revision from kept and newly sealed frames. */
module EditWriter {
  import opened Bytes
  import opened Hashing
  import opened Tlv
  import opened MerkleLevels
  import opened MerkleTrees
  import opened Layouts
  import opened Frames
  import opened Content
  import opened Editing
  import opened Sessions

  datatype Piece = Keep(frame: bytes) | Seal(plaintext: bytes, seed: bytes)

  datatype EditPlan = EditPlan(
    fileId: id16, chunkSize: u32, containerVersion: u16, coreHash: digest, baseCounter: u64, baseRoot: digest,
    certifiedBy: bytes, journalHead: Option<JournalHead>, pieces: seq<Piece>)

  datatype Unsigned = Unsigned(desc: ContentDesc, transcript: bytes, editionDigest: digest, payload: bytes)

  datatype EditWriteError =
    | Format(format: FormatError)
    | Crypto(crypto: CryptoError)
    | CounterExhausted
    | BadFrame(index: u32)
    | BadLayout(index: u32)

  /** The hashes a plan needs: SHA-256, and the bytes of a tree digest. */
  datatype Hashes = Hashes(sha256: bytes -> digest, treeBytes: Hash -> digest)

  // ---- The frames of a revision ----------------------------------------------------------

  function FrameOf(cipher: Cipher, index: u32, piece: Piece): Result<Sealed, EditWriteError> {
    match piece
    case Keep(frame) =>
      if |frame| < NONCE_LEN + TAG_LEN then Err(BadFrame(index)) else Ok(SplitFrame(frame))
    case Seal(plaintext, seed) =>
      match cipher(index, seed, plaintext)
      case Err(e) => Err(Crypto(e))
      case Ok(s) => Ok(s)
  }

  /** A chunk that is not last must be full, and no chunk may be too long. */
  predicate Fits(len: nat, chunk: nat, last: bool) {
    len <= chunk && (last || len == chunk)
  }

  function FramesFrom(cipher: Cipher, chunk: nat, pieces: seq<Piece>, index: nat): Result<seq<Sealed>, EditWriteError>
    requires index <= |pieces|
    decreases |pieces| - index
  {
    if index == |pieces| then Ok([])
    else if index > U32_MAX then Err(Format(OffsetOverflow))
    else
      match FrameOf(cipher, index, pieces[index])
      case Err(e) => Err(e)
      case Ok(s) =>
        if !Fits(|s.ct|, chunk, index + 1 == |pieces|) then Err(BadLayout(index))
        else
          match FramesFrom(cipher, chunk, pieces, index + 1)
          case Err(e) => Err(e)
          case Ok(frames) => Ok([s] + frames)
  }

  function CtTotal(frames: seq<Sealed>): nat {
    if frames == [] then 0 else CtTotal(frames[..|frames| - 1]) + |frames[|frames| - 1].ct|
  }

  // ---- The revision ------------------------------------------------------------------------

  /** What follows the loop over the pieces. */
  function Describe(hashes: Hashes, plan: EditPlan, frames: seq<Sealed>): Result<Unsigned, EditWriteError>
    requires |frames| > 0 && CtTotal(frames) <= U64_MAX
  {
    if |frames| > U32_MAX then Err(Crypto(BadLength))
    else
      var root := hashes.treeBytes(RootOf(LeavesFrom(frames, 0)));
      match NextCounter(plan.baseCounter)
      case None => Err(CounterExhausted)
      case Some(counter) =>
        var head := SessionStep(hashes.sha256, SessionStart(hashes.sha256, plan.fileId, plan.baseCounter, plan.baseRoot),
                                Save(1, root, CtTotal(frames)));
        var desc := ContentDesc(CtTotal(frames), |frames|, root, counter, None,
                                Some(UnsignedEditor(head, plan.journalHead, plan.certifiedBy)));
        match CheckAgainstChunkSize(desc, plan.chunkSize)
        case Err(e) => Err(Format(e))
        case Ok(_) =>
          match EncodeBody(desc, plan.containerVersion)
          case Err(e) => Err(Format(e))
          case Ok(body) =>
            match EditorTranscript(plan.coreHash, body)
            case Err(e) => Err(Format(e))
            case Ok(transcript) => Ok(Unsigned(desc, transcript, hashes.sha256(transcript), Concat(frames)))
  }

  function Prepared(cipher: Cipher, hashes: Hashes, plan: EditPlan): Result<Unsigned, EditWriteError>
    requires LengthPreserving(cipher)
  {
    if plan.pieces == [] then Err(BadLayout(0))
    else
      match FramesFrom(cipher, plan.chunkSize, plan.pieces, 0)
      case Err(e) => Err(e)
      case Ok(frames) =>
        FramesFit(cipher, plan.chunkSize, plan.pieces, 0);
        TotalFits(frames, plan.chunkSize);
        Describe(hashes, plan, frames)
  }

  /** One frame per piece, each well formed and of an admitted length. */
  lemma {:induction false} FramesFit(cipher: Cipher, chunk: nat, pieces: seq<Piece>, index: nat)
    requires LengthPreserving(cipher) && index <= |pieces| && FramesFrom(cipher, chunk, pieces, index).Ok?
    ensures var frames := FramesFrom(cipher, chunk, pieces, index).value;
            && |frames| == |pieces| - index
            && (|frames| > 0 ==> |pieces| <= U32_MAX + 1)
            && forall i :: 0 <= i < |frames| ==>
                 WellFormed(frames[i]) && Fits(|frames[i].ct|, chunk, index + i + 1 == |pieces|)
    decreases |pieces| - index
  {
    if index < |pieces| {
      FramesFit(cipher, chunk, pieces, index + 1);
      var frames := FramesFrom(cipher, chunk, pieces, index).value;
      assert frames == [frames[0]] + FramesFrom(cipher, chunk, pieces, index + 1).value;
    }
  }

  /** What a piece becomes at its place: a kept frame itself, a new text whatever the cipher gives for it. */
  predicate PieceGives(cipher: Cipher, index: nat, piece: Piece, s: Sealed) {
    match piece
    case Keep(frame) => |frame| >= 40 && s == Sealed(frame[..24], frame[24..|frame| - 16], frame[|frame| - 16..])
    case Seal(plaintext, seed) => index <= U32_MAX && cipher(index, seed, plaintext) == Ok(s)
  }

  /** The frames of a revision: one per piece, all but the last of a full chunk, none longer. */
  lemma {:induction false} FramesMean(cipher: Cipher, chunk: nat, pieces: seq<Piece>, index: nat, frames: seq<Sealed>)
    requires index <= |pieces|
    ensures FramesFrom(cipher, chunk, pieces, index) == Ok(frames) <==>
            && |frames| == |pieces| - index && (frames != [] ==> |pieces| <= U32_MAX + 1)
            && forall i :: 0 <= i < |frames| ==>
                 && PieceGives(cipher, index + i, pieces[index + i], frames[i])
                 && |frames[i].ct| <= chunk && (index + i + 1 < |pieces| ==> |frames[i].ct| == chunk)
    decreases |pieces| - index
  {
    hide PieceGives, FrameOf;
    if index < |pieces| && |frames| == |pieces| - index {
      FramesMean(cipher, chunk, pieces, index + 1, frames[1..]);
      assert frames == [frames[0]] + frames[1..];
      if index <= U32_MAX { FrameMeans(cipher, index, pieces[index], frames[0]); }
      assert forall i :: 0 < i < |frames| ==> frames[i] == frames[1..][i - 1] && pieces[index + i] == pieces[index + 1 + (i - 1)];
    } else if index < |pieces| && FramesFrom(cipher, chunk, pieces, index).Ok? {
      FramesCount(cipher, chunk, pieces, index);
    }
  }

  lemma {:induction false} FramesCount(cipher: Cipher, chunk: nat, pieces: seq<Piece>, index: nat)
    requires index <= |pieces| && FramesFrom(cipher, chunk, pieces, index).Ok?
    ensures |FramesFrom(cipher, chunk, pieces, index).value| == |pieces| - index
    decreases |pieces| - index
  {
    if index < |pieces| { FramesCount(cipher, chunk, pieces, index + 1); }
  }

  lemma {:induction false} FrameMeans(cipher: Cipher, index: u32, piece: Piece, s: Sealed)
    ensures FrameOf(cipher, index, piece) == Ok(s) <==> PieceGives(cipher, index, piece, s)
  {
  }

  lemma {:induction false} CtTotalBound(frames: seq<Sealed>, chunk: nat)
    requires forall i :: 0 <= i < |frames| ==> |frames[i].ct| <= chunk
    ensures CtTotal(frames) <= chunk * |frames|
  {
    if frames != [] {
      var n := |frames| - 1;
      CtTotalBound(frames[..n], chunk);
      assert chunk * |frames| == chunk * n + chunk;
    }
  }

  lemma {:induction false} TotalFits(frames: seq<Sealed>, chunk: nat)
    requires chunk <= U32_MAX && |frames| <= U32_MAX + 1
    requires forall i :: 0 <= i < |frames| ==> |frames[i].ct| <= chunk
    ensures CtTotal(frames) <= U64_MAX
  {
    CtTotalBound(frames, chunk);
    MulMonotone(chunk, |frames|, U32_MAX + 1);
  }

  lemma {:induction false} FullTotal(frames: seq<Sealed>, chunk: nat)
    requires forall i :: 0 <= i < |frames| ==> |frames[i].ct| == chunk
    ensures CtTotal(frames) == chunk * |frames|
  {
    if frames != [] {
      var n := |frames| - 1;
      FullTotal(frames[..n], chunk);
      assert chunk * |frames| == chunk * n + chunk;
    }
  }

  // ---- What a successful preparation guarantees ----------------------------------------------

  /** A successful preparation tiles the payload with one frame per piece. */
  lemma {:induction false} PreparedTiles(cipher: Cipher, hashes: Hashes, plan: EditPlan)
    requires LengthPreserving(cipher) && Prepared(cipher, hashes, plan).Ok?
    ensures FramesFrom(cipher, plan.chunkSize, plan.pieces, 0).Ok?
    ensures var u := Prepared(cipher, hashes, plan).value;
            var frames := FramesFrom(cipher, plan.chunkSize, plan.pieces, 0).value;
            && |frames| == |plan.pieces| == u.desc.chunkCount
            && ValidChunkSize(plan.chunkSize)
            && Tiles(frames, plan.chunkSize, u.desc.totalLen)
            && u.payload == Concat(frames)
            && u.desc.treeRoot == hashes.treeBytes(RootOf(LeavesFrom(frames, 0)))
            && u.desc.versionCounter == plan.baseCounter + 1
  {
    hide Prepared, RootOf, LeavesFrom, Concat, RequiredChunks, IsPowerOfTwo, LengthPreserving, FramesFrom;
    PreparedIs(cipher, hashes, plan);
    var frames := FramesFrom(cipher, plan.chunkSize, plan.pieces, 0).value;
    FramesFit(cipher, plan.chunkSize, plan.pieces, 0);
    var u := Prepared(cipher, hashes, plan).value;
    RequiredChunksMeans(u.desc.totalLen, plan.chunkSize, u.desc.chunkCount);
    FullTotal(frames[..|frames| - 1], plan.chunkSize);
  }

  /** What a successful preparation consists of. */
  lemma {:induction false} PreparedIs(cipher: Cipher, hashes: Hashes, plan: EditPlan)
    requires LengthPreserving(cipher) && Prepared(cipher, hashes, plan).Ok?
    ensures FramesFrom(cipher, plan.chunkSize, plan.pieces, 0).Ok?
    ensures var u := Prepared(cipher, hashes, plan).value;
            var frames := FramesFrom(cipher, plan.chunkSize, plan.pieces, 0).value;
            && 0 < |frames| == |plan.pieces| == u.desc.chunkCount
            && u.desc.totalLen == CtTotal(frames)
            && Layout(plan.chunkSize, u.desc.chunkCount, u.desc.totalLen, 0).Valid()
            && u.payload == Concat(frames)
            && u.desc.treeRoot == hashes.treeBytes(RootOf(LeavesFrom(frames, 0)))
            && u.desc.versionCounter == plan.baseCounter + 1
            && u.desc.footerOffset == None
            && EncodeBody(u.desc, plan.containerVersion).Ok?
            && EditorTranscript(plan.coreHash, EncodeBody(u.desc, plan.containerVersion).value) == Ok(u.transcript)
            && u.editionDigest == hashes.sha256(u.transcript)
            && u.desc.editor == Some(EditorSignature(
                 RsaPssSha256,
                 SessionStep(hashes.sha256, SessionStart(hashes.sha256, plan.fileId, plan.baseCounter, plan.baseRoot),
                             Save(1, u.desc.treeRoot, u.desc.totalLen)),
                 plan.journalHead, plan.certifiedBy, Zeros(256)))
  {
    hide EncodeBody, EditorTranscript, RootOf, LeavesFrom, Concat, RequiredChunks, IsPowerOfTwo, SessionStep, SessionStart, LengthPreserving, FramesFrom, CtTotal;
    FramesFit(cipher, plan.chunkSize, plan.pieces, 0);
    TotalFits(FramesFrom(cipher, plan.chunkSize, plan.pieces, 0).value, plan.chunkSize);
  }

  /**
    The record that will be signed: the head of the session consisting of exactly this save on its
    base, the plan's journal and certificate, a signature of zeros; and the digest of its transcript.
   */
  lemma {:induction false} PreparedRecord(cipher: Cipher, hashes: Hashes, plan: EditPlan)
    requires LengthPreserving(cipher) && Prepared(cipher, hashes, plan).Ok?
    ensures var u := Prepared(cipher, hashes, plan).value;
            && u.desc.editor.Some? && u.desc.footerOffset == None && u.desc.versionCounter == plan.baseCounter + 1
            && u.desc.editor.value.sessionHead
               == Head(hashes.sha256, History(plan.fileId, plan.baseCounter, plan.baseRoot, [Save(1, u.desc.treeRoot, u.desc.totalLen)]))
            && u.desc.editor.value.sigAlg == RsaPssSha256 && u.desc.editor.value.journalHead == plan.journalHead
            && u.desc.editor.value.certifiedBy == plan.certifiedBy && u.desc.editor.value.signature == Zeros(256)
            && EncodeBody(u.desc, plan.containerVersion).Ok?
            && EditorTranscript(plan.coreHash, EncodeBody(u.desc, plan.containerVersion).value) == Ok(u.transcript)
            && u.editionDigest == hashes.sha256(u.transcript)
  {
    hide Prepared, EncodeBody, EditorTranscript, FramesFrom, Concat, CtTotal, RootOf, LengthPreserving, Head, SessionStep, SessionStart;
    PreparedIs(cipher, hashes, plan);
    var u := Prepared(cipher, hashes, plan).value;
    OneSave(hashes.sha256, plan.fileId, plan.baseCounter, plan.baseRoot, Save(1, u.desc.treeRoot, u.desc.totalLen));
  }

  lemma {:induction false} OneSave(hash: bytes -> digest, fileId: id16, counter: u64, root: digest, save: Save)
    ensures SessionStep(hash, SessionStart(hash, fileId, counter, root), save) == Head(hash, History(fileId, counter, root, [save]))
  {
    hide StartPreimage, StepPreimage;
    var h := History(fileId, counter, root, [save]);
    assert h.saves[..0] == [];
    var base := h.(saves := h.saves[..0]);
    assert base.saves == [] && base == History(fileId, counter, root, []);
    assert Head(hash, base) == SessionStart(hash, fileId, counter, root);
  }

  /** Every piece has become its frame, in order, and the frames are the payload. */
  lemma {:induction false} PiecesBecomeFrames(cipher: Cipher, hashes: Hashes, plan: EditPlan) returns (frames: seq<Sealed>)
    requires LengthPreserving(cipher) && Prepared(cipher, hashes, plan).Ok?
    ensures |frames| == |plan.pieces| <= U32_MAX && Prepared(cipher, hashes, plan).value.payload == Concat(frames)
    ensures forall i :: 0 <= i < |frames| ==> PieceGives(cipher, i, plan.pieces[i], frames[i])
  {
    hide Prepared, FramesFrom, Concat, CtTotal, RootOf, LengthPreserving, PieceGives, SessionStep, SessionStart, EncodeBody, EditorTranscript;
    PreparedIs(cipher, hashes, plan);
    frames := FramesFrom(cipher, plan.chunkSize, plan.pieces, 0).value;
    FramesMean(cipher, plan.chunkSize, plan.pieces, 0, frames);
  }

  /**
    The layout is valid, every frame of the payload lies exactly in its span, and the root is the
    one of the tree over the leaves recomputed from those bytes. All spans exist as soon as the
    payload ends below 2^64.
   */
  lemma {:induction false} PreparedFitsLayout(cipher: Cipher, hashes: Hashes, plan: EditPlan, payloadOffset: u64)
    requires LengthPreserving(cipher) && Prepared(cipher, hashes, plan).Ok?
    ensures var u := Prepared(cipher, hashes, plan).value;
            var l := Layout(plan.chunkSize, u.desc.chunkCount, u.desc.totalLen, payloadOffset);
            && l.Valid() && l.chunkSize > 0
            && exists leaves: seq<Hash> ::
                 && |leaves| == l.chunkCount > 0
                 && u.desc.treeRoot == hashes.treeBytes(RootOf(leaves))
                 && forall i: u32 :: i < l.chunkCount ==>
                      && (payloadOffset + |u.payload| <= U64_MAX ==> l.CiphertextSpan(i).Ok?)
                      && (l.CiphertextSpan(i).Ok? ==> LeafInSpan(u.payload, l, i, leaves[i]))
  {
    hide Prepared, FramesFrom, RootOf, Concat, RequiredChunks, IsPowerOfTwo, LengthPreserving, FrameBytes;
    PreparedTiles(cipher, hashes, plan);
    var u := Prepared(cipher, hashes, plan).value;
    var frames := FramesFrom(cipher, plan.chunkSize, plan.pieces, 0).value;
    TilesGivesLayout(frames, plan.chunkSize, u.desc.totalLen, payloadOffset);
    var l := Layout(plan.chunkSize, u.desc.chunkCount, u.desc.totalLen, payloadOffset);
    var leaves := LeavesFrom(frames, 0);
    forall i: u32 | i < l.chunkCount
      ensures payloadOffset + |u.payload| <= U64_MAX ==> l.CiphertextSpan(i).Ok?
      ensures l.CiphertextSpan(i).Ok? ==> LeafInSpan(u.payload, l, i, leaves[i])
    {
      LeafFillsSpan(frames, l, i);
    }
  }

  /** Pieces that keep every frame of a tiled file. */
  function KeepAll(frames: seq<Sealed>): seq<Piece> {
    seq(|frames|, i requires 0 <= i < |frames| => Keep(FrameBytes(frames[i])))
  }

  lemma {:induction false} KeptFrames(cipher: Cipher, chunk: nat, frames: seq<Sealed>, totalLen: nat, index: nat)
    requires Tiles(frames, chunk, totalLen) && |frames| <= U32_MAX && index <= |frames|
    ensures FramesFrom(cipher, chunk, KeepAll(frames), index) == Ok(frames[index..])
    decreases |frames| - index
  {
    if index < |frames| {
      KeptFrames(cipher, chunk, frames, totalLen, index + 1);
      SplitOfFrame(frames[index]);
      assert frames[index..] == [frames[index]] + frames[index + 1..];
    } else {
      assert frames[index..] == [];
    }
  }

  lemma {:induction false} TilesTotal(frames: seq<Sealed>, chunk: nat, totalLen: nat)
    requires Tiles(frames, chunk, totalLen)
    ensures CtTotal(frames) == totalLen
  {
    FullTotal(frames[..|frames| - 1], chunk);
  }

  /** What the container, apart from its frames, must be for a revision to be described. */
  predicate Describable(plan: EditPlan) {
    && ValidChunkSize(plan.chunkSize) && plan.baseCounter < U64_MAX
    && |plan.certifiedBy| <= MAX_CERTIFIED_BY_LEN && plan.containerVersion >= FIRST_EDITING_VERSION
  }

  lemma {:induction false} DescribeSucceeds(hashes: Hashes, plan: EditPlan, frames: seq<Sealed>, totalLen: u64)
    requires 0 < |frames| <= U32_MAX && Tiles(frames, plan.chunkSize, totalLen) && CtTotal(frames) == totalLen
    ensures Describe(hashes, plan, frames).Ok? <==> Describable(plan)
  {
    hide RootOf, LeavesFrom, Concat, RequiredChunks, IsPowerOfTwo, SessionStep, SessionStart, Cut, Emit, CtTotal, Tiles;
    if ValidChunkSize(plan.chunkSize) { TilesGivesLayout(frames, plan.chunkSize, totalLen, 0); }
    if Describable(plan) {
      var root := hashes.treeBytes(RootOf(LeavesFrom(frames, 0)));
      var head := SessionStep(hashes.sha256, SessionStart(hashes.sha256, plan.fileId, plan.baseCounter, plan.baseRoot),
                              Save(1, root, totalLen));
      var desc := ContentDesc(totalLen, |frames|, root, plan.baseCounter + 1, None,
                              Some(UnsignedEditor(head, plan.journalHead, plan.certifiedBy)));
      CutOfEncoded(desc, plan.containerVersion);
    }
  }

  /**
    Keeping every frame of a file succeeds exactly when its description can be written again, and
    then reproduces its payload, root, length and count.
   */
  lemma {:induction false} KeepingAllReproduces(cipher: Cipher, hashes: Hashes, plan: EditPlan, frames: seq<Sealed>, totalLen: u64)
    requires LengthPreserving(cipher) && |frames| <= U32_MAX && Tiles(frames, plan.chunkSize, totalLen)
    requires plan.pieces == KeepAll(frames)
    ensures Prepared(cipher, hashes, plan).Ok? <==> Describable(plan)
    ensures Prepared(cipher, hashes, plan).Ok? ==>
              var u := Prepared(cipher, hashes, plan).value;
              && u.payload == Concat(frames)
              && u.desc.treeRoot == hashes.treeBytes(RootOf(LeavesFrom(frames, 0)))
              && u.desc.totalLen == totalLen && u.desc.chunkCount == |frames|
  {
    hide FramesFrom, RootOf, Concat, LeavesFrom, LengthPreserving, Describe, Describable, CtTotal;
    KeptFrames(cipher, plan.chunkSize, frames, totalLen, 0);
    assert frames[0..] == frames && |plan.pieces| == |frames| > 0;
    TilesTotal(frames, plan.chunkSize, totalLen);
    DescribeSucceeds(hashes, plan, frames, totalLen);
    if Prepared(cipher, hashes, plan).Ok? { PreparedIs(cipher, hashes, plan); }
  }

  // ---- The loops ---------------------------------------------------------------------------

  /** The loop over the pieces, continuing with the frames already made. */
  predicate Growing(cipher: Cipher, chunk: nat, pieces: seq<Piece>, done: seq<Sealed>)
  {
    && |done| <= |pieces|
    && FramesFrom(cipher, chunk, pieces, 0) ==
       match FramesFrom(cipher, chunk, pieces, |done|)
       case Err(e) => Err(e)
       case Ok(more) => Ok(done + more)
  }

  lemma {:induction false} GrowingStep(cipher: Cipher, chunk: nat, pieces: seq<Piece>, done: seq<Sealed>)
    requires Growing(cipher, chunk, pieces, done)
    ensures |done| == |pieces| ==> FramesFrom(cipher, chunk, pieces, 0) == Ok(done)
    ensures |done| < |pieces| && |done| > U32_MAX ==> FramesFrom(cipher, chunk, pieces, 0) == Err(Format(OffsetOverflow))
    ensures |done| < |pieces| && |done| <= U32_MAX ==>
              var f := FrameOf(cipher, |done|, pieces[|done|]);
              if f.Err? then FramesFrom(cipher, chunk, pieces, 0) == Err(f.error)
              else if !Fits(|f.value.ct|, chunk, |done| + 1 == |pieces|) then
                FramesFrom(cipher, chunk, pieces, 0) == Err(BadLayout(|done|))
              else Growing(cipher, chunk, pieces, done + [f.value])
  {
    if |done| == |pieces| {
      assert done + [] == done;
    } else if |done| <= U32_MAX {
      var f := FrameOf(cipher, |done|, pieces[|done|]);
      var more := FramesFrom(cipher, chunk, pieces, |done| + 1);
      if f.Ok? && more.Ok? { Regroup(done, [f.value], more.value); }
    }
  }

  lemma {:induction false} GrowingStarts(cipher: Cipher, chunk: nat, pieces: seq<Piece>)
    ensures Growing(cipher, chunk, pieces, [])
  {
    var r := FramesFrom(cipher, chunk, pieces, 0);
    if r.Ok? { assert [] + r.value == r.value; }
  }

  /** Leaves, payload and plaintext length collected by the loop over the pieces. */
  datatype Collected = Collected(leaves: seq<Hash>, payload: bytes, totalLen: nat)

  method CollectPieces(cipher: Cipher, chunk: u32, pieces: seq<Piece>) returns (r: Result<Collected, EditWriteError>)
    requires LengthPreserving(cipher)
    ensures match FramesFrom(cipher, chunk, pieces, 0)
            case Err(e) => r == Err(e)
            case Ok(frames) =>
              |frames| <= U32_MAX + 1 && r == Ok(Collected(LeavesFrom(frames, 0), Concat(frames), CtTotal(frames)))
  {
    hide FramesFrom, Growing, Concat, LengthPreserving, SplitFrame, FrameBytes, FrameOf, CtTotal;
    var count := |pieces|;
    ghost var done: seq<Sealed> := [];
    var leaves: seq<Hash>, payload: bytes, totalLen: nat, position := [], [], 0, 0;
    GrowingStarts(cipher, chunk, pieces);
    NothingCollected();
    while position < count
      invariant position == |done| <= count && position <= U32_MAX + 1
      invariant Growing(cipher, chunk, pieces, done)
      invariant leaves == LeavesFrom(done, 0) && payload == Concat(done) && totalLen == CtTotal(done)
    {
      GrowingStep(cipher, chunk, pieces, done);
      if position > U32_MAX {
        return Err(Format(OffsetOverflow));
      }
      var made := FrameOf(cipher, position, pieces[position]);
      if made.Err? {
        return Err(made.error);
      }
      var s := made.value;
      leaves := leaves + [LeafOf(position, s)];
      payload := payload + FrameBytes(s);
      var len := |s.ct|;
      if (position + 1 != count && len != chunk) || len > chunk {
        return Err(BadLayout(position));
      }
      totalLen := totalLen + len;
      CollectedOneMore(done, s);
      done := done + [s];
      assert leaves == LeavesFrom(done, 0);
      position := position + 1;
    }
    GrowingStep(cipher, chunk, pieces, done);
    return Ok(Collected(leaves, payload, totalLen));
  }

  lemma {:induction false} NothingCollected()
    ensures Concat([]) == [] && CtTotal([]) == 0
  {
  }

  lemma {:induction false} CollectedOneMore(frames: seq<Sealed>, s: Sealed)
    ensures Concat(frames + [s]) == Concat(frames) + FrameBytes(s)
    ensures CtTotal(frames + [s]) == CtTotal(frames) + |s.ct|
  {
    hide FrameBytes;
    ConcatAppend(frames, [s]);
    ConcatOfOne(s);
    assert (frames + [s])[..|frames|] == frames;
  }

  /** Assemble an unsigned revision. */
  method Prepare(cipher: Cipher, hashes: Hashes, plan: EditPlan) returns (r: Result<Unsigned, EditWriteError>)
    requires LengthPreserving(cipher)
    ensures r == Prepared(cipher, hashes, plan)
  {
    hide FramesFrom, Concat, RootOf, LengthPreserving, EncodeBody, Cut, CheckAgainstChunkSize, SessionStep, SessionStart, CtTotal;
    if |plan.pieces| == 0 {
      return Err(BadLayout(0));
    }
    var loop := CollectPieces(cipher, plan.chunkSize, plan.pieces);
    if loop.Err? {
      return Err(loop.error);
    }
    var Collected(leaves, payload, totalLen) := loop.value;
    FramesFit(cipher, plan.chunkSize, plan.pieces, 0);
    TotalFits(FramesFrom(cipher, plan.chunkSize, plan.pieces, 0).value, plan.chunkSize);
    var built := BuildLevels(leaves);
    if built.Err? {
      return Err(Crypto(built.error));
    }
    var tree := new MerkleTree.FromLevels(built.value);
    var treeRoot := tree.Root();
    var root := hashes.treeBytes(treeRoot);
    var counter := NextCounter(plan.baseCounter);
    if counter.None? {
      return Err(CounterExhausted);
    }
    var head := SessionStep(hashes.sha256, SessionStart(hashes.sha256, plan.fileId, plan.baseCounter, plan.baseRoot),
                            Save(1, root, totalLen));
    var desc := ContentDesc(totalLen, |plan.pieces|, root, counter.value, None,
                            Some(UnsignedEditor(head, plan.journalHead, plan.certifiedBy)));
    var layout := CheckAgainstChunkSize(desc, plan.chunkSize);
    if layout.Err? {
      return Err(Format(layout.error));
    }
    var body := WriteBody(desc, plan.containerVersion);
    if body.Err? {
      return Err(Format(body.error));
    }
    var cut := BodyWithoutSignature(body.value);
    if cut.Err? {
      return Err(Format(cut.error));
    }
    var transcript := TranscriptBytes(plan.coreHash, cut.value);
    return Ok(Unsigned(desc, transcript, hashes.sha256(transcript), payload));
  }

  /**
    Put the signature in and authenticate the region. If the draft can be encoded, the region
    decodes to the signed description, the payload follows it, and for every core hash the
    authenticated bytes give the transcript of the draft.
   */
  method Finish(unsigned: Unsigned, signature: bytes, mac: Mac, key: digest, fileId: id16, version: u16)
    returns (r: Result<(ContentDesc, bytes, bytes), EditWriteError>)
    requires |signature| == EDITOR_SIGNATURE_LEN
    ensures var desc := Signed(unsigned.desc, signature);
            r == match EncodeRegion(desc, key, fileId, version, mac)
                 case Err(e) => Err(Format(e))
                 case Ok(region) => Ok((desc, region, unsigned.payload))
    ensures var draft := EncodeBody(unsigned.desc, version);
            draft.Ok? && ReadsBack(unsigned.desc) && unsigned.desc.editor.Some? ==>
              && r.Ok?
              && var (desc, region, payload) := r.value;
                 var read := DecodeRegion(region + payload, key, fileId, version, mac);
                 && read.Ok? && read.value.desc == desc && (region + payload)[read.value.length..] == payload
                 && forall core: digest :: EditorTranscript(core, read.value.body) == EditorTranscript(core, draft.value)
  {
    hide EncodeBody, EncodeRegion, DecodeRegion, Cut;
    if EncodeBody(unsigned.desc, version).Ok? && ReadsBack(unsigned.desc) && unsigned.desc.editor.Some? {
      FinishedReadsBack(unsigned.desc, signature, key, fileId, version, mac, unsigned.payload);
    }
    var desc := unsigned.desc;
    if desc.editor.Some? {
      desc := desc.(editor := Some(desc.editor.value.(signature := signature)));
    }
    var region := EncodeRegion(desc, key, fileId, version, mac);
    if region.Err? {
      return Err(Format(region.error));
    }
    return Ok((desc, region.value, unsigned.payload));
  }

  lemma {:induction false} FinishedReadsBack(draft: ContentDesc, signature: bytes, key: digest, fileId: id16, version: u16, mac: Mac, payload: bytes)
    requires |signature| == EDITOR_SIGNATURE_LEN
    requires EncodeBody(draft, version).Ok? && ReadsBack(draft) && draft.editor.Some?
    ensures var region := EncodeRegion(Signed(draft, signature), key, fileId, version, mac);
            && region.Ok?
            && var read := DecodeRegion(region.value + payload, key, fileId, version, mac);
               && read.Ok? && read.value.desc == Signed(draft, signature)
               && (region.value + payload)[read.value.length..] == payload
               && Cut(read.value.body) == Cut(EncodeBody(draft, version).value)
  {
    hide EncodeBody, DecodeRegion, Cut;
    var desc := Signed(draft, signature);
    CutIgnoresSignature(draft, version, signature);
    BodyIsSmall(desc, version);
    RegionRoundTrip(desc, key, fileId, version, mac, payload);
  }

  function Signed(desc: ContentDesc, signature: bytes): ContentDesc {
    match desc.editor
    case None => desc
    case Some(e) => desc.(editor := Some(e.(signature := signature)))
  }

  /**
    For every signature, the reader of the finished region gets back the signed description and
    rebuilds from the authenticated bytes the very transcript that was handed out for signing.
   */
  lemma {:induction false} FinishedRegionRebuildsTranscript(cipher: Cipher, hashes: Hashes, plan: EditPlan, signature: bytes, mac: Mac, key: digest)
    requires LengthPreserving(cipher) && Prepared(cipher, hashes, plan).Ok? && |signature| == EDITOR_SIGNATURE_LEN
    ensures var u := Prepared(cipher, hashes, plan).value;
            var desc := Signed(u.desc, signature);
            var region := EncodeRegion(desc, key, plan.fileId, plan.containerVersion, mac);
            && region.Ok?
            && var read := DecodeRegion(region.value + u.payload, key, plan.fileId, plan.containerVersion, mac);
               && read.Ok? && read.value.desc == desc
               && (region.value + u.payload)[read.value.length..] == u.payload
               && EditorTranscript(plan.coreHash, read.value.body) == Ok(u.transcript)
  {
    hide EncodeBody, Cut, DecodeRegion, EncodeRegion, FramesFrom, Concat, LengthPreserving, SessionStep, SessionStart, RootOf, LeavesFrom, CheckAgainstChunkSize;
    PreparedTiles(cipher, hashes, plan);
    var u := Prepared(cipher, hashes, plan).value;
    FinishedReadsBack(u.desc, signature, key, plan.fileId, plan.containerVersion, mac, u.payload);
  }

  /** A body that can be encoded stays below the limit of the region. */
  lemma {:induction false} BodyIsSmall(d: ContentDesc, version: u16)
    requires EncodeBody(d, version).Ok?
    ensures |EncodeBody(d, version).value| <= 8736 < MAX_CONTENT_DESC_LEN
  {
    hide Emit;
    var p := [ Field(TOTAL_LEN, Le64(d.totalLen)), Field(CHUNK_COUNT, Le32(d.chunkCount)),
               Field(TREE_ROOT, d.treeRoot), Field(VERSION_COUNTER, Le64(d.versionCounter)) ];
    EmitOfNone();
    assert p[..0] == [] && p[..1] == p[..0] + [p[0]] && p[..2] == p[..1] + [p[1]];
    assert p[..3] == p[..2] + [p[2]] && p == p[..3] + [p[3]];
    EmitLengthAppend(p[..0], p[0]);
    EmitLengthAppend(p[..1], p[1]);
    EmitLengthAppend(p[..2], p[2]);
    EmitLengthAppend(p[..3], p[3]);
    assert |Emit(PlainFields(d))| <= 90 by {
      if d.footerOffset.Some? {
        EmitLengthAppend(p, Field(FOOTER_OFFSET, Le64(d.footerOffset.value)));
      } else {
        assert PlainFields(d) == p;
      }
    }
    if d.editor.Some? {
      EditorLength(d.editor.value);
      JournalRoundTrip(d.editor.value.journalHead);
      EmitLengthAppend(PlainFields(d), Field(EDITOR, Emit(EditorFields(d.editor.value))));
    } else {
      assert DescFields(d) == PlainFields(d);
    }
  }
}
