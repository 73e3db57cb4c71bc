/**
  The byte formats spelled out: every number, label, tag and order in literals, independently of
  the encoders' own vocabulary, with the proof that this is what the encoders write and hash.
 */
module Formats {
  import opened Bytes
  import opened Tlv
  import opened Hashing
  import opened Frames
  import Content
  import Editing
  import Sessions
  import Access
  import TreeDigests

  // ---- Numbers and records -----------------------------------------------------------------------

  /** The lowest `n` bytes of a number, the least significant first. */
  function Little(v: nat, n: nat): (b: bytes)
    ensures |b| == n
  {
    if n == 0 then [] else [v % 0x100] + Little(v / 0x100, n - 1)
  }

  /** The most significant first. */
  function Big(v: nat, n: nat): (b: bytes)
    ensures |b| == n
  {
    if n == 0 then [] else Big(v / 0x100, n - 1) + [v % 0x100]
  }

  lemma {:induction false} WordIs(v: u16)
    ensures Le16(v) == Little(v, 2)
  {
    assert Little(v / 0x100, 1) == [v / 0x100 % 0x100] + Little(v / 0x100 / 0x100, 0);
  }

  lemma {:induction false} LittleStep(v: nat, n: nat)
    ensures Little(v, 0) == [] && Little(v, n + 1) == [v % 0x100] + Little(v / 0x100, n)
  {
  }

  lemma {:induction false} Digits(v: nat)
    ensures var low := v % 0x1_0000;
            v / 0x100 / 0x100 == v / 0x1_0000 && low % 0x100 == v % 0x100 && low / 0x100 % 0x100 == v / 0x100 % 0x100
  {
  }

  /** A number is written sixteen bits at a time. */
  lemma {:induction false} LittleSplits(v: nat, m: nat)
    ensures Little(v, 2 + m) == Little(v % 0x1_0000, 2) + Little(v / 0x1_0000, m)
  {
    hide Little;
    var low, rest := v % 0x1_0000, Little(v / 0x1_0000, m);
    Digits(v);
    LittleStep(v, 1 + m);
    LittleStep(v / 0x100, m);
    LittleStep(low, 1);
    LittleStep(low / 0x100, 0);
    assert Little(low, 2) == [v % 0x100, v / 0x100 % 0x100];
    assert Little(v, 2 + m) == [v % 0x100, v / 0x100 % 0x100] + rest;
  }

  lemma {:induction false} LittleSplitsInHalf(v: u64)
    ensures Little(v, 8) == Little(v % 0x1_0000_0000, 4) + Little(v / 0x1_0000_0000, 4)
  {
    hide Little;
    var low, high := v % 0x1_0000_0000, v / 0x1_0000_0000;
    LittleSplits(v, 6);
    LittleSplits(v / 0x1_0000, 4);
    LittleSplits(low, 2);
    assert v / 0x1_0000 / 0x1_0000 == high && v / 0x1_0000 % 0x1_0000 == low / 0x1_0000 && v % 0x1_0000 == low % 0x1_0000;
    assert low / 0x1_0000 % 0x1_0000 == low / 0x1_0000;
    Regroup(Little(low % 0x1_0000, 2), Little(low / 0x1_0000, 2), Little(high, 4));
  }

  lemma {:induction false} HalfIs(v: u32)
    ensures Le32(v) == Little(v, 4)
  {
    hide Little, Le16;
    LittleSplits(v, 2);
    WordIs(v % 0x1_0000);
    WordIs(v / 0x1_0000);
  }

  lemma {:induction false} WordsAre(v: u32, w: u64)
    ensures Le32(v) == Little(v, 4) && Le64(w) == Little(w, 8)
  {
    hide Little, Le32;
    LittleSplitsInHalf(w);
    HalfIs(v);
    HalfIs(w % 0x1_0000_0000);
    HalfIs(w / 0x1_0000_0000);
  }

  lemma {:induction false} BigIsReversed(v: nat, n: nat)
    ensures Big(v, n) == Reversed(Little(v, n))
  {
    if n > 0 {
      BigIsReversed(v / 0x100, n - 1);
      assert Little(v, n) == [v % 0x100] + Little(v / 0x100, n - 1);
    }
  }

  lemma {:induction false} BigWordsAre(v: u32, w: u64)
    ensures Be32(v) == Big(v, 4) && Be64(w) == Big(w, 8)
  {
    hide Little, Big;
    WordsAre(v, w);
    BigIsReversed(v, 4);
    BigIsReversed(w, 8);
  }

  /** Two's complement. */
  lemma {:induction false} SignedIs(v: i64)
    ensures LeI64(v) == Little(if v < 0 then v + 0x1_0000_0000_0000_0000 else v, 8)
  {
    hide Little, Le64;
    WordsAre(0, if v < 0 then v + 0x1_0000_0000_0000_0000 else v);
  }

  /** A record is a two-byte tag, a four-byte length and the value; a list is its records in a row. */
  lemma {:induction false} RecordsAre(f: Field, rest: seq<Field>)
    requires |f.value| <= U32_MAX
    ensures Emit([]) == [] && Emit([f] + rest) == Little(f.tag, 2) + Little(|f.value|, 4) + f.value + Emit(rest)
  {
    hide Little, Le16, Le32;
    WordIs(f.tag);
    HalfIs(|f.value|);
    assert ([f] + rest)[0] == f && ([f] + rest)[1..] == rest;
    assert |f.value| % 0x1_0000_0000 == |f.value|;
  }

  /** What the reader makes of the bytes at a position: the end, one of three failures, or a field and its place. */
  lemma {:induction false} NextMeans(buf: bytes, pos: nat, last: Option<u16>)
    requires pos <= |buf|
    ensures var next := NextAt(buf, pos, last);
            if pos == |buf| then next == Ok(None)
            else if |buf| - pos < 6 then next == Err(Truncated(pos + 6, |buf|))
            else
              var tag, len := FromLe16(buf[pos..pos + 2]), FromLe32(buf[pos + 2..pos + 6]);
              && Little(tag, 2) == buf[pos..pos + 2] && Little(len, 4) == buf[pos + 2..pos + 6]
              && next == if last.Some? && tag <= last.value then Err(FieldsOutOfOrder(last.value, tag))
                         else if len > |buf| - pos - 6 then Err(Truncated(pos + 6 + len, |buf|))
                         else Ok(Some(Found(Field(tag, buf[pos + 6..pos + 6 + len]), pos + 6)))
  {
    hide Little, Le16, Le32, FromLe16, FromLe32;
    if |buf| - pos >= 6 {
      var tag, len := FromLe16(buf[pos..pos + 2]), FromLe32(buf[pos + 2..pos + 6]);
      WordIs(tag);
      HalfIs(len);
      FromLe16RoundTrip(buf[pos..pos + 2]);
      FromLe32RoundTrip(buf[pos + 2..pos + 6]);
    }
  }

  // ---- The tree ------------------------------------------------------------------------------------

  /** The three inputs of the tree hash. */
  lemma {:induction false} TreeInputsAre(index: u32, nonce: bytes, tag: bytes, ct: bytes, left: digest, right: digest)
    requires |ct| <= U64_MAX
    ensures TreeDigests.LeafInput(index, nonce, tag, ct)
         == [0x00] + Ascii("CC/v1/leaf") + Big(index, 4) + Big(|ct|, 8) + nonce + tag + ct
    ensures TreeDigests.NodeInput(left, right) == [0x01] + Ascii("CC/v1/node") + left + right
    ensures TreeDigests.RootInput(index, left) == [0x02] + Ascii("CC/v1/node") + Big(index, 4) + left
  {
    hide Big, Be32, Be64, Ascii;
    BigWordsAre(index, |ct|);
    assert |ct| % 0x1_0000_0000_0000_0000 == |ct|;
    Chain([0x00], Ascii("CC/v1/leaf"), Big(index, 4), Big(|ct|, 8), nonce, tag + ct);
    Regroup([0x00] + Ascii("CC/v1/leaf") + Big(index, 4) + Big(|ct|, 8) + nonce, tag, ct);
    Chain([0x01], Ascii("CC/v1/node"), left, right, [], []);
    assert right + ([] + []) == right;
    Chain([0x02], Ascii("CC/v1/node"), Big(index, 4), left, [], []);
    assert left + ([] + []) == left;
  }

  lemma {:induction false} Chain(a: bytes, b: bytes, c: bytes, d: bytes, e: bytes, f: bytes)
    ensures a + (b + (c + (d + (e + f)))) == a + b + c + d + e + f
    ensures e == [] && f == [] ==> a + b + c + d + e + f == a + b + c + d
  {
  }

  /** A character is its code. */
  lemma {:induction false} AsciiIs(s: string, i: nat)
    requires i < |s| && s[i] as int < 0x80
    ensures |Ascii(s)| == |s| && Ascii(s)[i] == s[i] as int
  {
  }

  // ---- Transcripts -----------------------------------------------------------------------------------

  /** What an editor signs, and what authenticates a region: label, zero byte, fixed field, length and bytes. */
  lemma {:induction false} TranscriptsAre(core: digest, cut: bytes, fileId: id16, body: bytes)
    requires |cut| <= U32_MAX && |body| <= U32_MAX
    ensures Editing.TranscriptBytes(core, cut) == Ascii("CC/v1/editor-sig") + [0] + core + Little(|cut|, 4) + cut
    ensures Content.MacTranscript(fileId, body) == Ascii("CC/v1/content-mac") + [0] + fileId + Little(|body|, 4) + body
  {
    hide Little, Le32, Ascii;
    HalfIs(|cut|);
    HalfIs(|body|);
    Regroup(Ascii("CC/v1/editor-sig") + [0] + core, Little(|cut|, 4), cut);
    Regroup(Ascii("CC/v1/content-mac") + [0] + fileId, Little(|body|, 4), body);
  }

  /**
    The cut of an accepted body is the body without the signature record: tag 5, length 256 and
    the 256 bytes the reader takes for the signature; nothing else is missing.
   */
  lemma {:induction false} CutMeans(body: bytes, version: u16) returns (front: bytes, tail: bytes)
    requires Content.DecodeBody(body, version).Ok? && Content.DecodeBody(body, version).value.editor.Some?
    ensures body == front + ([5, 0, 0, 1, 0, 0] + Content.DecodeBody(body, version).value.editor.value.signature) + tail
    ensures Editing.Cut(body) == Ok(front + tail)
  {
    hide Editing.Cut, Content.DecodeBody, Editing.Front, Emit;
    var p := Editing.AcceptedSplits(body, version);
    front, tail := Editing.Front(p), p.tail;
    RecordsAre(Field(5, p.signature), []);
    EmitOfOne(Field(5, p.signature));
    assert Little(5, 2) == [5, 0] && Little(256, 4) == [0, 1, 0, 0];
    assert Little(5, 2) + Little(256, 4) == [5, 0, 0, 1, 0, 0];
    assert [Field(5, p.signature)] + [] == [Field(5, p.signature)];
    assert Little(5, 2) + Little(256, 4) + p.signature + [] == [5, 0, 0, 1, 0, 0] + p.signature;
  }

  /** What is hashed when a session starts, and at each save. */
  lemma {:induction false} SessionInputsAre(fileId: id16, counter: u64, root: digest, prev: digest, save: Sessions.Save)
    ensures Sessions.StartPreimage(fileId, counter, root)
         == Ascii("CC/v1/edit-session") + [0] + fileId + Big(counter, 8) + root
    ensures Sessions.StepPreimage(prev, save)
         == Ascii("CC/v1/edit-session") + [0] + prev + Big(save.number, 8) + save.root + Big(save.totalLen, 8)
  {
    hide Big, Be64, Ascii;
    BigWordsAre(0, counter);
    BigWordsAre(0, save.number);
    BigWordsAre(0, save.totalLen);
    Regroup(Ascii("CC/v1/edit-session") + [0], fileId, Big(counter, 8) + root);
    Regroup(Ascii("CC/v1/edit-session") + [0] + fileId, Big(counter, 8), root);
    Regroup(Ascii("CC/v1/edit-session") + [0], prev, Big(save.number, 8) + (save.root + Big(save.totalLen, 8)));
    Regroup(Ascii("CC/v1/edit-session") + [0] + prev, Big(save.number, 8), save.root + Big(save.totalLen, 8));
    Regroup(Ascii("CC/v1/edit-session") + [0] + prev + Big(save.number, 8), save.root, Big(save.totalLen, 8));
  }

  /** A head is the hash of those inputs, save after save. */
  lemma {:induction false} HeadsAre(hash: bytes -> digest, h: Sessions.History, save: Sessions.Save)
    ensures Sessions.Head(hash, h.(saves := []))
         == hash(Ascii("CC/v1/edit-session") + [0] + h.fileId + Big(h.baseCounter, 8) + h.baseRoot)
    ensures Sessions.Head(hash, h.(saves := h.saves + [save]))
         == hash(Ascii("CC/v1/edit-session") + [0] + Sessions.Head(hash, h) + Big(save.number, 8) + save.root + Big(save.totalLen, 8))
  {
    hide Big, Ascii, Sessions.StartPreimage, Sessions.StepPreimage;
    SessionInputsAre(h.fileId, h.baseCounter, h.baseRoot, Sessions.Head(hash, h), save);
    var longer := h.(saves := h.saves + [save]);
    assert longer.saves[..|h.saves|] == h.saves;
    assert longer.(saves := h.saves) == h;
  }

  // ---- Signed records ------------------------------------------------------------------------------------

  /** The editor record: which values can be written, and as which records. */
  lemma {:induction false} EditorIs(e: Content.EditorSignature)
    ensures Content.EncodeEditor(e).Ok? <==> |e.signature| == 256 && |e.certifiedBy| <= 8192
    ensures Content.EncodeEditor(e).Ok? ==>
              Content.EncodeEditor(e).value == Emit([
                Field(1, [if e.sigAlg == Content.Ed25519 then 1 else 2]), Field(2, e.sessionHead),
                Field(3, if e.journalHead.None? then [] else Little(e.journalHead.value.size, 8) + e.journalHead.value.root),
                Field(4, e.certifiedBy), Field(5, e.signature)])
  {
    hide Emit, Little, Le64;
    if e.journalHead.Some? { WordsAre(0, e.journalHead.value.size); }
  }

  /** The description of the content. */
  lemma {:induction false} DescriptionIs(d: Content.ContentDesc, version: u16)
    ensures Content.EncodeBody(d, version).Ok? <==>
            d.editor.Some? ==> version >= 4 && Content.EncodeEditor(d.editor.value).Ok?
    ensures Content.EncodeBody(d, version).Ok? ==>
              Content.EncodeBody(d, version).value == Emit(
                [Field(1, Little(d.totalLen, 8)), Field(2, Little(d.chunkCount, 4)), Field(3, d.treeRoot), Field(4, Little(d.versionCounter, 8))]
                + (if d.footerOffset.Some? then [Field(5, Little(d.footerOffset.value, 8))] else [])
                + (if d.editor.Some? then [Field(6, Content.EncodeEditor(d.editor.value).value)] else []))
  {
    hide Emit, Little, Le64, Le32, Content.EditorFields;
    WordsAre(d.chunkCount, d.totalLen);
    WordsAre(0, d.versionCounter);
    if d.footerOffset.Some? { WordsAre(0, d.footerOffset.value); }
  }

  /** The access decision. */
  lemma {:induction false} DecisionIs(d: Access.Decision)
    requires Access.EncodeDecision(d).Ok?
    ensures Access.EncodeDecision(d).value == Emit(
              [Field(1, d.fileId), Field(2, d.deviceFpr), Field(6, Little(d.seq_, 8)), Field(8, [if d.approve then 1 else 0])]
              + (if d.shareB.None? then []
                 else [Field(9, d.shareB.value.enc), Field(10, d.shareB.value.nonce), Field(11, d.shareB.value.ct)])
              + [Field(12, d.authorKey)] + [Field(13, d.signature)])
  {
    hide Emit, Little, Le64;
    WordsAre(0, d.seq_);
    Access.EncodedIsEmit(d);
  }

  /** A decision is accepted exactly when it is the encoding of one whose share matches its flag. */
  lemma {:induction false} DecisionAccepted(sent: bytes, d: Access.Decision)
    ensures Access.DecodeDecision(sent) == Ok(d) <==> Access.EncodeDecision(d) == Ok(sent) && d.approve == d.shareB.Some?
  {
    hide Access.DecodeDecision, Access.EncodeDecision;
    if Access.DecodeDecision(sent) == Ok(d) { Access.AcceptedBytesAreTheEncoding(sent, d); }
    if Access.EncodeDecision(d) == Ok(sent) { Access.DecisionRoundTrip(d); }
  }
}
