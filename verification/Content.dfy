/** The mutable region: content description and editor signature. */
module Content {
  import opened Bytes
  import opened Tlv
  import opened Layouts

  const TOTAL_LEN: u16 := 1
  const CHUNK_COUNT: u16 := 2
  const TREE_ROOT: u16 := 3
  const VERSION_COUNTER: u16 := 4
  const FOOTER_OFFSET: u16 := 5
  const EDITOR: u16 := 6

  const SIG_ALG: u16 := 1
  const SESSION_HEAD: u16 := 2
  const JOURNAL_HEAD: u16 := 3
  const CERTIFIED_BY: u16 := 4
  const SIGNATURE: u16 := 5

  const FIRST_EDITING_VERSION: u16 := 4
  const EDITOR_SIGNATURE_LEN: nat := 256
  const JOURNAL_HEAD_LEN: nat := 40
  const MAX_CERTIFIED_BY_LEN: nat := 8 * 1024
  const MAX_CONTENT_DESC_LEN: nat := 64 * 1024
  const MAC_LEN: nat := 32

  datatype SigAlg = Ed25519 | RsaPssSha256

  function SigAlgId(alg: SigAlg): byte {
    match alg case Ed25519 => 1 case RsaPssSha256 => 2
  }

  datatype JournalHead = JournalHead(size: u64, root: digest)

  datatype EditorSignature = EditorSignature(
    sigAlg: SigAlg, sessionHead: digest, journalHead: Option<JournalHead>, certifiedBy: bytes, signature: bytes)

  datatype ContentDesc = ContentDesc(
    totalLen: u64, chunkCount: u32, treeRoot: digest, versionCounter: u64,
    footerOffset: Option<u64>, editor: Option<EditorSignature>)

  // ---- Encoding ------------------------------------------------------------------

  /** An unseen journal is an empty value, not an absent field. */
  function JournalBytes(head: Option<JournalHead>): bytes {
    match head
    case None => []
    case Some(h) => Le64(h.size) + h.root
  }

  function EditorFields(e: EditorSignature): seq<Field> {
    [ Field(SIG_ALG, [SigAlgId(e.sigAlg)]), Field(SESSION_HEAD, e.sessionHead),
      Field(JOURNAL_HEAD, JournalBytes(e.journalHead)), Field(CERTIFIED_BY, e.certifiedBy),
      Field(SIGNATURE, e.signature) ]
  }

  function EncodeEditor(e: EditorSignature): Result<bytes, FormatError> {
    if |e.signature| != EDITOR_SIGNATURE_LEN then Err(BadFieldLength(SIGNATURE, |e.signature|))
    else if |e.certifiedBy| > MAX_CERTIFIED_BY_LEN then Err(BadFieldLength(CERTIFIED_BY, |e.certifiedBy|))
    else Ok(Emit(EditorFields(e)))
  }

  /** The fields in front of the editor record. */
  function PlainFields(d: ContentDesc): seq<Field> {
    [ Field(TOTAL_LEN, Le64(d.totalLen)), Field(CHUNK_COUNT, Le32(d.chunkCount)),
      Field(TREE_ROOT, d.treeRoot), Field(VERSION_COUNTER, Le64(d.versionCounter)) ]
    + if d.footerOffset.Some? then [Field(FOOTER_OFFSET, Le64(d.footerOffset.value))] else []
  }

  function DescFields(d: ContentDesc): seq<Field> {
    PlainFields(d) + if d.editor.Some? then [Field(EDITOR, Emit(EditorFields(d.editor.value)))] else []
  }

  function EncodeBody(d: ContentDesc, version: u16): Result<bytes, FormatError> {
    if d.editor.Some? && version < FIRST_EDITING_VERSION then Err(UnknownCriticalField(EDITOR))
    else if d.editor.Some? && EncodeEditor(d.editor.value).Err? then Err(EncodeEditor(d.editor.value).error)
    else Ok(Emit(DescFields(d)))
  }

  lemma {:induction false} EmitLengthAppend(fields: seq<Field>, f: Field)
    ensures |Emit(fields + [f])| == |Emit(fields)| + FIELD_PREFIX_LEN + |f.value|
  {
    EmitAppend(fields, [f]);
    EmitOfOne(f);
  }

  lemma {:induction false} EmitIsBounded(fields: seq<Field>, bound: nat)
    requires forall i :: 0 <= i < |fields| ==> |fields[i].value| <= bound
    ensures |Emit(fields)| <= |fields| * (FIELD_PREFIX_LEN + bound)
  {
    hide Emit;
    if fields == [] {
      EmitOfNone();
    } else {
      var n := |fields| - 1;
      EmitIsBounded(fields[..n], bound);
      assert fields == fields[..n] + [fields[n]];
      EmitLengthAppend(fields[..n], fields[n]);
      assert |fields| * (FIELD_PREFIX_LEN + bound) == n * (FIELD_PREFIX_LEN + bound) + (FIELD_PREFIX_LEN + bound);
    }
  }

  /** The size of an editor record is fixed up to its two variable parts. */
  lemma {:induction false} EditorLength(e: EditorSignature)
    ensures |Emit(EditorFields(e))| == 63 + |JournalBytes(e.journalHead)| + |e.certifiedBy| + |e.signature|
  {
    hide Emit;
    var fs := EditorFields(e);
    assert Emit([]) == [] by { EmitOfNone(); }
    assert fs[..0] == [] && fs[..1] == fs[..0] + [fs[0]] && fs[..2] == fs[..1] + [fs[1]];
    assert fs[..3] == fs[..2] + [fs[2]] && fs[..4] == fs[..3] + [fs[3]] && fs == fs[..4] + [fs[4]];
    EmitLengthAppend(fs[..0], fs[0]);
    EmitLengthAppend(fs[..1], fs[1]);
    EmitLengthAppend(fs[..2], fs[2]);
    EmitLengthAppend(fs[..3], fs[3]);
    EmitLengthAppend(fs[..4], fs[4]);
  }

  lemma {:induction false} EmitOfNone()
    ensures Emit([]) == []
  {
  }

  lemma {:induction false} EditorFieldsCanonical(e: EditorSignature)
    requires EncodeEditor(e).Ok?
    ensures Canonical(EditorFields(e)) && |Emit(EditorFields(e))| <= U32_MAX
  {
    hide Emit, Increasing;
    IncreasingByNeighbours(EditorFields(e));
    EditorLength(e);
  }

  lemma {:induction false} DescFieldsCanonical(d: ContentDesc)
    requires d.editor.Some? ==> EncodeEditor(d.editor.value).Ok?
    ensures Canonical(DescFields(d))
  {
    hide Emit, Increasing, EditorFields;
    IncreasingByNeighbours(DescFields(d));
    if d.editor.Some? { EditorFieldsCanonical(d.editor.value); }
  }

  method WriteEditor(e: EditorSignature) returns (r: Result<bytes, FormatError>)
    ensures r == EncodeEditor(e)
  {
    if |e.signature| != EDITOR_SIGNATURE_LEN {
      return Err(BadFieldLength(SIGNATURE, |e.signature|));
    }
    if |e.certifiedBy| > MAX_CERTIFIED_BY_LEN {
      return Err(BadFieldLength(CERTIFIED_BY, |e.certifiedBy|));
    }
    hide Emit, Canonical, JournalBytes, SigAlgId;
    JournalRoundTrip(e.journalHead);
    var w := new TlvWriter();
    var put := w.Put(SIG_ALG, [SigAlgId(e.sigAlg)]);
    put := w.Put(SESSION_HEAD, e.sessionHead);
    put := w.Put(JOURNAL_HEAD, JournalBytes(e.journalHead));
    put := w.Put(CERTIFIED_BY, e.certifiedBy);
    put := w.Put(SIGNATURE, e.signature);
    assert w.fields == EditorFields(e);
    return Ok(w.buf);
  }

  method WriteBody(d: ContentDesc, version: u16) returns (r: Result<bytes, FormatError>)
    ensures r == EncodeBody(d, version)
  {
    hide Emit, Canonical, EditorFields;
    if d.editor.Some? && version < FIRST_EDITING_VERSION {
      return Err(UnknownCriticalField(EDITOR));
    }
    var w := new TlvWriter();
    var put := w.Put(TOTAL_LEN, Le64(d.totalLen));
    put := w.Put(CHUNK_COUNT, Le32(d.chunkCount));
    put := w.Put(TREE_ROOT, d.treeRoot);
    put := w.Put(VERSION_COUNTER, Le64(d.versionCounter));
    var footer := if d.footerOffset.Some? then Some(Le64(d.footerOffset.value)) else None;
    put := w.PutOpt(FOOTER_OFFSET, footer);
    assert w.fields == PlainFields(d);
    if d.editor.Some? {
      var editor := WriteEditor(d.editor.value);
      if editor.Err? {
        return Err(editor.error);
      }
      EditorFieldsCanonical(d.editor.value);
      put := w.Put(EDITOR, editor.value);
    }
    assert w.fields == DescFields(d);
    return Ok(w.buf);
  }

  // ---- Decoding ------------------------------------------------------------------

  function LengthIs(f: Field, n: nat): Option<FormatError> {
    if |f.value| == n then None else Some(BadFieldLength(f.tag, |f.value|))
  }

  function EditorCheck(f: Field): Option<FormatError> {
    if f.tag == SIG_ALG then
      if f.value == [SigAlgId(RsaPssSha256)] then None else Some(BadFieldLength(SIG_ALG, |f.value|))
    else if f.tag == SESSION_HEAD then LengthIs(f, 32)
    else if f.tag == JOURNAL_HEAD then if f.value == [] then None else LengthIs(f, JOURNAL_HEAD_LEN)
    else if f.tag == CERTIFIED_BY then
      if |f.value| <= MAX_CERTIFIED_BY_LEN then None else Some(BadFieldLength(CERTIFIED_BY, |f.value|))
    else if f.tag == SIGNATURE then LengthIs(f, EDITOR_SIGNATURE_LEN)
    else UnknownTag(f.tag)
  }

  function AsDigest(v: bytes): digest {
    if |v| == 32 then v else Zeros(32)
  }

  function AsId(v: bytes): id16 {
    if |v| == 16 then v else Zeros(16)
  }

  function AsNonce(v: bytes): nonce24 {
    if |v| == 24 then v else Zeros(24)
  }

  function AsU64(v: bytes): u64 {
    if |v| == 8 then FromLe64(v) else 0
  }

  function AsU32(v: bytes): u32 {
    if |v| == 4 then FromLe32(v) else 0
  }

  function AsJournal(v: bytes): Option<JournalHead> {
    if |v| == JOURNAL_HEAD_LEN then Some(JournalHead(FromLe64(v[..8]), v[8..])) else None
  }

  function OptDigest(v: Option<bytes>): Option<digest> {
    if v.Some? then Some(AsDigest(v.value)) else None
  }

  function OptU64(v: Option<bytes>): Option<u64> {
    if v.Some? then Some(AsU64(v.value)) else None
  }

  function OptU32(v: Option<bytes>): Option<u32> {
    if v.Some? then Some(AsU32(v.value)) else None
  }

  function OptJournal(v: Option<bytes>): Option<Option<JournalHead>> {
    if v.Some? then Some(AsJournal(v.value)) else None
  }

  /** The signature the five subfields spell, once all of them have passed their checks. */
  function BuildEditor(fields: seq<Field>): Result<EditorSignature, FormatError> {
    var alg, head, journal, cert, sig :=
      Lookup(fields, SIG_ALG), Lookup(fields, SESSION_HEAD), Lookup(fields, JOURNAL_HEAD),
      Lookup(fields, CERTIFIED_BY), Lookup(fields, SIGNATURE);
    if alg.None? then Err(MissingField(SIG_ALG))
    else if head.None? then Err(MissingField(SESSION_HEAD))
    else if journal.None? then Err(MissingField(JOURNAL_HEAD))
    else if cert.None? then Err(MissingField(CERTIFIED_BY))
    else if sig.None? then Err(MissingField(SIGNATURE))
    else Ok(EditorSignature(RsaPssSha256, AsDigest(head.value), AsJournal(journal.value), cert.value, sig.value))
  }

  function DecodeEditor(value: bytes): Result<EditorSignature, FormatError> {
    match Checked(value, EditorCheck)
    case Err(e) => Err(e)
    case Ok(fields) => BuildEditor(fields)
  }

  method ReadEditor(value: bytes) returns (r: Result<EditorSignature, FormatError>)
    ensures r == DecodeEditor(value)
  {
    hide Reading, Checked, NextAt, Lookup, JournalBytes, ReadAll;
    var reader := new TlvReader(value);
    var sigAlg: Option<SigAlg>, sessionHead: Option<digest>, journalHead: Option<Option<JournalHead>> := None, None, None;
    var certifiedBy: Option<bytes>, signature: Option<bytes> := None, None;
    ghost var seen: seq<Field> := [];
    ReadingStarts(value, EditorCheck);
    LookupOfNothing();
    while true
      invariant reader.Valid() && fresh(reader) && reader.buf == value
      invariant Reading(value, EditorCheck, reader.pos, reader.lastTag, seen)
      invariant sigAlg == if Lookup(seen, SIG_ALG).Some? then Some(RsaPssSha256) else None
      invariant sessionHead == OptDigest(Lookup(seen, SESSION_HEAD))
      invariant journalHead == OptJournal(Lookup(seen, JOURNAL_HEAD))
      invariant certifiedBy == Lookup(seen, CERTIFIED_BY)
      invariant signature == Lookup(seen, SIGNATURE)
      decreases |value| - reader.pos
    {
      ReadingStep(value, EditorCheck, reader.pos, reader.lastTag, seen);
      var next := reader.NextField();
      if next.Err? {
        return Err(next.error);
      }
      if next.value.None? {
        break;
      }
      var field := next.value.value.field;
      LookupAppendAll(seen, field);
      seen := seen + [field];
      if field.tag == SIG_ALG {
        if field.value != [SigAlgId(RsaPssSha256)] {
          return Err(BadFieldLength(SIG_ALG, |field.value|));
        }
        sigAlg := Some(RsaPssSha256);
      } else if field.tag == SESSION_HEAD {
        if |field.value| != 32 {
          return Err(BadFieldLength(field.tag, |field.value|));
        }
        sessionHead := Some(field.value);
      } else if field.tag == JOURNAL_HEAD {
        if |field.value| == 0 {
          journalHead := Some(None);
        } else if |field.value| == JOURNAL_HEAD_LEN {
          journalHead := Some(Some(JournalHead(FromLe64(field.value[..8]), field.value[8..])));
        } else {
          return Err(BadFieldLength(field.tag, |field.value|));
        }
      } else if field.tag == CERTIFIED_BY {
        if |field.value| > MAX_CERTIFIED_BY_LEN {
          return Err(BadFieldLength(field.tag, |field.value|));
        }
        certifiedBy := Some(field.value);
      } else if field.tag == SIGNATURE {
        if |field.value| != EDITOR_SIGNATURE_LEN {
          return Err(BadFieldLength(field.tag, |field.value|));
        }
        signature := Some(field.value);
      } else if field.tag <= CRIT_TAG_MAX {
        return Err(UnknownCriticalField(field.tag));
      }
    }
    if sigAlg.None? { return Err(MissingField(SIG_ALG)); }
    if sessionHead.None? { return Err(MissingField(SESSION_HEAD)); }
    if journalHead.None? { return Err(MissingField(JOURNAL_HEAD)); }
    if certifiedBy.None? { return Err(MissingField(CERTIFIED_BY)); }
    if signature.None? { return Err(MissingField(SIGNATURE)); }
    return Ok(EditorSignature(sigAlg.value, sessionHead.value, journalHead.value, certifiedBy.value, signature.value));
  }

  function DescCheck(version: u16, f: Field): Option<FormatError> {
    if f.tag == TOTAL_LEN || f.tag == VERSION_COUNTER || f.tag == FOOTER_OFFSET then LengthIs(f, 8)
    else if f.tag == CHUNK_COUNT then LengthIs(f, 4)
    else if f.tag == TREE_ROOT then LengthIs(f, 32)
    else if f.tag == EDITOR && version >= FIRST_EDITING_VERSION then
      match DecodeEditor(f.value) case Err(e) => Some(e) case Ok(_) => None
    else UnknownTag(f.tag)
  }

  function DescCheckAt(version: u16): Field -> Option<FormatError> {
    f => DescCheck(version, f)
  }

  function OptEditor(version: u16, v: Option<bytes>): Option<EditorSignature> {
    if version >= FIRST_EDITING_VERSION && v.Some? && DecodeEditor(v.value).Ok? then Some(DecodeEditor(v.value).value) else None
  }

  function BuildDesc(version: u16, fields: seq<Field>): Result<ContentDesc, FormatError> {
    var total, count, root, counter :=
      OptU64(Lookup(fields, TOTAL_LEN)), OptU32(Lookup(fields, CHUNK_COUNT)),
      OptDigest(Lookup(fields, TREE_ROOT)), OptU64(Lookup(fields, VERSION_COUNTER));
    if total.None? then Err(MissingField(TOTAL_LEN))
    else if count.None? then Err(MissingField(CHUNK_COUNT))
    else if root.None? then Err(MissingField(TREE_ROOT))
    else if counter.None? then Err(MissingField(VERSION_COUNTER))
    else if count.value == 0 then Err(ChunkCountMismatch(1, 0))
    else Ok(ContentDesc(total.value, count.value, root.value, counter.value,
                        OptU64(Lookup(fields, FOOTER_OFFSET)), OptEditor(version, Lookup(fields, EDITOR))))
  }

  function DecodeBody(body: bytes, version: u16): Result<ContentDesc, FormatError> {
    match Checked(body, DescCheckAt(version))
    case Err(e) => Err(e)
    case Ok(fields) => BuildDesc(version, fields)
  }

  method ReadBody(body: bytes, version: u16) returns (r: Result<ContentDesc, FormatError>)
    ensures r == DecodeBody(body, version)
  {
    hide Reading, Checked, NextAt, Lookup, ReadAll, DecodeEditor;
    var check := DescCheckAt(version);
    var reader := new TlvReader(body);
    var totalLen: Option<u64>, chunkCount: Option<u32>, treeRoot: Option<digest> := None, None, None;
    var versionCounter: Option<u64>, footerOffset: Option<u64>, editor: Option<EditorSignature> := None, None, None;
    ghost var seen: seq<Field> := [];
    ReadingStarts(body, check);
    LookupOfNothing();
    while true
      invariant reader.Valid() && fresh(reader) && reader.buf == body
      invariant Reading(body, check, reader.pos, reader.lastTag, seen)
      invariant totalLen == OptU64(Lookup(seen, TOTAL_LEN)) && chunkCount == OptU32(Lookup(seen, CHUNK_COUNT))
      invariant treeRoot == OptDigest(Lookup(seen, TREE_ROOT)) && versionCounter == OptU64(Lookup(seen, VERSION_COUNTER))
      invariant footerOffset == OptU64(Lookup(seen, FOOTER_OFFSET))
      invariant editor == OptEditor(version, Lookup(seen, EDITOR))
      decreases |body| - reader.pos
    {
      ReadingStep(body, check, reader.pos, reader.lastTag, seen);
      var next := reader.NextField();
      if next.Err? {
        return Err(next.error);
      }
      if next.value.None? {
        break;
      }
      var field := next.value.value.field;
      LookupAppendAll(seen, field);
      seen := seen + [field];
      if field.tag == EDITOR && version >= FIRST_EDITING_VERSION {
        var parsed := ReadEditor(field.value);
        if parsed.Err? {
          return Err(parsed.error);
        }
        editor := Some(parsed.value);
      } else {
        var bad := check(field);
        if bad.Some? {
          return Err(bad.value);
        }
        if field.tag == TOTAL_LEN {
          totalLen := Some(FromLe64(field.value));
        } else if field.tag == CHUNK_COUNT {
          chunkCount := Some(FromLe32(field.value));
        } else if field.tag == TREE_ROOT {
          treeRoot := Some(field.value);
        } else if field.tag == VERSION_COUNTER {
          versionCounter := Some(FromLe64(field.value));
        } else if field.tag == FOOTER_OFFSET {
          footerOffset := Some(FromLe64(field.value));
        }
      }
    }
    if totalLen.None? { return Err(MissingField(TOTAL_LEN)); }
    if chunkCount.None? { return Err(MissingField(CHUNK_COUNT)); }
    if treeRoot.None? { return Err(MissingField(TREE_ROOT)); }
    if versionCounter.None? { return Err(MissingField(VERSION_COUNTER)); }
    if chunkCount.value == 0 { return Err(ChunkCountMismatch(1, 0)); }
    return Ok(ContentDesc(totalLen.value, chunkCount.value, treeRoot.value, versionCounter.value, footerOffset, editor));
  }

  // ---- Round trips -----------------------------------------------------------------

  lemma {:induction false} JournalRoundTrip(head: Option<JournalHead>)
    ensures AsJournal(JournalBytes(head)) == head
    ensures |JournalBytes(head)| == 0 || |JournalBytes(head)| == JOURNAL_HEAD_LEN
  {
    if head.Some? {
      var v := JournalBytes(head);
      assert v[..8] == Le64(head.value.size) && v[8..] == head.value.root;
      Le64RoundTrip(head.value.size);
    }
  }

  /**
    The writer takes either scheme, the reader only one: an editor record reads back exactly when
    it declares RSA-PSS, and then unchanged.
   */
  lemma {:induction false} EditorRoundTrip(e: EditorSignature)
    requires EncodeEditor(e).Ok?
    ensures DecodeEditor(EncodeEditor(e).value).Ok? <==> e.sigAlg == RsaPssSha256
    ensures e.sigAlg == RsaPssSha256 ==> DecodeEditor(EncodeEditor(e).value) == Ok(e)
  {
    hide Emit, Increasing, Checked, Lookup, JournalBytes;
    var fs := EditorFields(e);
    EditorFieldsCanonical(e);
    JournalRoundTrip(e.journalHead);
    CheckedOfEmit(fs, EditorCheck);
    if e.sigAlg == RsaPssSha256 {
      assert forall i :: 0 <= i < |fs| ==> EditorCheck(fs[i]) == None;
      LookupFound(fs, 0);
      LookupFound(fs, 1);
      LookupFound(fs, 2);
      LookupFound(fs, 3);
      LookupFound(fs, 4);
    } else {
      assert EditorCheck(fs[0]) != None;
    }
  }

  lemma {:induction false} PlainLookups(d: ContentDesc)
    requires d.editor.Some? ==> EncodeEditor(d.editor.value).Ok?
    ensures var fs := DescFields(d);
            && Lookup(fs, TOTAL_LEN) == Some(Le64(d.totalLen)) && Lookup(fs, CHUNK_COUNT) == Some(Le32(d.chunkCount))
            && Lookup(fs, TREE_ROOT) == Some(d.treeRoot) && Lookup(fs, VERSION_COUNTER) == Some(Le64(d.versionCounter))
            && Lookup(fs, FOOTER_OFFSET) == (if d.footerOffset.Some? then Some(Le64(d.footerOffset.value)) else None)
            && Lookup(fs, EDITOR) == (if d.editor.Some? then Some(Emit(EditorFields(d.editor.value))) else None)
  {
    hide Emit, Increasing, Lookup, EditorFields, EncodeEditor;
    var fs := DescFields(d);
    DescFieldsCanonical(d);
    LookupFound(fs, 0);
    LookupFound(fs, 1);
    LookupFound(fs, 2);
    LookupFound(fs, 3);
    if d.footerOffset.Some? { LookupFound(fs, 4); } else { LookupAbsent(fs, FOOTER_OFFSET); }
    if d.editor.Some? { LookupFound(fs, |fs| - 1); } else { LookupAbsent(fs, EDITOR); }
  }

  /** A description reads back, and then unchanged, exactly when it has a chunk and any editor record of it does. */
  predicate ReadsBack(d: ContentDesc) {
    d.chunkCount > 0 && (d.editor.Some? ==> d.editor.value.sigAlg == RsaPssSha256)
  }

  lemma {:induction false} BodyFieldsPass(d: ContentDesc, version: u16)
    requires EncodeBody(d, version).Ok?
    ensures (forall i :: 0 <= i < |DescFields(d)| ==> DescCheckAt(version)(DescFields(d)[i]) == None)
            <==> (d.editor.Some? ==> d.editor.value.sigAlg == RsaPssSha256)
  {
    hide Emit, EditorFields, DecodeEditor, Le32, Le64;
    var fs := DescFields(d);
    if d.editor.Some? {
      EditorRoundTrip(d.editor.value);
      assert fs[|fs| - 1] == Field(EDITOR, Emit(EditorFields(d.editor.value)));
      assert forall i :: 0 <= i < |fs| - 1 ==> DescCheckAt(version)(fs[i]) == None;
    }
  }

  lemma {:induction false} BodyRoundTrip(d: ContentDesc, version: u16)
    requires EncodeBody(d, version).Ok?
    ensures DecodeBody(EncodeBody(d, version).value, version).Ok? <==> ReadsBack(d)
    ensures ReadsBack(d) ==> DecodeBody(EncodeBody(d, version).value, version) == Ok(d)
  {
    hide Emit, Increasing, Checked, Lookup, EditorFields, DecodeEditor, DescCheckAt, Le32, Le64, FromLe32, FromLe64;
    var fs := DescFields(d);
    DescFieldsCanonical(d);
    CheckedOfEmit(fs, DescCheckAt(version));
    BodyFieldsPass(d, version);
    PlainLookups(d);
    if d.editor.Some? { EditorRoundTrip(d.editor.value); }
    Le64RoundTrip(d.totalLen);
    Le32RoundTrip(d.chunkCount);
    Le64RoundTrip(d.versionCounter);
    if d.footerOffset.Some? { Le64RoundTrip(d.footerOffset.value); }
  }

  /** Chunk count and length against the chunk size the author signed. */
  function CheckAgainstChunkSize(d: ContentDesc, chunkSize: u32): Result<(), FormatError> {
    match Layout.New(chunkSize, d.chunkCount, d.totalLen, 0)
    case Ok(_) => Ok(())
    case Err(e) => Err(e)
  }

  // ---- The authenticated region ------------------------------------------------------

  /** A message authentication code: key and message to a tag. */
  type Mac = (digest, bytes) -> digest

  const CONTENT_MAC_LABEL := "CC/v1/content-mac"

  /** What is authenticated: the file and the raw body. */
  function MacTranscript(fileId: id16, body: bytes): bytes {
    Domain(CONTENT_MAC_LABEL) + fileId + Prefixed(body)
  }

  /** A region authenticated for one file says nothing about another: file and body are both fixed. */
  lemma {:induction false} MacTranscriptInjective(f: id16, body: bytes, f': id16, body': bytes)
    requires MacTranscript(f, body) == MacTranscript(f', body')
    ensures f == f' && body == body'
  {
    hide Le32, Domain;
    var l := Domain(CONTENT_MAC_LABEL);
    SplitConcat(l + f, Prefixed(body), l + f', Prefixed(body'));
    SplitConcat(l, f, l, f');
    SplitConcat(Prefixed(body)[..4], body, Prefixed(body')[..4], body');
  }

  /** `ContentDescLen`, body, MAC. */
  function EncodeRegion(d: ContentDesc, key: digest, fileId: id16, version: u16, mac: Mac): Result<bytes, FormatError> {
    if d.chunkCount == 0 then Err(ChunkCountMismatch(1, 0))
    else
      match EncodeBody(d, version)
      case Err(e) => Err(e)
      case Ok(body) =>
        if |body| > U32_MAX then Err(OffsetOverflow)
        else if |body| > MAX_CONTENT_DESC_LEN then Err(ContentDescTooLarge(|body|))
        else Ok(Le32(|body|) + body + mac(key, MacTranscript(fileId, body)))
  }

  /** A verified region: the description, the authenticated body, and the number of bytes read. */
  datatype Verified = Verified(desc: ContentDesc, body: bytes, length: nat)

  /** Bounds, then the MAC, then the body. */
  function DecodeRegion(region: bytes, key: digest, fileId: id16, version: u16, mac: Mac): (r: Result<Verified, FormatError>)
    ensures r.Ok? ==> r.value.length <= |region|
  {
    if |region| < 4 then Err(Truncated(4, |region|))
    else
      var declared := FromLe32(region[..4]);
      var read := 4 + declared + MAC_LEN;
      if declared > MAX_CONTENT_DESC_LEN then Err(ContentDescTooLarge(declared))
      else if read > |region| then Err(Truncated(read, |region|))
      else
        var body, tag := region[4..4 + declared], region[4 + declared..read];
        if mac(key, MacTranscript(fileId, body)) != tag then Err(BadContentMac)
        else
          match DecodeBody(body, version)
          case Err(e) => Err(e)
          case Ok(d) => Ok(Verified(d, body, read))
  }

  /**
    The region reads back, whatever payload follows it, with exactly the bytes that were
    authenticated and up to exactly where the payload begins.
   */
  lemma {:induction false} RegionRoundTrip(d: ContentDesc, key: digest, fileId: id16, version: u16, mac: Mac, payload: bytes)
    requires EncodeRegion(d, key, fileId, version, mac).Ok?
    ensures var region := EncodeRegion(d, key, fileId, version, mac).value;
            var r := DecodeRegion(region + payload, key, fileId, version, mac);
            && (r.Ok? <==> ReadsBack(d))
            && (ReadsBack(d) ==> r == Ok(Verified(d, EncodeBody(d, version).value, |region|)) && (region + payload)[|region|..] == payload)
  {
    hide EncodeBody, DecodeBody, ReadsBack, MacTranscript;
    BodyRoundTrip(d, version);
    var body := EncodeBody(d, version).value;
    var region := EncodeRegion(d, key, fileId, version, mac).value + payload;
    Le32RoundTrip(|body|);
    assert region[..4] == Le32(|body|);
    assert region[4..4 + |body|] == body;
    assert region[4 + |body|..4 + |body| + MAC_LEN] == mac(key, MacTranscript(fileId, body));
  }

  /** The writer takes an Ed25519 editor record that the reader refuses. */
  lemma {:induction false} Ed25519EditorIsRefused()
    ensures var e := EditorSignature(Ed25519, Zeros(32), None, [], Zeros(256));
            EncodeEditor(e).Ok? && DecodeEditor(EncodeEditor(e).value).Err?
  {
    hide DecodeEditor;
    EditorRoundTrip(EditorSignature(Ed25519, Zeros(32), None, [], Zeros(256)));
  }
}
