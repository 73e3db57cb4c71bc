/** What an editor signs: the region body with the signature cut out, and the chain of saves. */
module Editing {
  import opened Bytes
  import opened Tlv
  import opened Content

  const EDITOR_SIG_LABEL := "CC/v1/editor-sig"
  const EDIT_SESSION_LABEL := "CC/v1/edit-session"

  // ---- Cutting out the signature -----------------------------------------------------

  /** Index of the first field with this tag, or the length of the list. */
  function FirstAt(fields: seq<Field>, tag: u16): (i: nat)
    ensures i <= |fields|
    ensures i < |fields| ==> fields[i].tag == tag
    ensures forall k :: 0 <= k < i ==> fields[k].tag != tag
  {
    if fields == [] || fields[0].tag == tag then 0
    else
      assert forall k :: 0 < k < |fields| ==> fields[k] == fields[1..][k - 1];
      1 + FirstAt(fields[1..], tag)
  }

  lemma {:induction false} FirstAtIs(fields: seq<Field>, tag: u16, i: nat)
    requires i < |fields| && fields[i].tag == tag && forall k :: 0 <= k < i ==> fields[k].tag != tag
    ensures FirstAt(fields, tag) == i
  {
  }

  /** Where a field is found, or why it is not. */
  function Locate(buf: bytes, tag: u16): Result<(Field, nat), FormatError> {
    var scan := ReadAll(buf);
    var i := FirstAt(scan.fields, tag);
    if i < |scan.fields| then Ok((scan.fields[i], |Emit(scan.fields[..i])| + FIELD_PREFIX_LEN))
    else if scan.failure.Some? then Err(scan.failure.value)
    else Err(MissingField(tag))
  }

  /** The body without the signature subfield of the editor record. */
  function Cut(body: bytes): Result<bytes, FormatError> {
    match Locate(body, EDITOR)
    case Err(e) => Err(e)
    case Ok((record, base)) =>
      match Locate(record.value, SIGNATURE)
      case Err(e) => Err(e)
      case Ok((sub, at)) =>
        var start, end := base + at - FIELD_PREFIX_LEN, base + at + |sub.value|;
        if start < 0 || end > |body| then Err(OffsetOverflow) else Ok(body[..start] + body[end..])
  }

  lemma {:induction false} LocateFound(buf: bytes, tag: u16, pos: nat, last: Option<u16>, seen: seq<Field>)
    requires Reading(buf, AnyField, pos, last, seen) && forall k :: 0 <= k < |seen| ==> seen[k].tag != tag
    ensures match NextAt(buf, pos, last)
            case Err(e) => Locate(buf, tag) == Err(e)
            case Ok(None) => Locate(buf, tag) == Err(MissingField(tag))
            case Ok(Some(found)) => found.field.tag == tag ==> Locate(buf, tag) == Ok((found.field, found.start))
  {
    hide Emit, FirstAt, Record;
    match NextAt(buf, pos, last)
    case Err(e) => assert ReadAll(buf) == Scan(seen, Some(e)) by { assert seen + [] == seen; }
    case Ok(None) => assert ReadAll(buf) == Scan(seen, None) by { assert seen + [] == seen; }
    case Ok(Some(found)) =>
      if found.field.tag == tag {
        var rest := ReadFrom(buf, found.start + |found.field.value|, Some(found.field.tag));
        var all := ReadAll(buf).fields;
        assert all == seen + ([found.field] + rest.fields);
        FirstAtIs(all, tag, |seen|);
        assert all[..|seen|] == seen;
      }
  }

  /** One of the two nested searches: read fields until the tag turns up. */
  method FindField(buf: bytes, tag: u16) returns (r: Result<(Field, nat), FormatError>)
    ensures r == Locate(buf, tag)
  {
    hide Reading, NextAt, Locate;
    var reader := new TlvReader(buf);
    ghost var seen: seq<Field> := [];
    ReadingStarts(buf, AnyField);
    while true
      invariant reader.Valid() && fresh(reader) && reader.buf == buf
      invariant Reading(buf, AnyField, reader.pos, reader.lastTag, seen)
      invariant forall k :: 0 <= k < |seen| ==> seen[k].tag != tag
      decreases |buf| - reader.pos
    {
      ReadingStep(buf, AnyField, reader.pos, reader.lastTag, seen);
      LocateFound(buf, tag, reader.pos, reader.lastTag, seen);
      var next := reader.NextField();
      if next.Err? {
        return Err(next.error);
      }
      if next.value.None? {
        return Err(MissingField(tag));
      }
      var found := next.value.value;
      if found.field.tag == tag {
        return Ok((found.field, found.start));
      }
      seen := seen + [found.field];
    }
  }

  method BodyWithoutSignature(body: bytes) returns (r: Result<bytes, FormatError>)
    ensures r == Cut(body)
  {
    hide Locate;
    var outer := FindField(body, EDITOR);
    if outer.Err? {
      return Err(outer.error);
    }
    var (record, base) := outer.value;
    var inner := FindField(record.value, SIGNATURE);
    if inner.Err? {
      return Err(inner.error);
    }
    var (sub, at) := inner.value;
    var cutStart, cutEnd := base + at - FIELD_PREFIX_LEN, base + at + |sub.value|;
    if cutStart < 0 || cutEnd > |body| {
      return Err(OffsetOverflow);
    }
    return Ok(body[..cutStart] + body[cutEnd..]);
  }

  // ---- The cut does not see the signature ----------------------------------------------

  /** The bytes an editor signs for a description: everything but the signature record. */
  function SignedBytes(d: ContentDesc): bytes
    requires d.editor.Some?
  {
    var e := d.editor.value;
    Emit(PlainFields(d)) + Le16(EDITOR) + Le32(|Emit(EditorFields(e))| % 0x1_0000_0000) + Emit(EditorFields(e)[..4])
  }

  lemma {:induction false} LocateInEmit(fields: seq<Field>, tag: u16, i: nat)
    requires Canonical(fields) && i < |fields| && fields[i].tag == tag
    requires forall k :: 0 <= k < i ==> fields[k].tag != tag
    ensures Locate(Emit(fields), tag) == Ok((fields[i], |Emit(fields[..i])| + FIELD_PREFIX_LEN))
  {
    hide Emit, FirstAt, ReadAll;
    ReadIsInverseOfEmit(Emit(fields), fields);
    FirstAtIs(fields, tag, i);
  }

  /** Cutting the encoding of a description leaves exactly the signed bytes. */
  lemma {:induction false} CutOfEncoded(d: ContentDesc, version: u16)
    requires EncodeBody(d, version).Ok? && d.editor.Some?
    ensures Cut(EncodeBody(d, version).value) == Ok(SignedBytes(d))
  {
    hide Emit, Locate, Increasing;
    var e, fs := d.editor.value, DescFields(d);
    var es := EditorFields(e);
    var n := |PlainFields(d)|;
    DescFieldsCanonical(d);
    EditorFieldsCanonical(e);
    LocateInEmit(fs, EDITOR, n);
    LocateInEmit(es, SIGNATURE, 4);
    assert fs[..n] == PlainFields(d) && fs[n] == Field(EDITOR, Emit(es));
    EmitAppend(PlainFields(d), [fs[n]]);
    EmitOfOne(fs[n]);
    assert es == es[..4] + [es[4]];
    EmitAppend(es[..4], [es[4]]);
    EmitOfOne(es[4]);
    var a, b, c, s := Emit(PlainFields(d)), Le16(EDITOR) + Le32(|Emit(es)| % 0x1_0000_0000), Emit(es[..4]), Record(es[4]);
    CutMiddle(a, b, c, s);
    Regroup(a, Le16(EDITOR), Le32(|Emit(es)| % 0x1_0000_0000));
    assert EncodeBody(d, version).value == a + (b + (c + s));
    assert SignedBytes(d) == a + b + c;
  }

  lemma {:induction false} CutMiddle(a: bytes, b: bytes, c: bytes, s: bytes)
    ensures var whole := a + (b + (c + s));
            var start := |a| + |b| + |c|;
            whole[..start] + whole[start + |s|..] == a + b + c
  {
    var whole := a + (b + (c + s));
    assert whole == (a + b + c) + s;
  }

  /**
    The transcript prepared with a zero signature is the one rebuilt from the finished body,
    whatever signature was put in.
   */
  lemma {:induction false} CutIgnoresSignature(d: ContentDesc, version: u16, signature: bytes)
    requires EncodeBody(d, version).Ok? && d.editor.Some? && |signature| == EDITOR_SIGNATURE_LEN
    ensures var signed := d.(editor := Some(d.editor.value.(signature := signature)));
            && EncodeBody(signed, version).Ok?
            && Cut(EncodeBody(signed, version).value) == Cut(EncodeBody(d, version).value)
  {
    hide Emit, Cut;
    var signed := d.(editor := Some(d.editor.value.(signature := signature)));
    CutOfEncoded(d, version);
    CutOfEncoded(signed, version);
    EditorLength(d.editor.value);
    EditorLength(signed.editor.value);
    assert EditorFields(d.editor.value)[..4] == EditorFields(signed.editor.value)[..4];
  }

  // ---- ... and sees everything else -------------------------------------------------------

  /** An accepted editor record opens with its five subfields, in order. */
  lemma {:induction false} EditorOpensWithFive(value: bytes, k: nat)
    requires DecodeEditor(value).Ok? && k < 5
    ensures var fs := ReadAll(value).fields;
            && Canonical(fs) && Emit(fs) == value
            && k < |fs| && fs[k].tag == k + 1
            && (k == 4 ==> |fs[k].value| == EDITOR_SIGNATURE_LEN && DecodeEditor(value).value.signature == fs[k].value)
    decreases k
  {
    hide Emit, Lookup, ReadAll;
    var fs := Checked(value, EditorCheck).value;
    CheckedIs(value, EditorCheck, fs);
    assert ReadAll(value).fields == fs by { ReadIsInverseOfEmit(value, fs); }
    var tag: u16 := k + 1;
    LookupPresent(fs, tag);
    var j :| 0 <= j < |fs| && fs[j] == Field(tag, Lookup(fs, tag).value);
    assert EditorCheck(fs[0]) == None;
    if k > 0 {
      EditorOpensWithFive(value, k - 1);
      if j <= k - 1 { if j < k - 1 { TagsOrdered(fs, j, k - 1); } }
      if j > k { TagsOrdered(fs, k - 1, k); TagsOrdered(fs, k, j); }
    } else if j > 0 {
      TagsOrdered(fs, 0, j);
    }
    assert j == k;
    assert EditorCheck(fs[k]) == None;
  }

  /** The parts of an accepted body around its signature. */
  datatype Parts = Parts(plain: seq<Field>, header: bytes, inner: seq<Field>, signature: bytes, tail: bytes)

  ghost predicate Splits(body: bytes, p: Parts) {
    && Sized(p.plain) && (forall k :: 0 <= k < |p.plain| ==> p.plain[k].tag != EDITOR)
    && |p.header| == FIELD_PREFIX_LEN && p.header[..2] == Le16(EDITOR)
    && Sized(p.inner) && |p.inner| == 4
    && |p.signature| == EDITOR_SIGNATURE_LEN
    && body == Front(p) + Record(Field(SIGNATURE, p.signature)) + p.tail
    && Cut(body) == Ok(Front(p) + p.tail)
  }

  function Front(p: Parts): bytes {
    Emit(p.plain) + (p.header + Emit(p.inner))
  }

  lemma {:induction false} EditorParts(value: bytes) returns (inner: seq<Field>)
    requires DecodeEditor(value).Ok?
    ensures Canonical(inner) && Emit(inner) == value && |inner| > 4
    ensures inner[4] == Field(SIGNATURE, DecodeEditor(value).value.signature)
    ensures |inner[4].value| == EDITOR_SIGNATURE_LEN
    ensures Locate(value, SIGNATURE) == Ok((inner[4], |Emit(inner[..4])| + FIELD_PREFIX_LEN))
  {
    hide Emit, Increasing, Locate, ReadAll;
    inner := ReadAll(value).fields;
    EditorOpensWithFive(value, 4);
    forall k | 0 <= k < 4
      ensures inner[k].tag != SIGNATURE
    {
      TagsOrdered(inner, k, 4);
    }
    LocateInEmit(inner, SIGNATURE, 4);
  }

  lemma {:induction false} AcceptedSplits(body: bytes, version: u16) returns (p: Parts)
    requires DecodeBody(body, version).Ok? && DecodeBody(body, version).value.editor.Some?
    ensures Splits(body, p)
    ensures p.signature == DecodeBody(body, version).value.editor.value.signature
  {
    hide Emit, Increasing, Lookup, ReadAll, Locate, Le16, DecodeEditor, AsU64, AsU32, AsDigest;
    var fs := Checked(body, DescCheckAt(version)).value;
    CheckedIs(body, DescCheckAt(version), fs);
    LookupPresent(fs, EDITOR);
    var i :| 0 <= i < |fs| && fs[i] == Field(EDITOR, Lookup(fs, EDITOR).value);
    forall k | 0 <= k < i
      ensures fs[k].tag != EDITOR
    {
      TagsOrdered(fs, k, i);
    }
    LocateInEmit(fs, EDITOR, i);

    var value := fs[i].value;
    var inner := EditorParts(value);
    var header := Le16(EDITOR) + Le32(|value| % 0x1_0000_0000);
    p := Parts(fs[..i], header, inner[..4], inner[4].value, Emit(inner[5..]) + Emit(fs[i + 1..]));
    SplitAt(fs, i);
    SplitAt(inner, 4);
    BodyFromParts(p, Emit(inner[5..]), Emit(fs[i + 1..]), value, body);
  }

  lemma {:induction false} SplitAt(fields: seq<Field>, i: nat)
    requires i < |fields|
    ensures Emit(fields) == Emit(fields[..i]) + (Record(fields[i]) + Emit(fields[i + 1..]))
  {
    hide Emit, Record;
    assert fields == fields[..i] + ([fields[i]] + fields[i + 1..]);
    EmitAppend(fields[..i], [fields[i]] + fields[i + 1..]);
    EmitAppend([fields[i]], fields[i + 1..]);
    EmitOfOne(fields[i]);
  }

  lemma {:induction false} BodyFromParts(p: Parts, innerTail: bytes, outerTail: bytes, value: bytes, body: bytes)
    requires value == Emit(p.inner) + (Record(Field(SIGNATURE, p.signature)) + innerTail)
    requires body == Emit(p.plain) + ((p.header + value) + outerTail) && p.tail == innerTail + outerTail
    ensures body == Front(p) + Record(Field(SIGNATURE, p.signature)) + p.tail
    ensures var start, end := |Front(p)|, |Front(p)| + |Record(Field(SIGNATURE, p.signature))|;
            end <= |body| && body[..start] + body[end..] == Front(p) + p.tail
  {
    hide Emit, Record;
    var s := Record(Field(SIGNATURE, p.signature));
    assert body == Front(p) + s + p.tail;
    assert (Front(p) + s + p.tail)[..|Front(p)|] == Front(p);
    assert (Front(p) + s + p.tail)[|Front(p)| + |s|..] == p.tail;
  }

  /**
    Two accepted bodies with the same cut, hence with the same bytes under the editor's
    signature, differ at most in the 256 bytes of the signature itself.
   */
  lemma {:induction false} SameCutSameBody(a: bytes, b: bytes, version: u16) returns (at: nat)
    requires DecodeBody(a, version).Ok? && DecodeBody(a, version).value.editor.Some?
    requires DecodeBody(b, version).Ok? && DecodeBody(b, version).value.editor.Some?
    requires Cut(a) == Cut(b)
    ensures |a| == |b| && at + EDITOR_SIGNATURE_LEN <= |a|
    ensures a[..at] == b[..at] && a[at + EDITOR_SIGNATURE_LEN..] == b[at + EDITOR_SIGNATURE_LEN..]
    ensures a[at..at + EDITOR_SIGNATURE_LEN] == DecodeBody(a, version).value.editor.value.signature
    ensures b[at..at + EDITOR_SIGNATURE_LEN] == DecodeBody(b, version).value.editor.value.signature
  {
    hide Emit, DecodeBody, Cut, Record, Le16, Le32;
    var p := AcceptedSplits(a, version);
    var q := AcceptedSplits(b, version);
    var x, y := p.header + Emit(p.inner) + p.tail, q.header + Emit(q.inner) + q.tail;
    assert Front(p) + p.tail == Emit(p.plain) + x && Front(q) + q.tail == Emit(q.plain) + y;
    assert x[..2] == p.header[..2] && y[..2] == q.header[..2];
    SameFieldsBefore(p.plain, q.plain, x, y, EDITOR);
    Regroup(p.header, Emit(p.inner), p.tail);
    Regroup(q.header, Emit(q.inner), q.tail);
    SplitConcat(p.header, Emit(p.inner) + p.tail, q.header, Emit(q.inner) + q.tail);
    SamePrefixFields(p.inner, q.inner, p.tail, q.tail);
    at := |Front(p)| + FIELD_PREFIX_LEN;
    SignatureAt(Front(p), p.signature, p.tail, a);
    SignatureAt(Front(p), q.signature, p.tail, b);
  }

  lemma {:induction false} SignatureAt(front: bytes, signature: bytes, tail: bytes, body: bytes)
    requires |signature| == EDITOR_SIGNATURE_LEN && body == front + Record(Field(SIGNATURE, signature)) + tail
    ensures var at := |front| + FIELD_PREFIX_LEN;
            && |body| == at + EDITOR_SIGNATURE_LEN + |tail|
            && body[..at] == front + (Le16(SIGNATURE) + Le32(EDITOR_SIGNATURE_LEN))
            && body[at..at + EDITOR_SIGNATURE_LEN] == signature
            && body[at + EDITOR_SIGNATURE_LEN..] == tail
  {
    var h := Le16(SIGNATURE) + Le32(EDITOR_SIGNATURE_LEN);
    assert body == (front + h) + (signature + tail);
  }

  // ---- The transcript -------------------------------------------------------------------

  /** Label, separator, core hash, length-prefixed cut. */
  function TranscriptBytes(coreHash: digest, cut: bytes): bytes {
    Domain(EDITOR_SIG_LABEL) + coreHash + Prefixed(cut)
  }

  function EditorTranscript(coreHash: digest, body: bytes): Result<bytes, FormatError> {
    match Cut(body)
    case Err(e) => Err(e)
    case Ok(cut) => Ok(TranscriptBytes(coreHash, cut))
  }

  /** The transcript names the header and the cut unambiguously. */
  lemma {:induction false} TranscriptInjective(h: digest, cut: bytes, h': digest, cut': bytes)
    requires TranscriptBytes(h, cut) == TranscriptBytes(h', cut')
    ensures h == h' && cut == cut'
  {
    hide Le32, Domain;
    var l := Domain(EDITOR_SIG_LABEL);
    SplitConcat(l + h, Prefixed(cut), l + h', Prefixed(cut'));
    SplitConcat(l, h, l, h');
    SplitConcat(Prefixed(cut)[..4], cut, Prefixed(cut')[..4], cut');
  }

  /** A draft signature: all of it but the signature, which is zeros. */
  function UnsignedEditor(sessionHead: digest, journalHead: Option<JournalHead>, certifiedBy: bytes): EditorSignature {
    EditorSignature(RsaPssSha256, sessionHead, journalHead, certifiedBy, Zeros(EDITOR_SIGNATURE_LEN))
  }

  /** The counter after the base, while there is one. */
  function NextCounter(base: u64): Option<u64> {
    if base == U64_MAX then None else Some(base + 1)
  }
}
