/** The author's access decision: one encoding per decision. */
module Access {
  import opened Bytes
  import opened Tlv
  import opened Content

  const FILE_ID: u16 := 1
  const DEVICE_FPR: u16 := 2
  const SEQ: u16 := 6
  const APPROVE: u16 := 8
  const ENC: u16 := 9
  const NONCE: u16 := 10
  const CT: u16 := 11
  const AUTHOR_KEY: u16 := 12
  const DECISION_SIGNATURE: u16 := 13

  type signature64 = b: bytes | |b| == 64 witness Zeros(64)

  datatype Blob = Blob(enc: bytes, nonce: nonce24, ct: bytes)

  datatype Decision = Decision(
    seq_: u64, fileId: id16, deviceFpr: digest, approve: bool, shareB: Option<Blob>, authorKey: digest, signature: signature64)

  // ---- Encoding ------------------------------------------------------------------

  function ShareFields(share: Option<Blob>): seq<Field> {
    match share
    case None => []
    case Some(blob) => [Field(ENC, blob.enc), Field(NONCE, blob.nonce), Field(CT, blob.ct)]
  }

  /** What is signed: every field but the signature. */
  function BodyFields(d: Decision): seq<Field> {
    [ Field(FILE_ID, d.fileId), Field(DEVICE_FPR, d.deviceFpr), Field(SEQ, Le64(d.seq_)),
      Field(APPROVE, [if d.approve then 1 else 0]) ]
    + ShareFields(d.shareB) + [Field(AUTHOR_KEY, d.authorKey)]
  }

  function DecisionFields(d: Decision): seq<Field> {
    BodyFields(d) + [Field(DECISION_SIGNATURE, d.signature)]
  }

  function DecisionBody(d: Decision): Result<bytes, FormatError> {
    if d.shareB.Some? && |d.shareB.value.enc| > U32_MAX then Err(BadFieldLength(ENC, |d.shareB.value.enc|))
    else if d.shareB.Some? && |d.shareB.value.ct| > U32_MAX then Err(BadFieldLength(CT, |d.shareB.value.ct|))
    else Ok(Emit(BodyFields(d)))
  }

  function EncodeDecision(d: Decision): Result<bytes, FormatError> {
    match DecisionBody(d)
    case Err(e) => Err(e)
    case Ok(body) => Ok(body + Emit([Field(DECISION_SIGNATURE, d.signature)]))
  }

  /** The three records of a share, behind the approval flag. */
  method WriteShare(w: TlvWriter, share: Option<Blob>) returns (r: Result<(), FormatError>)
    requires w.Valid() && w.lastTag == Some(APPROVE)
    modifies w
    ensures w.Valid()
    ensures r == if share.Some? && |share.value.enc| > U32_MAX then Err(BadFieldLength(ENC, |share.value.enc|))
                 else if share.Some? && |share.value.ct| > U32_MAX then Err(BadFieldLength(CT, |share.value.ct|))
                 else Ok(())
    ensures r.Ok? ==> w.fields == old(w.fields) + ShareFields(share) && w.lastTag.Some? && w.lastTag.value <= CT
  {
    hide Emit, Canonical;
    if share.None? {
      return Ok(());
    }
    var _ :- w.Put(ENC, share.value.enc);
    var put := w.Put(NONCE, share.value.nonce);
    var _ :- w.Put(CT, share.value.ct);
    return Ok(());
  }

  method WriteBody(d: Decision) returns (r: Result<bytes, FormatError>)
    ensures r == DecisionBody(d)
  {
    hide Emit, Canonical, Le64, ShareFields;
    var w := new TlvWriter();
    var put := w.Put(FILE_ID, d.fileId);
    put := w.Put(DEVICE_FPR, d.deviceFpr);
    put := w.Put(SEQ, Le64(d.seq_));
    put := w.Put(APPROVE, [if d.approve then 1 else 0]);
    var _ :- WriteShare(w, d.shareB);
    put := w.Put(AUTHOR_KEY, d.authorKey);
    assert w.fields == BodyFields(d);
    return Ok(w.buf);
  }

  method WriteDecision(d: Decision) returns (r: Result<bytes, FormatError>)
    ensures r == EncodeDecision(d)
  {
    var body := WriteBody(d);
    if body.Err? {
      return body;
    }
    var w := new TlvWriter();
    var put := w.Put(DECISION_SIGNATURE, d.signature);
    assert w.fields == [Field(DECISION_SIGNATURE, d.signature)];
    return Ok(body.value + w.buf);
  }

  // ---- Decoding ------------------------------------------------------------------

  /** Every unknown tag is refused: a skipped field would drop out of the signed bytes. */
  function DecisionCheck(f: Field): Option<FormatError> {
    if f.tag == SEQ then LengthIs(f, 8)
    else if f.tag == FILE_ID then LengthIs(f, 16)
    else if f.tag == DEVICE_FPR || f.tag == AUTHOR_KEY then LengthIs(f, 32)
    else if f.tag == APPROVE then if f.value == [0] || f.value == [1] then None else Some(BadFieldLength(APPROVE, |f.value|))
    else if f.tag == NONCE then LengthIs(f, 24)
    else if f.tag == DECISION_SIGNATURE then LengthIs(f, 64)
    else if f.tag == ENC || f.tag == CT then None
    else Some(UnknownCriticalField(f.tag))
  }

  function AsSignature(v: bytes): signature64 {
    if |v| == 64 then v else Zeros(64)
  }

  /** An approval carries a whole share, a denial none of it. */
  function ShareOf(approve: bool, enc: Option<bytes>, nonce: Option<bytes>, ct: Option<bytes>): Result<Option<Blob>, FormatError> {
    if approve then
      if enc.Some? && nonce.Some? && ct.Some? then Ok(Some(Blob(enc.value, AsNonce(nonce.value), ct.value)))
      else Err(MissingField(CT))
    else if enc.None? && nonce.None? && ct.None? then Ok(None)
    else Err(BadFieldLength(CT, 0))
  }

  function BuildDecision(fields: seq<Field>): Result<Decision, FormatError> {
    var approve := Lookup(fields, APPROVE);
    if approve.None? then Err(MissingField(APPROVE))
    else
      match ShareOf(approve.value == [1], Lookup(fields, ENC), Lookup(fields, NONCE), Lookup(fields, CT))
      case Err(e) => Err(e)
      case Ok(share) =>
        var number, file, fpr, key, sig := Lookup(fields, SEQ), Lookup(fields, FILE_ID), Lookup(fields, DEVICE_FPR),
                                           Lookup(fields, AUTHOR_KEY), Lookup(fields, DECISION_SIGNATURE);
        if number.None? then Err(MissingField(SEQ))
        else if file.None? then Err(MissingField(FILE_ID))
        else if fpr.None? then Err(MissingField(DEVICE_FPR))
        else if key.None? then Err(MissingField(AUTHOR_KEY))
        else if sig.None? then Err(MissingField(DECISION_SIGNATURE))
        else Ok(Decision(AsU64(number.value), AsId(file.value), AsDigest(fpr.value), approve.value == [1], share,
                         AsDigest(key.value), AsSignature(sig.value)))
  }

  function DecodeDecision(bytes_: bytes): Result<Decision, FormatError> {
    match Checked(bytes_, DecisionCheck)
    case Err(e) => Err(e)
    case Ok(fields) => BuildDecision(fields)
  }

  method ReadDecision(input: bytes) returns (r: Result<Decision, FormatError>)
    ensures r == DecodeDecision(input)
  {
    hide Reading, Checked, NextAt, Lookup, ReadAll;
    var reader := new TlvReader(input);
    var number: Option<bytes>, fileId: Option<bytes>, fpr: Option<bytes>, approve: Option<bool> := None, None, None, None;
    var enc: Option<bytes>, nonce: Option<bytes>, ct: Option<bytes> := None, None, None;
    var authorKey: Option<bytes>, signature: Option<bytes> := None, None;
    ghost var seen: seq<Field> := [];
    ReadingStarts(input, DecisionCheck);
    LookupOfNothing();
    while true
      invariant reader.Valid() && fresh(reader) && reader.buf == input
      invariant Reading(input, DecisionCheck, reader.pos, reader.lastTag, seen)
      invariant number == Lookup(seen, SEQ) && fileId == Lookup(seen, FILE_ID) && fpr == Lookup(seen, DEVICE_FPR)
      invariant approve == if Lookup(seen, APPROVE).Some? then Some(Lookup(seen, APPROVE).value == [1]) else None
      invariant enc == Lookup(seen, ENC) && nonce == Lookup(seen, NONCE) && ct == Lookup(seen, CT)
      invariant authorKey == Lookup(seen, AUTHOR_KEY) && signature == Lookup(seen, DECISION_SIGNATURE)
      decreases |input| - reader.pos
    {
      ReadingStep(input, DecisionCheck, reader.pos, reader.lastTag, seen);
      var next := reader.NextField();
      if next.Err? {
        return Err(next.error);
      }
      if next.value.None? {
        break;
      }
      var f := next.value.value.field;
      LookupAppendAll(seen, f);
      seen := seen + [f];
      var bad := DecisionCheck(f);
      if bad.Some? {
        return Err(bad.value);
      }
      if f.tag == SEQ {
        number := Some(f.value);
      } else if f.tag == FILE_ID {
        fileId := Some(f.value);
      } else if f.tag == DEVICE_FPR {
        fpr := Some(f.value);
      } else if f.tag == APPROVE {
        approve := Some(f.value[0] == 1);
      } else if f.tag == ENC {
        enc := Some(f.value);
      } else if f.tag == NONCE {
        nonce := Some(f.value);
      } else if f.tag == CT {
        ct := Some(f.value);
      } else if f.tag == AUTHOR_KEY {
        authorKey := Some(f.value);
      } else {
        signature := Some(f.value);
      }
    }
    if approve.None? { return Err(MissingField(APPROVE)); }
    var share := ShareOf(approve.value, enc, nonce, ct);
    if share.Err? { return Err(share.error); }
    if number.None? { return Err(MissingField(SEQ)); }
    if fileId.None? { return Err(MissingField(FILE_ID)); }
    if fpr.None? { return Err(MissingField(DEVICE_FPR)); }
    if authorKey.None? { return Err(MissingField(AUTHOR_KEY)); }
    if signature.None? { return Err(MissingField(DECISION_SIGNATURE)); }
    return Ok(Decision(AsU64(number.value), AsId(fileId.value), AsDigest(fpr.value), approve.value, share.value,
                       AsDigest(authorKey.value), AsSignature(signature.value)));
  }

  // ---- One encoding per decision ------------------------------------------------------

  /** What each tag of an encoded decision holds. */
  function ValueUnder(d: Decision, tag: u16): Option<bytes> {
    if tag == FILE_ID then Some(d.fileId)
    else if tag == DEVICE_FPR then Some(d.deviceFpr)
    else if tag == SEQ then Some(Le64(d.seq_))
    else if tag == APPROVE then Some([if d.approve then 1 else 0])
    else if tag == ENC && d.shareB.Some? then Some(d.shareB.value.enc)
    else if tag == NONCE && d.shareB.Some? then Some(d.shareB.value.nonce)
    else if tag == CT && d.shareB.Some? then Some(d.shareB.value.ct)
    else if tag == AUTHOR_KEY then Some(d.authorKey)
    else if tag == DECISION_SIGNATURE then Some(d.signature)
    else None
  }

  lemma {:induction false} DecisionFieldsIncrease(d: Decision)
    ensures Increasing(None, DecisionFields(d))
  {
    IncreasingByNeighbours(DecisionFields(d));
  }

  lemma {:induction false} DecisionLookup(d: Decision, tag: u16)
    ensures Lookup(DecisionFields(d), tag) == ValueUnder(d, tag)
  {
    hide Lookup, Increasing;
    var fs := DecisionFields(d);
    DecisionFieldsIncrease(d);
    if i :| 0 <= i < |fs| && fs[i].tag == tag {
      LookupFound(fs, i);
    } else {
      LookupAbsent(fs, tag);
      assert fs[0].tag == FILE_ID && fs[1].tag == DEVICE_FPR && fs[2].tag == SEQ && fs[3].tag == APPROVE;
      assert fs[|fs| - 2].tag == AUTHOR_KEY && fs[|fs| - 1].tag == DECISION_SIGNATURE;
      if d.shareB.Some? { assert fs[4].tag == ENC && fs[5].tag == NONCE && fs[6].tag == CT; }
    }
  }

  lemma {:induction false} EncodedIsEmit(d: Decision)
    ensures EncodeDecision(d).Ok? <==> Sized(DecisionFields(d))
    ensures EncodeDecision(d).Ok? ==> EncodeDecision(d).value == Emit(DecisionFields(d))
  {
    hide Emit;
    EmitAppend(BodyFields(d), [Field(DECISION_SIGNATURE, d.signature)]);
    var fs := DecisionFields(d);
    if d.shareB.Some? {
      assert fs[4] == Field(ENC, d.shareB.value.enc) && fs[6] == Field(CT, d.shareB.value.ct);
    }
  }

  /**
    A decision that can be written reads back exactly when its share matches its approval flag,
    and then as itself.
   */
  lemma {:induction false} DecisionRoundTrip(d: Decision)
    requires EncodeDecision(d).Ok?
    ensures DecodeDecision(EncodeDecision(d).value).Ok? <==> d.approve == d.shareB.Some?
    ensures d.approve == d.shareB.Some? ==> DecodeDecision(EncodeDecision(d).value) == Ok(d)
  {
    hide Emit, Increasing, Checked, Lookup;
    var fs := DecisionFields(d);
    EncodedIsEmit(d);
    DecisionFieldsIncrease(d);
    assert forall i :: 0 <= i < |fs| ==> DecisionCheck(fs[i]) == None;
    CheckedIs(Emit(fs), DecisionCheck, fs);
    DecisionLookup(d, FILE_ID);
    DecisionLookup(d, DEVICE_FPR);
    DecisionLookup(d, SEQ);
    DecisionLookup(d, APPROVE);
    DecisionLookup(d, ENC);
    DecisionLookup(d, NONCE);
    DecisionLookup(d, CT);
    DecisionLookup(d, AUTHOR_KEY);
    DecisionLookup(d, DECISION_SIGNATURE);
    Le64RoundTrip(d.seq_);
  }

  /** A denial that carries a share can be written and not read. */
  lemma {:induction false} DenialWithShareIsRefused()
    ensures var d := Decision(0, Zeros(16), Zeros(32), false, Some(Blob([], Zeros(24), [])), Zeros(32), Zeros(64));
            EncodeDecision(d).Ok? && DecodeDecision(EncodeDecision(d).value).Err?
  {
    hide DecodeDecision;
    DecisionRoundTrip(Decision(0, Zeros(16), Zeros(32), false, Some(Blob([], Zeros(24), [])), Zeros(32), Zeros(64)));
  }

  /** Under every tag, accepted fields hold what the decoded decision would be encoded with. */
  lemma {:induction false} DecodedLookup(fields: seq<Field>, d: Decision, tag: u16)
    requires forall i :: 0 <= i < |fields| ==> DecisionCheck(fields[i]) == None
    requires BuildDecision(fields) == Ok(d)
    ensures Lookup(fields, tag) == ValueUnder(d, tag)
  {
    hide Lookup;
    LookupChecked(fields, DecisionCheck, tag);
    LookupChecked(fields, DecisionCheck, APPROVE);
    if tag == SEQ { FromLe64RoundTrip(Lookup(fields, SEQ).value); }
  }

  /**
    Access decisions have one encoding: whatever bytes are accepted, encoding the result gives
    back those bytes, so the body rebuilt for the signature check is what was sent.
   */
  lemma {:induction false} AcceptedBytesAreTheEncoding(sent: bytes, d: Decision)
    requires DecodeDecision(sent) == Ok(d)
    ensures EncodeDecision(d) == Ok(sent)
    ensures DecisionBody(d).Ok? && sent == DecisionBody(d).value + Record(Field(DECISION_SIGNATURE, d.signature))
  {
    hide Emit, Increasing, Checked, Lookup;
    var fields := Checked(sent, DecisionCheck).value;
    CheckedIs(sent, DecisionCheck, fields);
    DecisionFieldsIncrease(d);
    forall tag: u16
      ensures Lookup(fields, tag) == Lookup(DecisionFields(d), tag)
    {
      DecodedLookup(fields, d, tag);
      DecisionLookup(d, tag);
    }
    SameLookups(fields, DecisionFields(d));
    EncodedIsEmit(d);
    EmitOfOne(Field(DECISION_SIGNATURE, d.signature));
  }
}
