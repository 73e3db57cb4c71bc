/** Key slots: per-mechanism lengths, the shape of each kind, and skipping what is not understood. */
module Slots {
  import opened Bytes
  import opened Tlv
  import opened Content
  import opened Writing

  datatype SlotKind = Server | RecipientIdentity | RecipientClaim | AuthorDevice
  datatype KemAlg = X25519 | P256 | RsaOaep | XWing | MlKem768P256

  datatype KnownSlot = KnownSlot(
    kind: SlotKind, kem: KemAlg, enc: bytes, nonce: nonce24, ct: bytes, commitment: digest,
    keyFpr: Option<bytes>, claimCommit: Option<digest>)

  /** A slot that is not understood is kept as it came and not used. */
  datatype KeySlot = Known(slot: KnownSlot) | Unknown(kindNumber: u16, raw: bytes)

  const KIND: u16 := 1
  const KEM: u16 := 2
  const ENC: u16 := 3
  const CT: u16 := 4
  const COMMITMENT: u16 := 5
  const KEY_FPR: u16 := 6
  const NONCE: u16 := 7
  const CLAIM_COMMIT: u16 := 8
  const KEY_SLOTS: u16 := 10
  const MAX_KEY_SLOTS: nat := 1024

  function KindNumber(k: SlotKind): (n: u16)
    ensures NumberKind(n) == Some(k)
  {
    match k case Server => 1 case RecipientIdentity => 2 case RecipientClaim => 3 case AuthorDevice => 4
  }

  function NumberKind(n: u16): Option<SlotKind> {
    if n == 1 then Some(Server) else if n == 2 then Some(RecipientIdentity)
    else if n == 3 then Some(RecipientClaim) else if n == 4 then Some(AuthorDevice) else None
  }

  function KemId(k: KemAlg): (n: byte)
    ensures IdKem(n) == Some(k)
  {
    match k case X25519 => 1 case P256 => 2 case RsaOaep => 3 case XWing => 4 case MlKem768P256 => 5
  }

  function IdKem(n: byte): Option<KemAlg> {
    if n == 1 then Some(X25519) else if n == 2 then Some(P256) else if n == 3 then Some(RsaOaep)
    else if n == 4 then Some(XWing) else if n == 5 then Some(MlKem768P256) else None
  }

  /** A length belongs to a pair of version and mechanism; none means the version has no such form. */
  function EncLength(version: u16, kem: KemAlg): Option<nat> {
    match kem
    case X25519 => Some(32)
    case P256 => if version >= 2 then Some(65) else None
    case XWing => if version >= 4 then Some(1120) else None
    case MlKem768P256 => if version >= 5 then Some(1153) else None
    case RsaOaep => None
  }

  function FprLength(version: u16, kem: KemAlg): Option<nat> {
    match kem
    case X25519 => Some(32)
    case P256 => if version >= 2 then Some(65) else None
    case XWing => if version >= 4 then Some(1216) else None
    case MlKem768P256 => if version >= 5 then Some(1249) else None
    case RsaOaep => None
  }

  predicate Seals(kind: SlotKind) {
    kind != RecipientClaim
  }

  /** A sealing slot holds a ciphertext and no claim; a claim slot the reverse, and zeros elsewhere. */
  function CheckShape(kind: SlotKind, kem: KemAlg, hasClaim: bool, ctLen: nat, hasFpr: bool, enc: bytes, nonce: bytes): Option<FormatError> {
    var seals := Seals(kind);
    if seals == hasClaim then Some(BadFieldLength(CLAIM_COMMIT, if hasClaim then 1 else 0))
    else if seals != (ctLen > 0) then Some(BadFieldLength(CT, ctLen))
    else if seals then None
    else if hasFpr then Some(BadFieldLength(KEY_FPR, 1))
    else if kem != X25519 then Some(BadFieldLength(KEM, KemId(kem)))
    else if !AllZero(enc) then Some(BadFieldLength(ENC, |enc|))
    else if !AllZero(nonce) then Some(BadFieldLength(NONCE, |nonce|))
    else None
  }

  // ---- Encoding --------------------------------------------------------------------------

  /** What stops a slot from being written. */
  function SlotRefusal(version: u16, s: KnownSlot): Option<FormatError> {
    if EncLength(version, s.kem) != Some(|s.enc|) then Some(BadFieldLength(ENC, |s.enc|))
    else if s.keyFpr.Some? && FprLength(version, s.kem) != Some(|s.keyFpr.value|) then Some(BadFieldLength(KEY_FPR, |s.keyFpr.value|))
    else CheckShape(s.kind, s.kem, s.claimCommit.Some?, |s.ct|, s.keyFpr.Some?, s.enc, s.nonce)
  }

  function SlotValue(s: KnownSlot, tag: u16): Option<bytes> {
    if tag == KIND then Some(Le16(KindNumber(s.kind)))
    else if tag == KEM then Some([KemId(s.kem)])
    else if tag == ENC then Some(s.enc)
    else if tag == CT then Some(s.ct)
    else if tag == COMMITMENT then Some(s.commitment)
    else if tag == KEY_FPR then s.keyFpr
    else if tag == NONCE then Some(s.nonce)
    else if tag == CLAIM_COMMIT then if s.claimCommit.Some? then Some(s.claimCommit.value) else None
    else None
  }

  function SlotEntries(s: KnownSlot): (entries: seq<Entry>)
    ensures |entries| == 8 && Ordered(entries)
    ensures forall i :: 0 <= i < 8 ==> entries[i] == Entry(i + 1, Ok(SlotValue(s, i + 1)))
  {
    seq(8, i requires 0 <= i < 8 => Entry(i + 1, Ok(SlotValue(s, i + 1))))
  }

  function EncodeKnown(version: u16, s: KnownSlot): Result<bytes, FormatError> {
    match SlotRefusal(version, s)
    case Some(e) => Err(e)
    case None =>
      match Written(SlotEntries(s))
      case Err(e) => Err(e)
      case Ok(fields) => Ok(Emit(fields))
  }

  function EncodeSlot(version: u16, s: KeySlot): Result<bytes, FormatError> {
    match s
    case Known(known) => EncodeKnown(version, known)
    case Unknown(_, raw) => Ok(raw)
  }

  method WriteKnown(version: u16, s: KnownSlot) returns (r: Result<bytes, FormatError>)
    ensures r == EncodeKnown(version, s)
  {
    hide Written, Upto, Emit, Canonical, Ordered, Le16, SlotRefusal, KindNumber, KemId;
    var refusal := SlotRefusal(version, s);
    if refusal.Some? {
      return Err(refusal.value);
    }
    var entries := SlotEntries(s);
    var w := new TlvWriter();
    UptoStarts(entries);
    var _ :- PutEntry(w, entries, 0, Some(Le16(KindNumber(s.kind))));
    var _ :- PutEntry(w, entries, 1, Some([KemId(s.kem)]));
    var _ :- PutEntry(w, entries, 2, Some(s.enc));
    var _ :- PutEntry(w, entries, 3, Some(s.ct));
    var _ :- PutEntry(w, entries, 4, Some(s.commitment));
    var _ :- PutEntry(w, entries, 5, s.keyFpr);
    var _ :- PutEntry(w, entries, 6, Some(s.nonce));
    var _ :- PutEntry(w, entries, 7, if s.claimCommit.Some? then Some(s.claimCommit.value) else None);
    UptoEnds(entries, w.fields);
    return Ok(w.buf);
  }

  /** Slots are numbered by position. */
  function ListEntries(version: u16, slots: seq<KeySlot>): (entries: seq<Entry>)
    requires |slots| <= MAX_KEY_SLOTS
    ensures |entries| == |slots| && Ordered(entries)
  {
    seq(|slots|, i requires 0 <= i < |slots| => Nested(i, EncodeSlot(version, slots[i])))
  }

  function EncodeSlots(version: u16, slots: seq<KeySlot>): Result<bytes, FormatError>
    requires |slots| <= MAX_KEY_SLOTS
  {
    match Written(ListEntries(version, slots))
    case Err(e) => Err(e)
    case Ok(fields) => Ok(Emit(fields))
  }

  method WriteSlots(version: u16, slots: seq<KeySlot>) returns (r: Result<bytes, FormatError>)
    requires |slots| <= MAX_KEY_SLOTS
    ensures r == EncodeSlots(version, slots)
  {
    hide Written, Upto, Emit, Canonical;
    ghost var entries := ListEntries(version, slots);
    var w := new TlvWriter();
    UptoStarts(entries);
    for i := 0 to |slots|
      invariant fresh(w) && w.Valid() && Upto(entries, i, w.fields)
    {
      var body: Result<bytes, FormatError>;
      match slots[i] {
        case Known(known) => body := WriteKnown(version, known);
        case Unknown(_, raw) => body := Ok(raw);
      }
      assert entries[i] == Nested(i, body);
      if body.Err? {
        RefusedAt(entries, i, w.fields);
        return Err(body.error);
      }
      var put := PutEntry(w, ListEntries(version, slots), i, Some(body.value));
      if put.Err? {
        return Err(put.error);
      }
    }
    UptoEnds(entries, w.fields);
    return Ok(w.buf);
  }

  // ---- Decoding --------------------------------------------------------------------------

  /** The fields of a slot as collected by the first pass; nothing but kind and mechanism is checked. */
  datatype SlotDraft = SlotDraft(
    kind: Option<u16>, kem: Option<byte>, enc: Option<bytes>, ct: Option<bytes>, commitment: Option<bytes>,
    keyFpr: Option<bytes>, nonce: Option<bytes>, claimCommit: Option<bytes>, unusable: bool)

  function SlotCheck(f: Field): Option<FormatError> {
    if f.tag == KIND then LengthIs(f, 2) else if f.tag == KEM then LengthIs(f, 1) else None
  }

  predicate Foreign(f: Field) {
    f.tag == 0 || 8 < f.tag <= CRIT_TAG_MAX
  }

  function OptU16(v: Option<bytes>): Option<u16> {
    if v.Some? && |v.value| == 2 then Some(FromLe16(v.value)) else None
  }

  function OptByte(v: Option<bytes>): Option<byte> {
    if v.Some? && |v.value| == 1 then Some(v.value[0]) else None
  }

  function DraftOf(fields: seq<Field>): SlotDraft {
    SlotDraft(OptU16(Lookup(fields, KIND)), OptByte(Lookup(fields, KEM)), Lookup(fields, ENC), Lookup(fields, CT),
              Lookup(fields, COMMITMENT), Lookup(fields, KEY_FPR), Lookup(fields, NONCE), Lookup(fields, CLAIM_COMMIT),
              exists k :: 0 <= k < |fields| && Foreign(fields[k]))
  }

  /** The second pass: decide whether the slot is ours, and only then check it exactly. */
  function FinishSlot(version: u16, raw: bytes, d: SlotDraft): Result<KeySlot, FormatError> {
    if d.kind.None? then Err(MissingField(KIND))
    else
      var skipped := Ok(Unknown(d.kind.value, raw));
      if d.unusable || NumberKind(d.kind.value).None? then skipped
      else if d.kem.None? then Err(MissingField(KEM))
      else if IdKem(d.kem.value).None? || EncLength(version, IdKem(d.kem.value).value).None? then skipped
      else FinishKnown(version, raw, d, NumberKind(d.kind.value).value, IdKem(d.kem.value).value)
  }

  function FinishKnown(version: u16, raw: bytes, d: SlotDraft, kind: SlotKind, kem: KemAlg): Result<KeySlot, FormatError>
    requires d.kind.Some?
  {
    if d.ct.None? then Err(MissingField(CT))
    else if d.enc.None? then Err(MissingField(ENC))
    else if EncLength(version, kem) != Some(|d.enc.value|) then Err(BadFieldLength(ENC, |d.enc.value|))
    else if d.nonce.None? then Err(MissingField(NONCE))
    else if d.keyFpr.Some? && FprLength(version, kem).None? then Ok(Unknown(d.kind.value, raw))
    else if d.keyFpr.Some? && FprLength(version, kem) != Some(|d.keyFpr.value|) then Err(BadFieldLength(KEY_FPR, |d.keyFpr.value|))
    else
      var shape := CheckShape(kind, kem, d.claimCommit.Some?, |d.ct.value|, d.keyFpr.Some?, d.enc.value, d.nonce.value);
      if shape.Some? then Err(shape.value)
      else if |d.nonce.value| != 24 then Err(BadFieldLength(NONCE, |d.nonce.value|))
      else if d.commitment.None? then Err(MissingField(COMMITMENT))
      else if |d.commitment.value| != 32 then Err(BadFieldLength(COMMITMENT, |d.commitment.value|))
      else if d.claimCommit.Some? && |d.claimCommit.value| != 32 then Err(BadFieldLength(CLAIM_COMMIT, |d.claimCommit.value|))
      else Ok(Known(KnownSlot(kind, kem, d.enc.value, d.nonce.value, d.ct.value, d.commitment.value, d.keyFpr,
                              OptDigest(d.claimCommit))))
  }

  function DecodeSlot(version: u16, raw: bytes): Result<KeySlot, FormatError> {
    match Checked(raw, SlotCheck)
    case Err(e) => Err(e)
    case Ok(fields) => FinishSlot(version, raw, DraftOf(fields))
  }

  function SlotAt(version: u16): bytes -> Result<KeySlot, FormatError> {
    raw => DecodeSlot(version, raw)
  }

  function DecodeSlots(version: u16, v: bytes): Result<seq<KeySlot>, FormatError> {
    DecodeList(v, MAX_KEY_SLOTS, KEY_SLOTS, SlotAt(version))
  }

  /** What one more field does to the draft. */
  function Noted(d: SlotDraft, f: Field): SlotDraft {
    if f.tag == KIND then d.(kind := OptU16(Some(f.value)))
    else if f.tag == KEM then d.(kem := OptByte(Some(f.value)))
    else if f.tag == ENC then d.(enc := Some(f.value))
    else if f.tag == CT then d.(ct := Some(f.value))
    else if f.tag == COMMITMENT then d.(commitment := Some(f.value))
    else if f.tag == KEY_FPR then d.(keyFpr := Some(f.value))
    else if f.tag == NONCE then d.(nonce := Some(f.value))
    else if f.tag == CLAIM_COMMIT then d.(claimCommit := Some(f.value))
    else if f.tag <= CRIT_TAG_MAX then d.(unusable := true)
    else d
  }

  lemma {:induction false} DraftStep(seen: seq<Field>, f: Field)
    ensures DraftOf(seen + [f]) == Noted(DraftOf(seen), f)
  {
    hide Lookup;
    LookupAppendAll(seen, f);
    var all := seen + [f];
    if k :| 0 <= k < |seen| && Foreign(seen[k]) { assert Foreign(all[k]); }
    if Foreign(f) { assert Foreign(all[|seen|]); }
    if k :| 0 <= k < |all| && Foreign(all[k]) { assert k < |seen| ==> Foreign(seen[k]); }
  }

  method ReadSlot(version: u16, raw: bytes) returns (r: Result<KeySlot, FormatError>)
    ensures r == DecodeSlot(version, raw)
  {
    hide Reading, Checked, NextAt, Lookup, ReadAll, FinishSlot;
    var reader := new TlvReader(raw);
    var draft := SlotDraft(None, None, None, None, None, None, None, None, false);
    ghost var seen: seq<Field> := [];
    ReadingStarts(raw, SlotCheck);
    LookupOfNothing();
    assert draft == DraftOf(seen);
    hide DraftOf, Noted;
    while true
      invariant reader.Valid() && fresh(reader) && reader.buf == raw
      invariant Reading(raw, SlotCheck, reader.pos, reader.lastTag, seen)
      invariant draft == DraftOf(seen)
      decreases |raw| - reader.pos
    {
      ReadingStep(raw, SlotCheck, reader.pos, reader.lastTag, seen);
      var next := reader.NextField();
      if next.Err? {
        return Err(next.error);
      }
      if next.value.None? {
        break;
      }
      var f := next.value.value.field;
      var bad := SlotCheck(f);
      if bad.Some? {
        return Err(bad.value);
      }
      DraftStep(seen, f);
      seen := seen + [f];
      draft := Noted(draft, f);
    }
    return FinishSlot(version, raw, draft);
  }

  method ReadSlots(version: u16, v: bytes) returns (r: Result<seq<KeySlot>, FormatError>)
    ensures r == DecodeSlots(version, v)
  {
    hide Reading, NextAt, ReadAll, Collect, DecodeSlot;
    var reader := new TlvReader(v);
    var slots: seq<KeySlot> := [];
    ghost var seen: seq<Field> := [];
    ReadingStarts(v, AnyField);
    assert Collect([], MAX_KEY_SLOTS, KEY_SLOTS, SlotAt(version)) == Ok([]) by { CollectIs([], MAX_KEY_SLOTS, KEY_SLOTS, SlotAt(version)); }
    while true
      invariant reader.Valid() && fresh(reader) && reader.buf == v
      invariant Reading(v, AnyField, reader.pos, reader.lastTag, seen)
      invariant Collect(seen, MAX_KEY_SLOTS, KEY_SLOTS, SlotAt(version)) == Ok(slots)
      decreases |v| - reader.pos
    {
      ReadingStep(v, AnyField, reader.pos, reader.lastTag, seen);
      ListStep(v, reader.pos, reader.lastTag, seen, MAX_KEY_SLOTS, KEY_SLOTS, SlotAt(version));
      var next := reader.NextField();
      if next.Err? {
        return Err(next.error);
      }
      if next.value.None? {
        break;
      }
      var f := next.value.value.field;
      if |slots| >= MAX_KEY_SLOTS {
        return Err(BadFieldLength(KEY_SLOTS, |slots|));
      }
      var slot := ReadSlot(version, f.value);
      if slot.Err? {
        return Err(slot.error);
      }
      seen := seen + [f];
      slots := slots + [slot.value];
    }
    return Ok(slots);
  }

  /** One turn of a loop that collects a nested list. */
  lemma {:induction false} ListStep<T>(buf: bytes, pos: nat, last: Option<u16>, seen: seq<Field>,
                                       limit: nat, tag: u16, item: bytes -> Result<T, FormatError>)
    requires Reading(buf, AnyField, pos, last, seen) && Collect(seen, limit, tag, item).Ok?
    ensures var items := Collect(seen, limit, tag, item).value;
            match NextAt(buf, pos, last)
            case Err(e) => DecodeList(buf, limit, tag, item) == Err(e)
            case Ok(None) => DecodeList(buf, limit, tag, item) == Ok(items)
            case Ok(Some(found)) =>
              if |items| >= limit then DecodeList(buf, limit, tag, item) == Err(BadFieldLength(tag, |items|))
              else if item(found.field.value).Err? then DecodeList(buf, limit, tag, item) == Err(item(found.field.value).error)
              else Collect(seen + [found.field], limit, tag, item) == Ok(items + [item(found.field.value).value])
  {
    hide NextAt, Record, Emit;
    match NextAt(buf, pos, last)
    case Err(_) => assert seen + [] == seen;
    case Ok(None) => assert seen + [] == seen;
    case Ok(Some(found)) =>
      RecordAt(buf, pos, last);
      var f := found.field;
      var rest := ReadFrom(buf, found.start + |f.value|, Some(f.tag));
      Regroup(seen, [f], rest.fields);
      assert (seen + [f])[..|seen|] == seen;
      if Collect(seen + [f], limit, tag, item).Err? { CollectStays(seen + [f], rest.fields, limit, tag, item); }
  }

  // ---- What is written can be read -------------------------------------------------------

  /** The writer cannot produce a slot that the reader would refuse, skip or read differently. */
  lemma {:induction false} KnownRoundTrip(version: u16, s: KnownSlot)
    requires EncodeKnown(version, s).Ok?
    ensures DecodeSlot(version, EncodeKnown(version, s).value) == Ok(Known(s))
  {
    hide Emit, Written, Checked, Increasing, DraftOf, CheckShape;
    var entries := SlotEntries(s);
    var fields := Written(entries).value;
    WrittenIs(entries);
    forall k | 0 <= k < |fields|
      ensures SlotCheck(fields[k]) == None
    {
      var i :| 0 <= i < |entries| && entries[i] == Entry(fields[k].tag, Ok(Some(fields[k].value)));
    }
    CheckedIs(Emit(fields), SlotCheck, fields);
    assert DraftOf(fields) == DraftOfKnown(s) by { KnownDraft(s); }
  }

  lemma {:induction false} KnownDraft(s: KnownSlot)
    requires Written(SlotEntries(s)).Ok?
    ensures DraftOf(Written(SlotEntries(s)).value) == DraftOfKnown(s)
  {
    hide Written, Lookup;
    var entries := SlotEntries(s);
    var fields := Written(entries).value;
    forall tag: u16 | 1 <= tag <= 8
      ensures Lookup(fields, tag) == SlotValue(s, tag)
    {
      WrittenLookup(entries, tag - 1);
    }
    Le16RoundTrip(KindNumber(s.kind));
    WrittenIs(entries);
    forall k | 0 <= k < |fields|
      ensures !Foreign(fields[k])
    {
      var i :| 0 <= i < |entries| && entries[i] == Entry(fields[k].tag, Ok(Some(fields[k].value)));
    }
  }

  function DraftOfKnown(s: KnownSlot): SlotDraft {
    SlotDraft(Some(KindNumber(s.kind)), Some(KemId(s.kem)), Some(s.enc), Some(s.ct), Some(s.commitment), s.keyFpr,
              Some(s.nonce), if s.claimCommit.Some? then Some(s.claimCommit.value) else None, false)
  }

  /** A slot kept as unknown decodes to itself again, so re-encoding never changes its fate. */
  lemma {:induction false} UnknownIsKept(version: u16, raw: bytes, kind: u16, kept: bytes)
    requires DecodeSlot(version, raw) == Ok(Unknown(kind, kept))
    ensures EncodeSlot(version, Unknown(kind, kept)) == Ok(raw)
    ensures DecodeSlot(version, kept) == Ok(Unknown(kind, kept))
  {
    hide Checked, DraftOf;
  }

  /** What a slot list reads back as: known slots as themselves, the rest as their bytes decode. */
  function Reread(version: u16, slots: seq<KeySlot>): seq<KeySlot>
    requires Readable(version, slots)
  {
    seq(|slots|, i requires 0 <= i < |slots| => if slots[i].Known? then slots[i] else DecodeSlot(version, slots[i].raw).value)
  }

  predicate Readable(version: u16, slots: seq<KeySlot>) {
    forall i :: 0 <= i < |slots| && slots[i].Unknown? ==> DecodeSlot(version, slots[i].raw).Ok?
  }

  lemma {:induction false} SlotsRoundTrip(version: u16, slots: seq<KeySlot>)
    requires |slots| <= MAX_KEY_SLOTS && EncodeSlots(version, slots).Ok?
    ensures var r := DecodeSlots(version, EncodeSlots(version, slots).value);
            && (r.Ok? <==> Readable(version, slots))
            && (r.Ok? ==> r == Ok(Reread(version, slots)))
  {
    hide Emit, DecodeList, Written, Increasing, DecodeSlot, EncodeKnown;
    var entries := ListEntries(version, slots);
    var fields := Written(entries).value;
    WrittenIs(entries);
    WrittenAll(entries);
    forall i | 0 <= i < |slots|
      ensures DecodeSlot(version, fields[i].value) ==
              if slots[i].Known? then Ok(slots[i]) else DecodeSlot(version, slots[i].raw)
    {
      assert entries[i] == Nested(i, EncodeSlot(version, slots[i]));
      if slots[i].Known? { KnownRoundTrip(version, slots[i].slot); }
    }
    DecodeListOf(fields, MAX_KEY_SLOTS, KEY_SLOTS, SlotAt(version));
    var r := DecodeSlots(version, Emit(fields));
    if r.Ok? {
      assert forall i :: 0 <= i < |slots| ==> SlotAt(version)(fields[i].value) == Ok(r.value[i]);
      assert r.value == Reread(version, slots);
    }
  }

  /** Bytes kept as an unknown slot may parse as a known one when they are read again. */
  lemma {:induction false} KeptBytesMayBecomeKnown(version: u16)
    ensures var s := KnownSlot(RecipientClaim, X25519, Zeros(32), Zeros(24), [], Zeros(32), None, Some(Zeros(32)));
            && EncodeKnown(version, s).Ok?
            && var slots := [Unknown(0, EncodeKnown(version, s).value)];
               Readable(version, slots) && Reread(version, slots) == [Known(s)]
  {
    hide DecodeSlot, Emit, Written;
    var s := KnownSlot(RecipientClaim, X25519, Zeros(32), Zeros(24), [], Zeros(32), None, Some(Zeros(32)));
    AllFit(SlotEntries(s));
    KnownRoundTrip(version, s);
  }
}
