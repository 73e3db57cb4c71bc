/** The container header: its encoding, its decoding, and the bytes of its core hash. */
module Headers {
  import opened Bytes
  import opened Tlv
  import opened Layouts
  import opened Content
  import opened Writing
  import opened HeaderParts
  import opened Slots
  import opened Policies

  const CONTAINER_VERSION: u16 := 1
  const MIN_READER_VERSION: u16 := 2
  const HEADER_FILE_ID: u16 := 3
  const SUITE: u16 := 4
  const HEADER_AUTHOR_KEY: u16 := 5
  const HEADER_SALT: u16 := 6
  const CHUNK_SIZE: u16 := 7
  const ORIGINAL_ROOT: u16 := 8
  const POLICY: u16 := 9
  const AUTHORITY: u16 := 11
  const PRIVATE_META: u16 := 12
  const PREV_HEADER_HASH: u16 := 13
  const ORG_ID: u16 := 14
  const CLASS: u16 := 15
  const HEADER_FOOTER_OFFSET: u16 := 16
  const WRAPPED_CEK: u16 := 17

  const LOCAL_CLASS: byte := 0
  const FIRST_COAUTHORS_VERSION: u16 := 4
  const WRAPPED_CEK_LEN: nat := 72

  type wrapped_key = b: bytes | |b| == 72 witness Zeros(72)

  datatype Header = Header(
    version: u16, minReader: u16, fileId: id16, suite: Suite, authorKey: digest, salt: digest, chunkSize: u32,
    originalRoot: digest, policy: Policy, keySlots: seq<KeySlot>, authority: Authority, privateMeta: bytes,
    prevHash: Option<digest>, orgId: bytes, cls: byte, footerOffset: Option<u64>, wrappedCek: wrapped_key,
    coauthors: Option<Coauthors>)

  // ---- Encoding ----------------------------------------------------------------------------

  /** The roster of the versions that have one. */
  function Roster(h: Header): Option<Coauthors> {
    if h.version >= FIRST_COAUTHORS_VERSION then h.coauthors else None
  }

  /** What is written under a tag. */
  function ValueOf(h: Header, tag: u16): Result<Option<bytes>, FormatError>
    requires |h.keySlots| <= MAX_KEY_SLOTS
  {
    if tag == CONTAINER_VERSION then Ok(Some(Le16(h.version)))
    else if tag == MIN_READER_VERSION then Ok(Some(Le16(h.minReader)))
    else if tag == HEADER_FILE_ID then Ok(Some(h.fileId))
    else if tag == SUITE then Present(EncodeSuite(h.suite))
    else if tag == HEADER_AUTHOR_KEY then Ok(Some(h.authorKey))
    else if tag == HEADER_SALT then Ok(Some(h.salt))
    else if tag == CHUNK_SIZE then Ok(Some(Le32(h.chunkSize)))
    else if tag == ORIGINAL_ROOT then Ok(Some(h.originalRoot))
    else if tag == POLICY then Ok(Some(EncodePolicy(h.version, h.policy)))
    else if tag == KEY_SLOTS then Present(EncodeSlots(h.version, h.keySlots))
    else if tag == AUTHORITY then Present(EncodeAuthority(h.authority))
    else if tag == PRIVATE_META then Ok(Some(h.privateMeta))
    else if tag == PREV_HEADER_HASH then Ok(if h.prevHash.Some? then Some(h.prevHash.value) else None)
    else if tag == ORG_ID then Ok(Some(h.orgId))
    else if tag == CLASS then Ok(Some([h.cls]))
    else if tag == HEADER_FOOTER_OFFSET then Ok(if h.footerOffset.Some? then Some(Le64(h.footerOffset.value)) else None)
    else if tag == WRAPPED_CEK then Ok(Some(h.wrappedCek))
    else if tag == COAUTHORS && Roster(h).Some? then Present(EncodeRoster(Roster(h).value))
    else Ok(None)
  }

  function HeaderEntries(h: Header): (entries: seq<Entry>)
    requires |h.keySlots| <= MAX_KEY_SLOTS
    ensures |entries| == 18 && Ordered(entries)
    ensures forall i :: 0 <= i < 17 ==> entries[i] == Entry(i + 1, ValueOf(h, i + 1))
    ensures entries[17] == Entry(COAUTHORS, ValueOf(h, COAUTHORS))
  {
    seq(17, i requires 0 <= i < 17 => Entry(i + 1, ValueOf(h, i + 1))) + [Entry(COAUTHORS, ValueOf(h, COAUTHORS))]
  }

  function HeaderFields(h: Header): Result<seq<Field>, FormatError> {
    if CheckChunkSize(h.chunkSize).Err? then Err(CheckChunkSize(h.chunkSize).error)
    else if |h.keySlots| > MAX_KEY_SLOTS then Err(BadFieldLength(KEY_SLOTS, |h.keySlots|))
    else Written(HeaderEntries(h))
  }

  function EncodeHeader(h: Header): Result<bytes, FormatError> {
    match HeaderFields(h)
    case Err(e) => Err(e)
    case Ok(fields) => Ok(Emit(fields))
  }

  /** Put an entry whose value comes from a nested encoder. */
  method PutNested(w: TlvWriter, entries: seq<Entry>, i: nat, value: Result<bytes, FormatError>) returns (r: Result<(), FormatError>)
    requires w.Valid() && Ordered(entries) && i < |entries| && entries[i].value == Present(value)
    requires Upto(entries, i, w.fields)
    modifies w
    ensures w.Valid()
    ensures r.Ok? ==> Upto(entries, i + 1, w.fields)
    ensures r.Err? ==> Written(entries) == Err(r.error)
  {
    hide Written, Canonical, Ordered;
    if value.Err? {
      RefusedAt(entries, i, w.fields) by { assert entries[i].value == Err(value.error); }
      return Err(value.error);
    }
    r := PutEntry(w, entries, i, Some(value.value));
  }

  method WriteHeader(h: Header) returns (r: Result<bytes, FormatError>)
    ensures r == EncodeHeader(h)
  {
    hide Written, Upto, Emit, Canonical, Ordered, Le16, Le32, EncodePolicy, EncodeSuite, EncodeAuthority, ValidChunkSize;
    if CheckChunkSize(h.chunkSize).Err? {
      return Err(CheckChunkSize(h.chunkSize).error);
    }
    if |h.keySlots| > MAX_KEY_SLOTS {
      return Err(BadFieldLength(KEY_SLOTS, |h.keySlots|));
    }
    var entries := HeaderEntries(h);
    var w := new TlvWriter();
    UptoStarts(entries);
    var _ :- WriteFront(w, h, entries);
    var _ :- WriteBack(w, h, entries);
    UptoEnds(entries, w.fields);
    return Ok(w.buf);
  }

  lemma {:induction false} FrontValues(h: Header, e: seq<Entry>)
    requires |h.keySlots| <= MAX_KEY_SLOTS && e == HeaderEntries(h)
    ensures |e| == 18 && Ordered(e)
    ensures e[0].value == Ok(Some(Le16(h.version))) && e[1].value == Ok(Some(Le16(h.minReader)))
    ensures e[2].value == Ok(Some(h.fileId)) && e[3].value == Present(EncodeSuite(h.suite))
    ensures e[4].value == Ok(Some(h.authorKey)) && e[5].value == Ok(Some(h.salt))
    ensures e[6].value == Ok(Some(Le32(h.chunkSize))) && e[7].value == Ok(Some(h.originalRoot))
    ensures e[8].value == Ok(Some(EncodePolicy(h.version, h.policy))) && e[9].value == Present(EncodeSlots(h.version, h.keySlots))
  {
    hide EncodeSuite, EncodePolicy, EncodeSlots, Le16, Le32, Ordered, HeaderEntries, Present;
  }

  lemma {:induction false} BackValues(h: Header, e: seq<Entry>)
    requires |h.keySlots| <= MAX_KEY_SLOTS && e == HeaderEntries(h)
    ensures |e| == 18 && Ordered(e)
    ensures e[10].value == Present(EncodeAuthority(h.authority))
    ensures e[11].value == Ok(Some(h.privateMeta)) && e[12].value == Ok(if h.prevHash.Some? then Some(h.prevHash.value) else None)
    ensures e[13].value == Ok(Some(h.orgId)) && e[14].value == Ok(Some([h.cls]))
    ensures e[15].value == Ok(if h.footerOffset.Some? then Some(Le64(h.footerOffset.value)) else None)
    ensures e[16].value == Ok(Some(h.wrappedCek))
    ensures e[17].value == if Roster(h).Some? then Present(EncodeRoster(Roster(h).value)) else Ok(None)
  {
    hide EncodeAuthority, EncodeRoster, Le64, Ordered, HeaderEntries, Present;
  }

  /** The records up to the key slots. */
  method WriteFront(w: TlvWriter, h: Header, entries: seq<Entry>) returns (r: Result<(), FormatError>)
    requires w.Valid() && |h.keySlots| <= MAX_KEY_SLOTS && entries == HeaderEntries(h) && Upto(entries, 0, w.fields)
    modifies w
    ensures w.Valid()
    ensures r.Ok? ==> Upto(entries, 10, w.fields)
    ensures r.Err? ==> Written(entries) == Err(r.error)
  {
    hide Written, Upto, Emit, Canonical, Ordered, Le16, Le32, EncodePolicy, EncodeSuite, EncodeSlots, HeaderEntries, ValueOf, Present;
    FrontValues(h, entries);
    var _ :- PutEntry(w, entries, 0, Some(Le16(h.version)));
    var _ :- PutEntry(w, entries, 1, Some(Le16(h.minReader)));
    var _ :- PutEntry(w, entries, 2, Some(h.fileId));
    var _ :- PutNested(w, entries, 3, EncodeSuite(h.suite));
    var _ :- PutEntry(w, entries, 4, Some(h.authorKey));
    var _ :- PutEntry(w, entries, 5, Some(h.salt));
    var _ :- PutEntry(w, entries, 6, Some(Le32(h.chunkSize)));
    var _ :- PutEntry(w, entries, 7, Some(h.originalRoot));
    var policy := WritePolicy(h.version, h.policy);
    var _ :- PutEntry(w, entries, 8, Some(policy));
    var slots := WriteSlots(h.version, h.keySlots);
    r := PutNested(w, entries, 9, slots);
  }

  /** What follows the key slots. */
  method WriteBack(w: TlvWriter, h: Header, entries: seq<Entry>) returns (r: Result<(), FormatError>)
    requires w.Valid() && |h.keySlots| <= MAX_KEY_SLOTS && entries == HeaderEntries(h) && Upto(entries, 10, w.fields)
    modifies w
    ensures w.Valid()
    ensures r.Ok? ==> Upto(entries, 18, w.fields)
    ensures r.Err? ==> Written(entries) == Err(r.error)
  {
    hide Written, Upto, Emit, Canonical, Ordered, Le64, EncodeAuthority, EncodeRoster, HeaderEntries, ValueOf, Present;
    BackValues(h, entries);
    var _ :- PutNested(w, entries, 10, EncodeAuthority(h.authority));
    var _ :- PutEntry(w, entries, 11, Some(h.privateMeta));
    var _ :- PutEntry(w, entries, 12, if h.prevHash.Some? then Some(h.prevHash.value) else None);
    var _ :- PutEntry(w, entries, 13, Some(h.orgId));
    var _ :- PutEntry(w, entries, 14, Some([h.cls]));
    var _ :- PutEntry(w, entries, 15, if h.footerOffset.Some? then Some(Le64(h.footerOffset.value)) else None);
    var _ :- PutEntry(w, entries, 16, Some(h.wrappedCek));
    if h.version >= FIRST_COAUTHORS_VERSION && h.coauthors.Some? {
      r := PutNested(w, entries, 17, EncodeRoster(h.coauthors.value));
    } else {
      r := PutEntry(w, entries, 17, None);
    }
  }

  // ---- Decoding ----------------------------------------------------------------------------

  /** The parts of the original bytes that hashes are taken over. */
  datatype HeaderSpans = HeaderSpans(policyValue: Range, keySlotsRecord: Range, wrappedCekRecord: Range)

  datatype ParsedHeader = ParsedHeader(header: Header, spans: HeaderSpans)

  datatype HeaderDraft = HeaderDraft(
    version: Option<u16>, minReader: Option<u16>, fileId: Option<bytes>, suite: Option<Suite>, authorKey: Option<bytes>,
    salt: Option<bytes>, chunkSize: Option<u32>, originalRoot: Option<bytes>, policy: Option<Policy>,
    keySlots: Option<seq<KeySlot>>, authority: Option<Authority>, privateMeta: Option<bytes>, prevHash: Option<bytes>,
    orgId: Option<bytes>, cls: Option<byte>, footerOffset: Option<u64>, wrappedCek: Option<bytes>,
    coauthors: Option<Coauthors>, policyValue: Option<Range>, keySlotsRecord: Option<Range>, wrappedCekRecord: Option<Range>)

  /** Where the record of a tag lies in the encoding. */
  function Place(fields: seq<Field>, tag: u16): Option<Range> {
    if fields == [] then None
    else
      var n := |fields| - 1;
      if fields[n].tag == tag then Some(Range(|Emit(fields[..n])|, |Emit(fields[..n])| + |Record(fields[n])|))
      else Place(fields[..n], tag)
  }

  function PlaceOfValue(fields: seq<Field>, tag: u16): Option<Range> {
    match Place(fields, tag)
    case None => None
    case Some(r) => Some(Range(r.start + FIELD_PREFIX_LEN, r.end))
  }

  /** The version a header states in its first record, where it must stand. */
  function FrontVersion(fields: seq<Field>): Option<u16> {
    if fields != [] && fields[0].tag == CONTAINER_VERSION then OptU16(Some(fields[0].value)) else None
  }

  function HasRoster(version: Option<u16>): bool {
    version.Some? && version.value >= FIRST_COAUTHORS_VERSION
  }

  function Versioned<T>(version: Option<u16>, decoded: u16 -> Result<T, FormatError>): Option<FormatError> {
    if version.None? then Some(MissingField(CONTAINER_VERSION)) else Failure(decoded(version.value))
  }

  function HeaderCheck(version: Option<u16>, f: Field): Option<FormatError> {
    if f.tag == CONTAINER_VERSION || f.tag == MIN_READER_VERSION then LengthIs(f, 2)
    else if f.tag == HEADER_FILE_ID then LengthIs(f, 16)
    else if f.tag == SUITE then Failure(DecodeSuite(f.value))
    else if f.tag == HEADER_AUTHOR_KEY || f.tag == HEADER_SALT || f.tag == ORIGINAL_ROOT || f.tag == PREV_HEADER_HASH then LengthIs(f, 32)
    else if f.tag == CHUNK_SIZE then if |f.value| != 4 then LengthIs(f, 4) else Failure(CheckChunkSize(FromLe32(f.value)))
    else if f.tag == POLICY then Versioned(version, v => DecodePolicy(v, f.value))
    else if f.tag == KEY_SLOTS then Versioned(version, v => DecodeSlots(v, f.value))
    else if f.tag == AUTHORITY then Failure(DecodeAuthority(f.value))
    else if f.tag == PRIVATE_META || f.tag == ORG_ID then None
    else if f.tag == CLASS then
      if |f.value| != 1 then LengthIs(f, 1) else if f.value[0] != LOCAL_CLASS then Some(UnsupportedClass(f.value[0])) else None
    else if f.tag == HEADER_FOOTER_OFFSET then LengthIs(f, 8)
    else if f.tag == WRAPPED_CEK then LengthIs(f, WRAPPED_CEK_LEN)
    else if f.tag == COAUTHORS && HasRoster(version) then Failure(DecodeRoster(f.value))
    else UnknownTag(f.tag)
  }

  function HeaderCheckAt(version: Option<u16>): Field -> Option<FormatError> {
    f => HeaderCheck(version, f)
  }

  function Parsed<T>(v: Option<bytes>, decode: bytes -> Result<T, FormatError>): Option<T> {
    if v.Some? && decode(v.value).Ok? then Some(decode(v.value).value) else None
  }

  function ParsedAt<T>(version: Option<u16>, v: Option<bytes>, decode: (u16, bytes) -> Result<T, FormatError>): Option<T> {
    if version.Some? && v.Some? && decode(version.value, v.value).Ok? then Some(decode(version.value, v.value).value) else None
  }

  function HeaderDraftOf(version: Option<u16>, fields: seq<Field>): HeaderDraft {
    HeaderDraft(
      OptU16(Lookup(fields, CONTAINER_VERSION)), OptU16(Lookup(fields, MIN_READER_VERSION)), Lookup(fields, HEADER_FILE_ID),
      Parsed(Lookup(fields, SUITE), DecodeSuite), Lookup(fields, HEADER_AUTHOR_KEY), Lookup(fields, HEADER_SALT),
      OptU32(Lookup(fields, CHUNK_SIZE)), Lookup(fields, ORIGINAL_ROOT),
      ParsedAt(version, Lookup(fields, POLICY), DecodePolicy), ParsedAt(version, Lookup(fields, KEY_SLOTS), DecodeSlots),
      Parsed(Lookup(fields, AUTHORITY), DecodeAuthority), Lookup(fields, PRIVATE_META), Lookup(fields, PREV_HEADER_HASH),
      Lookup(fields, ORG_ID), OptByte(Lookup(fields, CLASS)), OptU64(Lookup(fields, HEADER_FOOTER_OFFSET)),
      Lookup(fields, WRAPPED_CEK), if HasRoster(version) then Parsed(Lookup(fields, COAUTHORS), DecodeRoster) else None,
      PlaceOfValue(fields, POLICY), Place(fields, KEY_SLOTS), Place(fields, WRAPPED_CEK))
  }

  function AsWrapped(v: bytes): wrapped_key {
    if |v| == 72 then v else Zeros(72)
  }

  /** The first mandatory field that is missing. */
  function FirstMissing(d: HeaderDraft): Option<u16> {
    if d.version.None? then Some(CONTAINER_VERSION)
    else if d.minReader.None? then Some(MIN_READER_VERSION)
    else if d.fileId.None? then Some(HEADER_FILE_ID)
    else if d.suite.None? then Some(SUITE)
    else if d.authorKey.None? then Some(HEADER_AUTHOR_KEY)
    else if d.salt.None? then Some(HEADER_SALT)
    else if d.chunkSize.None? then Some(CHUNK_SIZE)
    else if d.originalRoot.None? then Some(ORIGINAL_ROOT)
    else if d.policy.None? || d.policyValue.None? then Some(POLICY)
    else if d.keySlots.None? || d.keySlotsRecord.None? then Some(KEY_SLOTS)
    else if d.authority.None? then Some(AUTHORITY)
    else if d.privateMeta.None? then Some(PRIVATE_META)
    else if d.orgId.None? then Some(ORG_ID)
    else if d.cls.None? then Some(CLASS)
    else if d.wrappedCek.None? || d.wrappedCekRecord.None? then Some(WRAPPED_CEK)
    else None
  }

  function FinishHeader(d: HeaderDraft): Result<ParsedHeader, FormatError> {
    match FirstMissing(d)
    case Some(tag) => Err(MissingField(tag))
    case None =>
      Ok(ParsedHeader(
           Header(d.version.value, d.minReader.value, AsId(d.fileId.value), d.suite.value, AsDigest(d.authorKey.value),
                  AsDigest(d.salt.value), d.chunkSize.value, AsDigest(d.originalRoot.value), d.policy.value, d.keySlots.value,
                  d.authority.value, d.privateMeta.value, OptDigest(d.prevHash), d.orgId.value, d.cls.value, d.footerOffset,
                  AsWrapped(d.wrappedCek.value), d.coauthors),
           HeaderSpans(d.policyValue.value, d.keySlotsRecord.value, d.wrappedCekRecord.value)))
  }

  function DecodeHeader(buf: bytes): Result<ParsedHeader, FormatError> {
    var version := FrontVersion(ReadAll(buf).fields);
    match Checked(buf, HeaderCheckAt(version))
    case Err(e) => Err(e)
    case Ok(fields) => FinishHeader(HeaderDraftOf(version, fields))
  }

  // ---- The decoder loop ----------------------------------------------------------------------

  /** What one more accepted field does to the draft; its record starts at `at`. */
  function HeaderNoted(version: Option<u16>, d: HeaderDraft, f: Field, at: nat): HeaderDraft {
    var v, record := Some(f.value), Some(Range(at, at + FIELD_PREFIX_LEN + |f.value|));
    HeaderDraft(
      if f.tag == CONTAINER_VERSION then OptU16(v) else d.version,
      if f.tag == MIN_READER_VERSION then OptU16(v) else d.minReader,
      if f.tag == HEADER_FILE_ID then v else d.fileId,
      if f.tag == SUITE then Parsed(v, DecodeSuite) else d.suite,
      if f.tag == HEADER_AUTHOR_KEY then v else d.authorKey,
      if f.tag == HEADER_SALT then v else d.salt,
      if f.tag == CHUNK_SIZE then OptU32(v) else d.chunkSize,
      if f.tag == ORIGINAL_ROOT then v else d.originalRoot,
      if f.tag == POLICY then ParsedAt(version, v, DecodePolicy) else d.policy,
      if f.tag == KEY_SLOTS then ParsedAt(version, v, DecodeSlots) else d.keySlots,
      if f.tag == AUTHORITY then Parsed(v, DecodeAuthority) else d.authority,
      if f.tag == PRIVATE_META then v else d.privateMeta,
      if f.tag == PREV_HEADER_HASH then v else d.prevHash,
      if f.tag == ORG_ID then v else d.orgId,
      if f.tag == CLASS then OptByte(v) else d.cls,
      if f.tag == HEADER_FOOTER_OFFSET then OptU64(v) else d.footerOffset,
      if f.tag == WRAPPED_CEK then v else d.wrappedCek,
      if f.tag == COAUTHORS && HasRoster(version) then Parsed(v, DecodeRoster) else d.coauthors,
      if f.tag == POLICY then Some(Range(at + FIELD_PREFIX_LEN, record.value.end)) else d.policyValue,
      if f.tag == KEY_SLOTS then record else d.keySlotsRecord,
      if f.tag == WRAPPED_CEK then record else d.wrappedCekRecord)
  }

  lemma {:induction false} PlaceStep(seen: seq<Field>, f: Field, tag: u16)
    ensures Place(seen + [f], tag) ==
            if f.tag == tag then Some(Range(|Emit(seen)|, |Emit(seen)| + FIELD_PREFIX_LEN + |f.value|)) else Place(seen, tag)
  {
    hide Emit;
    assert (seen + [f])[..|seen|] == seen;
  }

  lemma {:induction false} HeaderDraftStep(version: Option<u16>, seen: seq<Field>, f: Field)
    ensures HeaderDraftOf(version, seen + [f]) == HeaderNoted(version, HeaderDraftOf(version, seen), f, |Emit(seen)|)
  {
    hide Lookup, Place, Emit, OptU16, OptByte, OptU32, OptU64, Parsed, ParsedAt, HasRoster;
    LookupAppendAll(seen, f);
    PlaceStep(seen, f, POLICY);
    PlaceStep(seen, f, KEY_SLOTS);
    PlaceStep(seen, f, WRAPPED_CEK);
  }

  /** Past the first record, the version read so far is the one the header states. */
  lemma {:induction false} VersionSoFar(buf: bytes, version: Option<u16>, pos: nat, last: Option<u16>, seen: seq<Field>)
    requires version == FrontVersion(ReadAll(buf).fields) && Reading(buf, HeaderCheckAt(version), pos, last, seen)
    requires NextAt(buf, pos, last).Ok? && NextAt(buf, pos, last).value.Some?
    requires NextAt(buf, pos, last).value.value.field.tag != CONTAINER_VERSION
    ensures OptU16(Lookup(seen, CONTAINER_VERSION)) == version
  {
    hide NextAt, Lookup, Increasing, FromLe16, Emit, DecodeSuite, DecodeAuthority, DecodeRoster;
    var all := ReadAll(buf).fields;
    EmitOfReadFrom(buf, 0, None);
    var rest := ReadFrom(buf, pos, last).fields;
    assert rest[0] == NextAt(buf, pos, last).value.value.field;
    assert all == seen + rest;
    IncreasingAppend(None, seen, rest);
    if seen == [] {
      LookupAbsent(seen, CONTAINER_VERSION);
    } else if seen[0].tag == CONTAINER_VERSION {
      LookupFound(seen, 0);
    } else {
      assert HeaderCheck(version, seen[0]) == None;
      forall k | 0 <= k < |seen|
        ensures seen[k].tag != CONTAINER_VERSION
      {
        if k > 0 { TagsOrdered(seen, 0, k); }
      }
      LookupAbsent(seen, CONTAINER_VERSION);
    }
  }

  /** Parse the nested record of a field that has one, and note the field. */
  method TakeHeaderField(d: HeaderDraft, f: Field, at: nat) returns (r: Result<HeaderDraft, FormatError>)
    ensures match HeaderCheck(d.version, f)
            case Some(e) => r == Err(e)
            case None => r == Ok(HeaderNoted(d.version, d, f, at))
  {
    hide DecodeSlots, DecodePolicy, DecodeAuthority, DecodeSuite, DecodeRoster, ValidChunkSize, FromLe16, FromLe32, FromLe64;
    if f.tag == POLICY {
      if d.version.None? {
        return Err(MissingField(CONTAINER_VERSION));
      }
      var policy :- ParsePolicy(d.version.value, f.value);
      return Ok(d.(policy := Some(policy), policyValue := Some(Range(at + FIELD_PREFIX_LEN, at + FIELD_PREFIX_LEN + |f.value|))));
    } else if f.tag == KEY_SLOTS {
      if d.version.None? {
        return Err(MissingField(CONTAINER_VERSION));
      }
      var slots :- ReadSlots(d.version.value, f.value);
      return Ok(d.(keySlots := Some(slots), keySlotsRecord := Some(Range(at, at + FIELD_PREFIX_LEN + |f.value|))));
    }
    var bad := HeaderCheck(d.version, f);
    if bad.Some? {
      return Err(bad.value);
    }
    return Ok(HeaderNoted(d.version, d, f, at));
  }

  /** The first field sets the version; every later one is read under it. */
  lemma {:induction false} FirstFieldOrVersion(version: Option<u16>, other: Option<u16>, d: HeaderDraft, f: Field, at: nat)
    requires f.tag == CONTAINER_VERSION || version == other
    ensures HeaderCheck(version, f) == HeaderCheck(other, f)
    ensures HeaderNoted(version, d, f, at) == HeaderNoted(other, d, f, at)
  {
  }

  method ReadHeader(buf: bytes) returns (r: Result<ParsedHeader, FormatError>)
    ensures r == DecodeHeader(buf)
  {
    hide Reading, Checked, NextAt, Lookup, ReadAll, FinishHeader, FrontVersion, HeaderCheck, HeaderNoted, Place;
    ghost var version := FrontVersion(ReadAll(buf).fields);
    var reader := new TlvReader(buf);
    var draft := HeaderDraft(None, None, None, None, None, None, None, None, None, None, None, None, None, None, None, None,
                             None, None, None, None, None);
    ghost var seen: seq<Field> := [];
    ReadingStarts(buf, HeaderCheckAt(version));
    EmptyDraft(version);
    assert draft == HeaderDraftOf(version, seen);
    hide HeaderDraftOf;
    while true
      invariant reader.Valid() && fresh(reader) && reader.buf == buf
      invariant Reading(buf, HeaderCheckAt(version), reader.pos, reader.lastTag, seen)
      invariant draft == HeaderDraftOf(version, seen)
      decreases |buf| - reader.pos
    {
      ReadingStep(buf, HeaderCheckAt(version), reader.pos, reader.lastTag, seen);
      ghost var before, lastBefore := reader.pos, reader.lastTag;
      var next := reader.NextField();
      if next.Err? {
        return Err(next.error);
      }
      if next.value.None? {
        break;
      }
      var found := next.value.value;
      var f := found.field;
      VersionOfDraft(buf, version, before, lastBefore, seen, draft);
      FirstFieldOrVersion(version, draft.version, draft, f, found.start - FIELD_PREFIX_LEN);
      HeaderDraftStep(version, seen, f);
      var taken := TakeHeaderField(draft, f, found.start - FIELD_PREFIX_LEN);
      if taken.Err? {
        return Err(taken.error);
      }
      draft := taken.value;
      seen := seen + [f];
    }
    return FinishHeader(draft);
  }

  lemma {:induction false} EmptyDraft(version: Option<u16>)
    ensures HeaderDraftOf(version, []) ==
            HeaderDraft(None, None, None, None, None, None, None, None, None, None, None, None, None, None, None, None,
                        None, None, None, None, None)
  {
    LookupOfNothing();
  }

  /** The facts one turn of the loop starts from. */
  lemma {:induction false} VersionOfDraft(buf: bytes, version: Option<u16>, pos: nat, last: Option<u16>, seen: seq<Field>, d: HeaderDraft)
    requires version == FrontVersion(ReadAll(buf).fields) && Reading(buf, HeaderCheckAt(version), pos, last, seen)
    requires d == HeaderDraftOf(version, seen)
    requires NextAt(buf, pos, last).Ok? && NextAt(buf, pos, last).value.Some?
    ensures var found := NextAt(buf, pos, last).value.value;
            && found.start == |Emit(seen)| + FIELD_PREFIX_LEN
            && (found.field.tag == CONTAINER_VERSION || d.version == version)
  {
    hide Lookup, ReadAll, FrontVersion, HeaderCheck;
    if NextAt(buf, pos, last).value.value.field.tag != CONTAINER_VERSION { VersionSoFar(buf, version, pos, last, seen); }
  }
}
