/** What a header reads back as, and what its core hash does and does not cover. */
module HeaderCore {
  import opened Bytes
  import opened Tlv
  import opened Layouts
  import opened Content
  import opened Writing
  import opened HeaderParts
  import opened Slots
  import opened Policies
  import opened Headers

  // ---- Reading a written header back ------------------------------------------------------

  /** The headers of this build's own suite and class, whose kept slots still parse. */
  predicate ReaderAccepts(h: Header) {
    && h.suite.sig == Ed25519 && h.suite.aead == XChaCha20Poly1305
    && h.cls == LOCAL_CLASS
    && Readable(h.version, h.keySlots)
  }

  function Normalised(h: Header): Header
    requires ReaderAccepts(h)
  {
    h.(policy := Normal(h.version, h.policy), keySlots := Reread(h.version, h.keySlots), coauthors := Roster(h))
  }

  /** Under every tag, the written fields hold what the header puts there. */
  lemma {:induction false} WrittenHeader(h: Header)
    requires HeaderFields(h).Ok?
    ensures Canonical(HeaderFields(h).value)
    ensures forall tag: u16 :: ValueOf(h, tag) == Ok(Lookup(HeaderFields(h).value, tag))
  {
    hide Lookup, Written, ValueOf, Increasing;
    var entries, fields := HeaderEntries(h), HeaderFields(h).value;
    WrittenIs(entries);
    forall tag: u16
      ensures ValueOf(h, tag) == Ok(Lookup(fields, tag))
    {
      if 1 <= tag <= 17 {
        WrittenLookup(entries, tag - 1);
      } else if tag == COAUTHORS {
        WrittenLookup(entries, 17);
      } else {
        WrittenAbsent(entries, tag);
        NothingElse(h, tag);
      }
    }
  }

  lemma {:induction false} NothingElse(h: Header, tag: u16)
    requires |h.keySlots| <= MAX_KEY_SLOTS && !(1 <= tag <= 17) && tag != COAUTHORS
    ensures ValueOf(h, tag) == Ok(None)
  {
  }

  lemma {:induction false} HeaderLookup(h: Header, tag: u16)
    requires HeaderFields(h).Ok?
    ensures |h.keySlots| <= MAX_KEY_SLOTS && ValueOf(h, tag) == Ok(Lookup(HeaderFields(h).value, tag))
  {
    hide Lookup, ValueOf, Written;
    WrittenHeader(h);
  }

  lemma {:induction false} FieldHolds(h: Header, k: nat)
    requires HeaderFields(h).Ok? && k < |HeaderFields(h).value|
    ensures var f := HeaderFields(h).value[k]; ValueOf(h, f.tag) == Ok(Some(f.value))
  {
    hide Lookup, ValueOf, Increasing, HeaderFields;
    WrittenHeader(h);
    LookupFound(HeaderFields(h).value, k);
  }

  lemma {:induction false} WrittenVersion(h: Header)
    requires HeaderFields(h).Ok?
    ensures FrontVersion(HeaderFields(h).value) == Some(h.version)
  {
    hide Lookup, HeaderFields, Increasing, Le16, FromLe16;
    var fields := HeaderFields(h).value;
    WrittenHeader(h);
    HeaderLookup(h, CONTAINER_VERSION);
    LookupPresent(fields, CONTAINER_VERSION);
    var i :| 0 <= i < |fields| && fields[i] == Field(CONTAINER_VERSION, Le16(h.version));
    if i > 0 {
      TagsOrdered(fields, 0, i);
      FieldHolds(h, 0);
      assert fields[0].tag == 0;
      NothingElse(h, 0);
      assert false;
    }
    Le16RoundTrip(h.version);
  }

  predicate AcceptsTag(h: Header, tag: u16) {
    && (tag == SUITE ==> h.suite.sig == Ed25519 && h.suite.aead == XChaCha20Poly1305)
    && (tag == CLASS ==> h.cls == LOCAL_CLASS)
    && (tag == KEY_SLOTS ==> Readable(h.version, h.keySlots))
  }

  /** A written field is refused on reading for one of three reasons only. */
  lemma {:induction false} FieldAccepted(h: Header, f: Field)
    requires |h.keySlots| <= MAX_KEY_SLOTS && ValidChunkSize(h.chunkSize)
    requires ValueOf(h, f.tag) == Ok(Some(f.value))
    ensures HeaderCheck(Some(h.version), f) == None <==> AcceptsTag(h, f.tag)
  {
    hide ValidChunkSize, DecodePolicy, EncodePolicy, DecodeSlots, EncodeSlots, EncodeSuite, DecodeSuite, EncodeAuthority,
         DecodeAuthority, EncodeRoster, DecodeRoster, Readable, Le16, Le32, Le64, FromLe32;
    if f.tag == SUITE {
      SuiteRoundTrip(h.suite);
    } else if f.tag == POLICY {
      DecodeOfEncode(h.version, h.policy);
    } else if f.tag == KEY_SLOTS {
      SlotsRoundTrip(h.version, h.keySlots);
    } else if f.tag == AUTHORITY {
      AuthorityRoundTrip(h.authority);
    } else if f.tag == COAUTHORS {
      RosterRoundTrip(Roster(h).value);
    } else if f.tag == CHUNK_SIZE {
      Le32RoundTrip(h.chunkSize);
    }
  }

  /** Where a field stands in the encoding: right behind the fields in front of it. */
  lemma {:induction false} PlaceIs(fields: seq<Field>, i: nat)
    requires i < |fields| && Increasing(None, fields)
    ensures Place(fields, fields[i].tag) == Some(Range(|Emit(fields[..i])|, |Emit(fields[..i + 1])|))
    decreases |fields|
  {
    hide Emit, Record;
    var n := |fields| - 1;
    assert fields == fields[..n] + [fields[n]];
    if i < n {
      TagsOrdered(fields, i, n);
      IncreasingAppend(None, fields[..n], [fields[n]]);
      PlaceIs(fields[..n], i);
      assert fields[..n][..i] == fields[..i] && fields[..n][..i + 1] == fields[..i + 1];
    } else {
      assert fields[..i + 1] == fields;
      EmitAppend(fields[..n], [fields[n]]);
      EmitOfOne(fields[n]);
    }
  }

  lemma {:induction false} PlaceOfPresent(fields: seq<Field>, tag: u16)
    requires Increasing(None, fields) && Lookup(fields, tag).Some?
    ensures Place(fields, tag).Some?
  {
    LookupPresent(fields, tag);
    var i :| 0 <= i < |fields| && fields[i].tag == tag;
    PlaceIs(fields, i);
  }

  /** The plain parts of the draft of a written header, in three groups. */
  lemma {:induction false} DraftNumbers(h: Header)
    requires HeaderFields(h).Ok?
    ensures var d := HeaderDraftOf(Some(h.version), HeaderFields(h).value);
            && d.version == Some(h.version) && d.minReader == Some(h.minReader) && d.chunkSize == Some(h.chunkSize)
            && d.cls == Some(h.cls) && d.footerOffset == h.footerOffset
  {
    hide Lookup, HeaderFields, Le16, Le32, Le64, FromLe16, FromLe32, FromLe64, Place, Parsed, ParsedAt;
    HeaderLookup(h, CONTAINER_VERSION);
    HeaderLookup(h, MIN_READER_VERSION);
    HeaderLookup(h, CHUNK_SIZE);
    HeaderLookup(h, CLASS);
    HeaderLookup(h, HEADER_FOOTER_OFFSET);
    Le16RoundTrip(h.version);
    Le16RoundTrip(h.minReader);
    Le32RoundTrip(h.chunkSize);
    if h.footerOffset.Some? { Le64RoundTrip(h.footerOffset.value); }
  }

  lemma {:induction false} DraftDigests(h: Header)
    requires HeaderFields(h).Ok?
    ensures var d := HeaderDraftOf(Some(h.version), HeaderFields(h).value);
            && d.fileId == Some(h.fileId) && d.authorKey == Some(h.authorKey) && d.salt == Some(h.salt)
            && d.originalRoot == Some(h.originalRoot) && OptDigest(d.prevHash) == h.prevHash
  {
    hide Lookup, HeaderFields, Place, Parsed, ParsedAt, OptU16, OptU32, OptU64, OptByte;
    HeaderLookup(h, HEADER_FILE_ID);
    HeaderLookup(h, HEADER_AUTHOR_KEY);
    HeaderLookup(h, HEADER_SALT);
    HeaderLookup(h, ORIGINAL_ROOT);
    HeaderLookup(h, PREV_HEADER_HASH);
  }

  lemma {:induction false} DraftBlobs(h: Header)
    requires HeaderFields(h).Ok?
    ensures var d := HeaderDraftOf(Some(h.version), HeaderFields(h).value);
            && d.privateMeta == Some(h.privateMeta) && d.orgId == Some(h.orgId) && d.wrappedCek == Some(h.wrappedCek)
  {
    hide Lookup, HeaderFields, Place, Parsed, ParsedAt, OptU16, OptU32, OptU64, OptByte;
    HeaderLookup(h, PRIVATE_META);
    HeaderLookup(h, ORG_ID);
    HeaderLookup(h, WRAPPED_CEK);
  }

  /** The nested parts. */
  lemma {:induction false} DraftNested(h: Header)
    requires HeaderFields(h).Ok? && ReaderAccepts(h)
    ensures var d, to := HeaderDraftOf(Some(h.version), HeaderFields(h).value), Normalised(h);
            && d.suite == Some(to.suite) && d.policy == Some(to.policy) && d.keySlots == Some(to.keySlots)
            && d.authority == Some(to.authority) && d.coauthors == to.coauthors
  {
    hide Lookup, HeaderFields, Place, OptU16, OptU32, OptU64, OptByte, DecodePolicy, EncodePolicy, DecodeSlots,
         EncodeSlots, EncodeSuite, DecodeSuite, EncodeAuthority, DecodeAuthority, EncodeRoster, DecodeRoster, Readable, Normal, Reread;
    HeaderLookup(h, SUITE);
    HeaderLookup(h, POLICY);
    HeaderLookup(h, KEY_SLOTS);
    HeaderLookup(h, AUTHORITY);
    HeaderLookup(h, COAUTHORS);
    SuiteRoundTrip(h.suite);
    DecodeOfEncode(h.version, h.policy);
    SlotsRoundTrip(h.version, h.keySlots);
    AuthorityRoundTrip(h.authority);
    if Roster(h).Some? { RosterRoundTrip(Roster(h).value); }
  }

  /** The places of the three records that hashes depend on. */
  function Spans(fields: seq<Field>): Option<HeaderSpans> {
    var policy, slots, cek := PlaceOfValue(fields, POLICY), Place(fields, KEY_SLOTS), Place(fields, WRAPPED_CEK);
    if policy.Some? && slots.Some? && cek.Some? then Some(HeaderSpans(policy.value, slots.value, cek.value)) else None
  }

  lemma {:induction false} SpansPresent(h: Header)
    requires HeaderFields(h).Ok?
    ensures Spans(HeaderFields(h).value).Some?
  {
    hide Lookup, HeaderFields, Increasing, Place, EncodePolicy, EncodeSlots;
    WrittenHeader(h);
    var fields := HeaderFields(h).value;
    HeaderLookup(h, POLICY);
    HeaderLookup(h, KEY_SLOTS);
    HeaderLookup(h, WRAPPED_CEK);
    PlaceOfPresent(fields, POLICY);
    PlaceOfPresent(fields, KEY_SLOTS);
    PlaceOfPresent(fields, WRAPPED_CEK);
  }

  /**
    What the writer produces its own reader accepts exactly when suite and class are the ones
    this build executes and every slot kept as unknown still parses. Then the header reads back
    with its policy in normal form, without a roster below version 4, and with every slot kept as
    unknown as its bytes parse, which may make it a known one.
   */
  lemma {:induction false} HeaderRoundTrip(h: Header)
    requires EncodeHeader(h).Ok?
    ensures DecodeHeader(EncodeHeader(h).value).Ok? <==> ReaderAccepts(h)
    ensures ReaderAccepts(h) ==> Spans(HeaderFields(h).value).Some?
    ensures ReaderAccepts(h) ==>
              DecodeHeader(EncodeHeader(h).value) == Ok(ParsedHeader(Normalised(h), Spans(HeaderFields(h).value).value))
  {
    hide Emit, Lookup, HeaderFields, Checked, Increasing, HeaderDraftOf, Place, HeaderCheck, ReadAll, FrontVersion, Readable, Reread, Normal;
    var fields, version := HeaderFields(h).value, Some(h.version);
    HeaderBounds(h);
    WrittenHeader(h);
    WrittenVersion(h);
    assert ReadAll(Emit(fields)) == Scan(fields, None) by { ReadIsInverseOfEmit(Emit(fields), fields); }
    CheckedOfEmit(fields, HeaderCheckAt(version));
    AllAccepted(h);
    if ReaderAccepts(h) {
      DraftNumbers(h);
      DraftDigests(h);
      DraftBlobs(h);
      DraftNested(h);
      SpansPresent(h);
      DraftSpans(version, fields);
      FinishIs(h, HeaderDraftOf(version, fields), Spans(fields).value);
    }
  }

  lemma {:induction false} HeaderBounds(h: Header)
    requires HeaderFields(h).Ok?
    ensures |h.keySlots| <= MAX_KEY_SLOTS && ValidChunkSize(h.chunkSize)
  {
  }

  lemma {:induction false} DraftSpans(version: Option<u16>, fields: seq<Field>)
    ensures var d := HeaderDraftOf(version, fields);
            && d.policyValue == PlaceOfValue(fields, POLICY) && d.keySlotsRecord == Place(fields, KEY_SLOTS)
            && d.wrappedCekRecord == Place(fields, WRAPPED_CEK)
  {
    hide Lookup, Place, Emit;
  }

  lemma {:induction false} FinishIs(h: Header, d: HeaderDraft, spans: HeaderSpans)
    requires ReaderAccepts(h)
    requires d.version == Some(h.version) && d.minReader == Some(h.minReader) && d.fileId == Some(h.fileId)
    requires d.authorKey == Some(h.authorKey) && d.salt == Some(h.salt) && d.chunkSize == Some(h.chunkSize)
    requires d.originalRoot == Some(h.originalRoot) && d.privateMeta == Some(h.privateMeta)
    requires OptDigest(d.prevHash) == h.prevHash && d.orgId == Some(h.orgId) && d.cls == Some(h.cls)
    requires d.footerOffset == h.footerOffset && d.wrappedCek == Some(h.wrappedCek)
    requires var to := Normalised(h);
             && d.suite == Some(to.suite) && d.policy == Some(to.policy) && d.keySlots == Some(to.keySlots)
             && d.authority == Some(to.authority) && d.coauthors == to.coauthors
    requires d.policyValue == Some(spans.policyValue) && d.keySlotsRecord == Some(spans.keySlotsRecord)
    requires d.wrappedCekRecord == Some(spans.wrappedCekRecord)
    ensures FinishHeader(d) == Ok(ParsedHeader(Normalised(h), spans))
  {
    hide Normal, Reread, Readable;
  }

  /** Every field passes on reading exactly when the header as a whole is acceptable. */
  lemma {:induction false} AllAccepted(h: Header)
    requires HeaderFields(h).Ok?
    ensures (forall i :: 0 <= i < |HeaderFields(h).value| ==> HeaderCheckAt(Some(h.version))(HeaderFields(h).value[i]) == None)
            <==> ReaderAccepts(h)
  {
    hide Lookup, HeaderFields, Increasing, HeaderCheck, Readable, ValidChunkSize;
    var fields := HeaderFields(h).value;
    HeaderBounds(h);
    forall i | 0 <= i < |fields|
      ensures HeaderCheck(Some(h.version), fields[i]) == None <==> AcceptsTag(h, fields[i].tag)
    {
      FieldHolds(h, i);
      FieldAccepted(h, fields[i]);
    }
    var s := TagWritten(h, SUITE);
    var k := TagWritten(h, KEY_SLOTS);
    var c := TagWritten(h, CLASS);
    if forall i :: 0 <= i < |fields| ==> HeaderCheckAt(Some(h.version))(fields[i]) == None {
      assert HeaderCheckAt(Some(h.version))(fields[s]) == None && HeaderCheckAt(Some(h.version))(fields[k]) == None;
      assert HeaderCheckAt(Some(h.version))(fields[c]) == None;
    }
  }

  lemma {:induction false} TagWritten(h: Header, tag: u16) returns (i: nat)
    requires HeaderFields(h).Ok? && (tag == SUITE || tag == KEY_SLOTS || tag == CLASS)
    ensures i < |HeaderFields(h).value| && HeaderFields(h).value[i].tag == tag
  {
    hide Lookup, HeaderFields, Increasing;
    var fields := HeaderFields(h).value;
    HeaderLookup(h, tag);
    LookupPresent(fields, tag);
    i :| 0 <= i < |fields| && fields[i].tag == tag;
  }

  // ---- The bytes of the core hash -----------------------------------------------------------

  const CORE_HASH_LABEL := "CC/v1/core-hash"
  const POLICY_HASH_LABEL := "CC/v1/policy-hash"

  /** What is left of a buffer from `cursor` on when ranges, in order, are cut out. */
  function Uncut(buf: bytes, cursor: nat, cuts: seq<Range>): Result<bytes, FormatError>
    decreases |cuts|
  {
    if cuts == [] then if cursor > |buf| then Err(OffsetOverflow) else Ok(buf[cursor..])
    else
      var cut := cuts[0];
      if cut.start < cursor || cut.end > |buf| || cut.start > |buf| then Err(OffsetOverflow)
      else
        Onto(buf[cursor..cut.start], Uncut(buf, cut.end, cuts[1..]))
  }

  function Onto(out: bytes, rest: Result<bytes, FormatError>): Result<bytes, FormatError> {
    match rest case Err(e) => Err(e) case Ok(more) => Ok(out + more)
  }

  lemma {:induction false} OntoNothing(rest: Result<bytes, FormatError>)
    ensures Onto([], rest) == rest
  {
    if rest.Ok? { assert [] + rest.value == rest.value; }
  }

  lemma {:induction false} OntoTwice(a: bytes, b: bytes, rest: Result<bytes, FormatError>)
    ensures Onto(a, Onto(b, rest)) == Onto(a + b, rest)
  {
    if rest.Ok? { Regroup(a, b, rest.value); }
  }

  /** The two records that hold key material, by position. */
  function Cuts(spans: HeaderSpans): seq<Range> {
    var a, b := spans.keySlotsRecord, spans.wrappedCekRecord;
    if a.start <= b.start then [a, b] else [b, a]
  }

  function CorePreimage(buf: bytes, spans: HeaderSpans): Result<bytes, FormatError> {
    Onto(Domain(CORE_HASH_LABEL), Uncut(buf, 0, Cuts(spans)))
  }

  method FeedCore(buf: bytes, spans: HeaderSpans) returns (r: Result<bytes, FormatError>)
    ensures r == CorePreimage(buf, spans)
  {
    var fed := Domain(CORE_HASH_LABEL);
    var cuts := Cuts(spans);
    var cursor: nat := 0;
    ghost var prefix := fed;
    ghost var out: bytes := [];
    assert cuts[0..] == cuts;
    OntoNothing(Uncut(buf, 0, cuts));
    for i := 0 to |cuts|
      invariant fed == prefix + out
      invariant Uncut(buf, 0, cuts) == Onto(out, Uncut(buf, cursor, cuts[i..]))
    {
      var cut := cuts[i];
      assert cuts[i..][1..] == cuts[i + 1..];
      if cut.start < cursor || cut.end > |buf| {
        return Err(OffsetOverflow);
      }
      if cut.start > |buf| {
        return Err(OffsetOverflow);
      }
      OntoTwice(out, buf[cursor..cut.start], Uncut(buf, cut.end, cuts[i + 1..]));
      fed := fed + buf[cursor..cut.start];
      out := out + buf[cursor..cut.start];
      cursor := cut.end;
    }
    if cursor > |buf| {
      return Err(OffsetOverflow);
    }
    Regroup(prefix, out, buf[cursor..]);
    return Ok(fed + buf[cursor..]);
  }

  predicate KeyMaterial(tag: u16) {
    tag == KEY_SLOTS || tag == WRAPPED_CEK
  }

  /** The tags the core hash covers. */
  function Covered(): set<u16> {
    set tag: u16 | !KeyMaterial(tag)
  }

  /** Every field but the two that hold key material. */
  function Without(fields: seq<Field>): seq<Field> {
    Kept(fields, Covered())
  }

  /** What is kept is canonical again and answers every lookup but the two. */
  lemma {:induction false} WithoutIs(fields: seq<Field>)
    requires Canonical(fields)
    ensures Canonical(Without(fields))
    ensures forall tag: u16 :: Lookup(Without(fields), tag) == if KeyMaterial(tag) then None else Lookup(fields, tag)
  {
    hide Lookup, Increasing, Kept;
    KeptIs(fields, Covered());
    KeptFrom(fields, Covered());
  }

  lemma {:induction false} PlaceIndex(fields: seq<Field>, tag: u16) returns (i: nat)
    requires Place(fields, tag).Some?
    ensures i < |fields| && fields[i].tag == tag
  {
    hide Emit, Record;
    var n := |fields| - 1;
    if fields[n].tag == tag { i := n; } else { i := PlaceIndex(fields[..n], tag); }
  }

  lemma {:induction false} CutTwo(a: bytes, k: bytes, b: bytes, w: bytes, c: bytes)
    ensures var buf := a + k + b + w + c;
            Uncut(buf, 0, [Range(|a|, |a| + |k|), Range(|a| + |k| + |b|, |a| + |k| + |b| + |w|)]) == Ok(a + b + c)
  {
    var buf := a + k + b + w + c;
    var first, second := Range(|a|, |a| + |k|), Range(|a| + |k| + |b|, |a| + |k| + |b| + |w|);
    assert [first, second][1..] == [second] && [second][1..] == [];
    assert buf[second.end..] == c && buf[first.end..second.start] == b && buf[0..first.start] == a;
    assert Uncut(buf, second.end, []) == Ok(c);
    assert Uncut(buf, first.end, [second]) == Ok(b + c);
    assert a + (b + c) == a + b + c;
  }

  /** Cutting both records out of an encoding leaves the encoding of the other fields. */
  lemma {:induction false} CoreOfFields(fields: seq<Field>)
    requires Canonical(fields) && Spans(fields).Some?
    ensures CorePreimage(Emit(fields), Spans(fields).value) == Ok(Domain(CORE_HASH_LABEL) + Emit(Without(fields)))
  {
    hide Emit, Increasing, Place, Uncut, Without, Record, Canonical, Domain;
    CanonicalIncreases(fields);
    var i := PlaceIndex(fields, KEY_SLOTS);
    var j := PlaceIndex(fields, WRAPPED_CEK);
    if j < i { TagsOrdered(fields, j, i); }
    PlaceIs(fields, i);
    PlaceIs(fields, j);
    var a, b, c := fields[..i], fields[i + 1..j], fields[j + 1..];
    CutPieces(fields, i, j);
    CutTwo(Emit(a), Record(fields[i]), Emit(b), Record(fields[j]), Emit(c));
    OthersKept(fields, i, j);
    assert Spans(fields).value.keySlotsRecord == Range(|Emit(a)|, |Emit(a)| + |Record(fields[i])|);
    assert Spans(fields).value.wrappedCekRecord ==
           Range(|Emit(a)| + |Record(fields[i])| + |Emit(b)|, |Emit(a)| + |Record(fields[i])| + |Emit(b)| + |Record(fields[j])|);
  }

  lemma {:induction false} CanonicalIncreases(fields: seq<Field>)
    ensures Canonical(fields) ==> Increasing(None, fields)
  {
  }

  lemma {:induction false} CutPieces(fields: seq<Field>, i: nat, j: nat)
    requires i < j < |fields|
    ensures var a, b, c := fields[..i], fields[i + 1..j], fields[j + 1..];
            && Emit(fields) == Emit(a) + Record(fields[i]) + Emit(b) + Record(fields[j]) + Emit(c)
            && |Emit(fields[..i + 1])| == |Emit(a)| + |Record(fields[i])|
            && |Emit(fields[..j])| == |Emit(a)| + |Record(fields[i])| + |Emit(b)|
            && |Emit(fields[..j + 1])| == |Emit(a)| + |Record(fields[i])| + |Emit(b)| + |Record(fields[j])|
  {
    hide Emit, Record;
    var a, b, c := fields[..i], fields[i + 1..j], fields[j + 1..];
    EmitOfOne(fields[i]);
    EmitOfOne(fields[j]);
    assert fields[..i + 1] == a + [fields[i]];
    EmitAppend(a, [fields[i]]);
    assert fields[..j] == fields[..i + 1] + b;
    EmitAppend(fields[..i + 1], b);
    assert fields[..j + 1] == fields[..j] + [fields[j]];
    EmitAppend(fields[..j], [fields[j]]);
    assert fields == fields[..j + 1] + c;
    EmitAppend(fields[..j + 1], c);
  }

  lemma {:induction false} OthersKept(fields: seq<Field>, i: nat, j: nat)
    requires Increasing(None, fields) && i < j < |fields| && fields[i].tag == KEY_SLOTS && fields[j].tag == WRAPPED_CEK
    ensures Emit(Without(fields)) == Emit(fields[..i]) + Emit(fields[i + 1..j]) + Emit(fields[j + 1..])
  {
    hide Emit, Increasing, Kept;
    var a, b, c := fields[..i], fields[i + 1..j], fields[j + 1..];
    forall k | 0 <= k < |fields| && k != i && k != j
      ensures !KeyMaterial(fields[k].tag)
    {
      if k < i { TagsOrdered(fields, k, i); } else { TagsOrdered(fields, i, k); }
      if k < j { TagsOrdered(fields, k, j); } else { TagsOrdered(fields, j, k); }
    }
    var keep := Covered();
    KeepEverything(a, keep);
    KeepEverything(b, keep);
    KeepEverything(c, keep);
    KeepNothing([fields[i]], keep);
    KeepNothing([fields[j]], keep);
    assert fields == (a + [fields[i]]) + (b + [fields[j]]) + c;
    KeptAppend((a + [fields[i]]) + (b + [fields[j]]), c, keep);
    KeptAppend(a + [fields[i]], b + [fields[j]], keep);
    KeptAppend(a, [fields[i]], keep);
    KeptAppend(b, [fields[j]], keep);
    assert Without(fields) == a + b + c;
    EmitAppend(a + b, c);
    EmitAppend(a, b);
  }

  // ---- What the core hash fixes ---------------------------------------------------------------

  /** The fields of an accepted header and what is known of them. */
  lemma {:induction false} AcceptedFields(buf: bytes) returns (fields: seq<Field>)
    requires DecodeHeader(buf).Ok?
    ensures Canonical(fields) && Emit(fields) == buf
    ensures var version := OptU16(Lookup(fields, CONTAINER_VERSION));
            && version.Some?
            && FinishHeader(HeaderDraftOf(version, fields)) == DecodeHeader(buf)
    ensures Spans(fields) == Some(DecodeHeader(buf).value.spans)
  {
    hide Emit, Increasing, Lookup, FinishHeader, HeaderDraftOf, ReadAll, Checked, Place, HeaderCheck, FrontVersion;
    var version := FrontVersion(ReadAll(buf).fields);
    fields := Checked(buf, HeaderCheckAt(version)).value;
    CheckedIs(buf, HeaderCheckAt(version), fields);
    assert ReadAll(buf) == Scan(fields, None) by { ReadIsInverseOfEmit(buf, fields); }
    var d := HeaderDraftOf(version, fields);
    FinishedDraft(d);
    DraftSpans(version, fields);
    DraftVersion(version, fields);
    FrontIsVersion(fields);
  }

  lemma {:induction false} FinishedDraft(d: HeaderDraft)
    requires FinishHeader(d).Ok?
    ensures d.version.Some? && d.policyValue.Some? && d.keySlotsRecord.Some? && d.wrappedCekRecord.Some?
    ensures FinishHeader(d).value.spans == HeaderSpans(d.policyValue.value, d.keySlotsRecord.value, d.wrappedCekRecord.value)
  {
  }

  lemma {:induction false} DraftVersion(version: Option<u16>, fields: seq<Field>)
    ensures HeaderDraftOf(version, fields).version == OptU16(Lookup(fields, CONTAINER_VERSION))
  {
    hide Lookup, Place;
  }

  lemma {:induction false} FrontIsVersion(fields: seq<Field>)
    requires Increasing(None, fields) && OptU16(Lookup(fields, CONTAINER_VERSION)).Some?
    requires forall i :: 0 <= i < |fields| ==> HeaderCheckAt(FrontVersion(fields))(fields[i]) == None
    ensures FrontVersion(fields) == OptU16(Lookup(fields, CONTAINER_VERSION))
  {
    hide Increasing, Lookup, FromLe16, FromLe32, DecodeSuite, DecodeAuthority, DecodeRoster;
    assert OptU16(None) == None;
    LookupPresent(fields, CONTAINER_VERSION);
    var i :| 0 <= i < |fields| && fields[i] == Field(CONTAINER_VERSION, Lookup(fields, CONTAINER_VERSION).value);
    assert HeaderCheck(FrontVersion(fields), fields[0]) == None;
    if i > 0 { TagsOrdered(fields, 0, i); }
  }

  /** Two headers that agree outside their key material. */
  predicate SameCore(a: Header, b: Header) {
    a == b.(keySlots := a.keySlots, wrappedCek := a.wrappedCek)
  }

  lemma {:induction false} SameDraft(version: Option<u16>, a: seq<Field>, b: seq<Field>)
    requires forall tag: u16 :: !KeyMaterial(tag) ==> Lookup(a, tag) == Lookup(b, tag)
    ensures var d, e := HeaderDraftOf(version, a), HeaderDraftOf(version, b);
            d == e.(keySlots := d.keySlots, wrappedCek := d.wrappedCek, policyValue := d.policyValue,
                    keySlotsRecord := d.keySlotsRecord, wrappedCekRecord := d.wrappedCekRecord)
  {
    hide Lookup, Place, OptU16, OptU32, OptU64, OptByte, Parsed, ParsedAt, HasRoster;
  }

  lemma {:induction false} SameFinish(d: HeaderDraft, e: HeaderDraft)
    requires d == e.(keySlots := d.keySlots, wrappedCek := d.wrappedCek, policyValue := d.policyValue,
                     keySlotsRecord := d.keySlotsRecord, wrappedCekRecord := d.wrappedCekRecord)
    requires FinishHeader(d).Ok? && FinishHeader(e).Ok?
    ensures SameCore(FinishHeader(d).value.header, FinishHeader(e).value.header)
  {
  }

  /**
    The core hash fixes everything but the key material: for any two accepted headers, equal
    preimages mean the same fields outside the two cut records and the same decoded header
    outside its slots and wrapped key.
   */
  lemma {:induction false} CoreDeterminesHeader(a: bytes, b: bytes)
    requires DecodeHeader(a).Ok? && DecodeHeader(b).Ok?
    ensures var p, q := DecodeHeader(a).value, DecodeHeader(b).value;
            && CorePreimage(a, p.spans).Ok? && CorePreimage(b, q.spans).Ok?
            && (CorePreimage(a, p.spans) == CorePreimage(b, q.spans) ==> SameCore(p.header, q.header))
            && (CorePreimage(a, p.spans) == CorePreimage(b, q.spans) <==> Without(ReadAll(a).fields) == Without(ReadAll(b).fields))
  {
    hide Emit, Increasing, Lookup, HeaderDraftOf, ReadAll, FinishHeader, Place, Without, CorePreimage, DecodeHeader, Domain, OptU16;
    var fa := AcceptedFields(a);
    var fb := AcceptedFields(b);
    CoreOfFields(fa);
    CoreOfFields(fb);
    ReadIsInverseOfEmit(a, fa);
    ReadIsInverseOfEmit(b, fb);
    WithoutIs(fa);
    WithoutIs(fb);
    var p, q := DecodeHeader(a).value, DecodeHeader(b).value;
    if CorePreimage(a, p.spans) == CorePreimage(b, q.spans) {
      var prefix := Domain(CORE_HASH_LABEL);
      SplitConcat(prefix, Emit(Without(fa)), prefix, Emit(Without(fb)));
      assert Without(fa) == Without(fb) by {
        ReadIsInverseOfEmit(Emit(Without(fa)), Without(fa));
        ReadIsInverseOfEmit(Emit(Without(fa)), Without(fb));
      }
      forall tag: u16 | !KeyMaterial(tag)
        ensures Lookup(fa, tag) == Lookup(fb, tag)
      {
        assert Lookup(Without(fa), tag) == Lookup(Without(fb), tag);
      }
      assert Lookup(fa, CONTAINER_VERSION) == Lookup(fb, CONTAINER_VERSION);
      var version := OptU16(Lookup(fa, CONTAINER_VERSION));
      SameDraft(version, fa, fb);
      SameFinish(HeaderDraftOf(version, fa), HeaderDraftOf(version, fb));
    }
  }

  lemma {:induction false} SameValues(h: Header, g: Header, tag: u16)
    requires SameCore(h, g) && |h.keySlots| <= MAX_KEY_SLOTS && |g.keySlots| <= MAX_KEY_SLOTS && !KeyMaterial(tag)
    ensures ValueOf(h, tag) == ValueOf(g, tag)
  {
  }

  /** The bytes fed to the core hash do not depend on key slots or the wrapped key. */
  lemma {:induction false} CoreIgnoresKeyMaterial(h: Header, g: Header)
    requires SameCore(h, g) && HeaderFields(h).Ok? && HeaderFields(g).Ok?
    ensures Spans(HeaderFields(h).value).Some? && Spans(HeaderFields(g).value).Some?
    ensures CorePreimage(EncodeHeader(h).value, Spans(HeaderFields(h).value).value)
         == CorePreimage(EncodeHeader(g).value, Spans(HeaderFields(g).value).value)
    ensures CorePreimage(EncodeHeader(h).value, Spans(HeaderFields(h).value).value).Ok?
  {
    hide Emit, Increasing, Lookup, HeaderFields, Place, Without, CorePreimage, ValueOf, Spans, Domain;
    var a, b := HeaderFields(h).value, HeaderFields(g).value;
    SpansPresent(h);
    SpansPresent(g);
    WrittenHeader(h);
    WrittenHeader(g);
    WithoutIs(a);
    WithoutIs(b);
    forall tag: u16
      ensures Lookup(Without(a), tag) == Lookup(Without(b), tag)
    {
      if !KeyMaterial(tag) {
        HeaderLookup(h, tag);
        HeaderLookup(g, tag);
        SameValues(h, g, tag);
      }
    }
    SameLookups(Without(a), Without(b));
    CoreOfFields(a);
    CoreOfFields(b);
  }

  // ---- Headers that are written and not read --------------------------------------------------

  /** A header whose parts can all be written can be written. */
  lemma {:induction false} PartsEncode(h: Header)
    requires ValidChunkSize(h.chunkSize) && |h.keySlots| <= MAX_KEY_SLOTS
    requires EncodeSuite(h.suite).Ok? && EncodeAuthority(h.authority).Ok? && |EncodeAuthority(h.authority).value| <= U32_MAX
    requires EncodeSlots(h.version, h.keySlots).Ok? && |EncodeSlots(h.version, h.keySlots).value| <= U32_MAX
    requires |h.privateMeta| <= U32_MAX && |h.orgId| <= U32_MAX && Roster(h).None?
    ensures EncodeHeader(h).Ok?
  {
    hide EncodeSuite, EncodeAuthority, EncodeSlots, EncodePolicy, Written, Le16, Le32, Le64, ValidChunkSize;
    var entries := HeaderEntries(h);
    forall i | 0 <= i < 18
      ensures entries[i].value.Ok? && (entries[i].value.value.Some? ==> |entries[i].value.value.value| <= U32_MAX)
    {
      PolicyIsSmall(h.version, h.policy);
      SuiteRoundTrip(h.suite);
    }
    AllFit(entries);
  }

  function Ones(n: nat): (b: bytes)
    ensures |b| == n
  {
    seq(n, _ => 1)
  }

  /** A plain header: no slots, no addresses, nothing allowed. */
  function PlainHeader(): Header {
    Header(5, 5, Zeros(16), Suite(Ed25519, XChaCha20Poly1305, Blake3), Ones(32), Ones(32), 65536, Zeros(32), DENY_ALL, [],
           Authority([], Ones(32), Ones(32)), [], None, [], LOCAL_CLASS, None, Zeros(72), None)
  }

  lemma {:induction false} PlainParts()
    ensures ValidChunkSize(65536)
    ensures EncodeAuthority(Authority([], Ones(32), Ones(32))).Ok?
    ensures |EncodeAuthority(Authority([], Ones(32), Ones(32))).value| <= U32_MAX
    ensures forall version: u16 :: EncodeSlots(version, []) == Ok([])
  {
    hide Emit;
    assert IsPowerOfTwo(16) && IsPowerOfTwo(256) by { assert IsPowerOfTwo(2) && IsPowerOfTwo(4) && IsPowerOfTwo(8) && IsPowerOfTwo(32) && IsPowerOfTwo(64) && IsPowerOfTwo(128); }
    assert IsPowerOfTwo(4096) by { assert IsPowerOfTwo(512) && IsPowerOfTwo(1024) && IsPowerOfTwo(2048); }
    assert IsPowerOfTwo(65536) by { assert IsPowerOfTwo(8192) && IsPowerOfTwo(16384) && IsPowerOfTwo(32768); }
    EmitOfNone();
    var a := Authority([], Ones(32), Ones(32));
    assert UrlEntries(a.urls) == [];
    forall version: u16
      ensures EncodeSlots(version, []) == Ok([])
    {
      assert ListEntries(version, []) == [];
    }
    assert a.sealingKid[0] == 1;
    EmitIsBounded(AuthorityFields(a, []), 32);
  }

  /** A class other than zero is written and refused. */
  lemma {:induction false} ForeignClassIsRefused()
    ensures var h := PlainHeader().(cls := 1);
            EncodeHeader(h).Ok? && DecodeHeader(EncodeHeader(h).value).Err?
  {
    hide EncodeHeader, DecodeHeader, EncodeAuthority, EncodeSlots, ValidChunkSize;
    PlainParts();
    var h := PlainHeader().(cls := 1);
    PartsEncode(h);
    HeaderRoundTrip(h);
  }

  /** A kept slot of one byte is written and refused. */
  lemma {:induction false} UnparsableSlotIsRefused()
    ensures var h := PlainHeader().(keySlots := [Unknown(0, [1])]);
            EncodeHeader(h).Ok? && DecodeHeader(EncodeHeader(h).value).Err?
  {
    hide EncodeHeader, DecodeHeader, EncodeAuthority, EncodeSlots, ValidChunkSize, DecodeSlot;
    PlainParts();
    var slots := [Unknown(0, [1])];
    var h := PlainHeader().(keySlots := slots);
    OneByteSlot();
    PartsEncode(h);
    HeaderRoundTrip(h);
    assert slots[0].Unknown? && DecodeSlot(5, slots[0].raw).Err?;
  }

  lemma {:induction false} OneByteSlot()
    ensures EncodeSlots(5, [Unknown(0, [1])]).Ok? && |EncodeSlots(5, [Unknown(0, [1])]).value| <= U32_MAX
    ensures DecodeSlot(5, [1]).Err?
  {
    hide Emit, Record;
    var entries := ListEntries(5, [Unknown(0, [1])]);
    AllFit(entries);
    WrittenAll(entries);
    var fields := Written(entries).value;
    assert entries[0] == Nested(0, Ok([1]));
    EmitIsBounded(fields, 1);
  }

  /** Below version 4 a roster is not written at all. */
  lemma {:induction false} RosterIsLostBelowVersionFour()
    ensures var h := PlainHeader().(version := 3, coauthors := Some(Coauthors(0, [])));
            && EncodeHeader(h).Ok? && DecodeHeader(EncodeHeader(h).value).Ok?
            && DecodeHeader(EncodeHeader(h).value).value.header.coauthors == None
  {
    hide EncodeHeader, DecodeHeader, EncodeAuthority, EncodeSlots, ValidChunkSize;
    PlainParts();
    var h := PlainHeader().(version := 3, coauthors := Some(Coauthors(0, [])));
    PartsEncode(h);
    HeaderRoundTrip(h);
  }
}
