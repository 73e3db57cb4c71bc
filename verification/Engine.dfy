/** The packing engine: assembling a header in two passes around its own core hash. */
module Engine {
  import opened Bytes
  import opened Tlv
  import opened Content
  import opened Text
  import opened HeaderParts
  import opened Slots
  import opened Policies
  import opened Headers
  import opened HeaderCore
  import Access

  const THIS_VERSION: u16 := 5

  type hybrid_key = b: bytes | |b| == 1216 witness Zeros(1216)
  type hardware_key = b: bytes | |b| == 1249 witness Zeros(1249)

  datatype Recipient =
    | Nobody
    | Identity(publicKey: digest)
    | Hybrid(hybridKey: hybrid_key)
    | HardwareHybrid(hardwareKey: hardware_key)
    | Claim(secret: digest)

  /** The recipient slot decided on when planning; a claim code is already a commitment. */
  datatype RecipientPlan =
    | PlanNobody
    | PlanIdentity(publicKey: digest)
    | PlanHybrid(hybridKey: hybrid_key)
    | PlanHardware(hardwareKey: hardware_key)
    | PlanClaim(commit: digest)

  datatype PublicKeys = PublicKeys(
    author: digest, authoritySealing: digest, authorityLeaseVerify: digest, device: digest,
    deviceHybrid: Option<bytes>, deviceHardwareHybrid: Option<bytes>, deviceTpm: Option<bytes>)

  datatype PackRequest = PackRequest(
    originalName: text, policy: Policy, chunkSize: u32, orgId: bytes, authorityUrls: seq<text>, recipient: Recipient,
    coauthors: Option<Coauthors>)

  datatype SealedInfo = SealedInfo(totalLen: u64, chunkCount: u32, treeRoot: digest)

  datatype Session = Session(fileId: id16, salt: digest, chunkSize: u32, plan: RecipientPlan)

  datatype Assembled = Assembled(header: bytes, contentDesc: bytes)

  datatype EngineError = Format(format: FormatError) | Crypto(code: nat) | CoreHashMismatch | PlanMismatch | MissingAuthorHybridKey

  /** Which secret shares a slot seals. */
  datatype Share = ShareA | ShareB | BothShares

  /** The cryptographic primitives, keys and randomness of one session. */
  datatype Primitives = Primitives(
    hash: bytes -> digest,
    claimCommit: (id16, digest) -> digest,
    sealMeta: (text, u64) -> Result<bytes, nat>,
    wrap: digest -> Result<(wrapped_key, digest), nat>,
    seal: (SlotKind, KemAlg, bytes, digest, Share) -> Result<Access.Blob, nat>,
    contentKey: (digest, id16) -> digest,
    mac: Mac)

  function InFormat<T>(r: Result<T, FormatError>): Result<T, EngineError> {
    match r case Ok(v) => Ok(v) case Err(e) => Err(Format(e))
  }

  function InCrypto<T>(r: Result<T, nat>): Result<T, EngineError> {
    match r case Ok(v) => Ok(v) case Err(e) => Err(Crypto(e))
  }

  // ---- Planning ------------------------------------------------------------------------------

  function PlanFor(p: Primitives, fileId: id16, r: Recipient): RecipientPlan {
    match r
    case Nobody => PlanNobody
    case Identity(key) => PlanIdentity(key)
    case Hybrid(key) => PlanHybrid(key)
    case HardwareHybrid(key) => PlanHardware(key)
    case Claim(secret) => PlanClaim(p.claimCommit(fileId, secret))
  }

  predicate PlanMatches(p: Primitives, plan: RecipientPlan, fileId: id16, r: Recipient) {
    match (plan, r)
    case (PlanNobody, Nobody) => true
    case (PlanIdentity(planned), Identity(key)) => planned == key
    case (PlanHybrid(planned), Hybrid(key)) => planned == key
    case (PlanHardware(planned), HardwareHybrid(key)) => planned == key
    case (PlanClaim(planned), Claim(secret)) => planned == p.claimCommit(fileId, secret)
    case _ => false
  }

  /** A plan accepts a later request exactly when planning for that request gives the same plan. */
  lemma {:induction false} PlanMatchesExactly(p: Primitives, plan: RecipientPlan, fileId: id16, r: Recipient)
    ensures PlanMatches(p, plan, fileId, r) <==> plan == PlanFor(p, fileId, r)
  {
  }

  // ---- Slots ---------------------------------------------------------------------------------

  function SealSlot(p: Primitives, kind: SlotKind, kem: KemAlg, key: bytes, policyHash: digest, share: Share, commitment: digest): Result<KeySlot, EngineError> {
    var blob :- InCrypto(p.seal(kind, kem, key, policyHash, share));
    Ok(Known(KnownSlot(kind, kem, blob.enc, blob.nonce, blob.ct, commitment, Some(key), None)))
  }

  function ClaimSlot(claim: digest, commitment: digest): KeySlot {
    Known(KnownSlot(RecipientClaim, X25519, Zeros(32), Zeros(24), [], commitment, None, Some(claim)))
  }

  /** At most one slot for the recipient. */
  function RecipientSlots(p: Primitives, plan: RecipientPlan, policyHash: digest, commitment: digest): Result<seq<KeySlot>, EngineError> {
    match plan
    case PlanNobody => Ok([])
    case PlanIdentity(key) =>
      var slot :- SealSlot(p, RecipientIdentity, X25519, key, policyHash, ShareB, commitment);
      Ok([slot])
    case PlanHardware(key) =>
      var slot :- SealSlot(p, RecipientIdentity, MlKem768P256, key, policyHash, ShareB, commitment);
      Ok([slot])
    case PlanHybrid(key) =>
      var slot :- SealSlot(p, RecipientIdentity, XWing, key, policyHash, ShareB, commitment);
      Ok([slot])
    case PlanClaim(commit) => Ok([ClaimSlot(commit, commitment)])
  }

  /** The author's slot follows the recipient's mechanism; without the key for it, packing is refused. */
  function AuthorSlot(p: Primitives, plan: RecipientPlan, keys: PublicKeys, policyHash: digest, commitment: digest): Result<KeySlot, EngineError> {
    if plan.PlanHardware? then
      if keys.deviceHardwareHybrid.None? then Err(MissingAuthorHybridKey)
      else SealSlot(p, AuthorDevice, MlKem768P256, keys.deviceHardwareHybrid.value, policyHash, BothShares, commitment)
    else if plan.PlanHybrid? then
      if keys.deviceHybrid.None? then Err(MissingAuthorHybridKey)
      else SealSlot(p, AuthorDevice, XWing, keys.deviceHybrid.value, policyHash, BothShares, commitment)
    else if keys.deviceTpm.Some? then
      SealSlot(p, AuthorDevice, P256, keys.deviceTpm.value, policyHash, BothShares, commitment)
    else SealSlot(p, AuthorDevice, X25519, keys.device, policyHash, BothShares, commitment)
  }

  function SealSlots(p: Primitives, plan: RecipientPlan, keys: PublicKeys, policyHash: digest, commitment: digest): Result<seq<KeySlot>, EngineError> {
    var server :- SealSlot(p, Server, X25519, keys.authoritySealing, policyHash, ShareA, commitment);
    var recipient :- RecipientSlots(p, plan, policyHash, commitment);
    var author :- AuthorSlot(p, plan, keys, policyHash, commitment);
    Ok([server] + recipient + [author])
  }

  /** Strength of a mechanism: classical, post-quantum, post-quantum in hardware. */
  function Strength(kem: KemAlg): nat {
    match kem case MlKem768P256 => 2 case XWing => 1 case _ => 0
  }

  /** Strength of a file: of its strongest author slot. */
  function FileStrength(slots: seq<KeySlot>): nat {
    if slots == [] then 0
    else
      var last, rest := slots[|slots| - 1], FileStrength(slots[..|slots| - 1]);
      if last.Known? && last.slot.kind == AuthorDevice && Strength(last.slot.kem) > rest then Strength(last.slot.kem) else rest
  }

  /** No route into a packed file is stronger than its author's: the author's is never the weak one. */
  lemma {:induction false} AuthorIsNotWeaker(p: Primitives, plan: RecipientPlan, keys: PublicKeys, policyHash: digest, commitment: digest)
    requires SealSlots(p, plan, keys, policyHash, commitment).Ok?
    ensures var slots := SealSlots(p, plan, keys, policyHash, commitment).value;
            && (forall i :: 0 <= i < |slots| ==>
                  slots[i].Known? && slots[i].slot.commitment == commitment && Strength(slots[i].slot.kem) <= FileStrength(slots))
            && (exists i :: 0 <= i < |slots| && slots[i].Known? && slots[i].slot.kind == AuthorDevice
                            && Strength(slots[i].slot.kem) == FileStrength(slots))
  {
    var slots := SealSlots(p, plan, keys, policyHash, commitment).value;
    var n := |slots| - 1;
    var server, author := slots[0], slots[n];
    var recipient := RecipientSlots(p, plan, policyHash, commitment).value;
    assert slots[..n] == [server] + recipient;
    assert FileStrength(slots[..n]) == 0 by { NoAuthorSlot(slots[..n]); }
    assert slots[n].slot.kind == AuthorDevice && Strength(slots[n].slot.kem) == FileStrength(slots);
  }

  lemma {:induction false} NoAuthorSlot(slots: seq<KeySlot>)
    requires forall i :: 0 <= i < |slots| ==> slots[i].Known? && slots[i].slot.kind != AuthorDevice
    ensures FileStrength(slots) == 0
  {
    if slots != [] { NoAuthorSlot(slots[..|slots| - 1]); }
  }

  // ---- The two passes --------------------------------------------------------------------------

  const ENGINE_SUITE := Suite(Ed25519, XChaCha20Poly1305, Blake3)

  /** The header without key material. */
  function Skeleton(s: Session, request: PackRequest, keys: PublicKeys, sealed: SealedInfo, meta: bytes): Header {
    Header(THIS_VERSION, THIS_VERSION, s.fileId, ENGINE_SUITE, keys.author, s.salt, request.chunkSize, sealed.treeRoot,
           request.policy, [], Authority(request.authorityUrls, keys.authoritySealing, keys.authorityLeaseVerify), meta,
           None, request.orgId, LOCAL_CLASS, None, Zeros(72), request.coauthors)
  }

  function PolicyPreimage(buf: bytes, spans: HeaderSpans): Result<bytes, FormatError> {
    var value := spans.policyValue;
    if value.start > value.end || value.end > |buf| then Err(OffsetOverflow)
    else Ok(Domain(POLICY_HASH_LABEL) + buf[value.start..value.end])
  }

  /** What the engine learns from an encoded header: its core hash and its policy hash. */
  function HashesOf(p: Primitives, buf: bytes): Result<(digest, digest), EngineError> {
    var parsed :- InFormat(DecodeHeader(buf));
    var core :- InFormat(CorePreimage(buf, parsed.spans));
    var policy :- InFormat(PolicyPreimage(buf, parsed.spans));
    Ok((p.hash(core), p.hash(policy)))
  }

  function CoreHashOf(p: Primitives, buf: bytes): Result<digest, EngineError> {
    var parsed :- InFormat(DecodeHeader(buf));
    var core :- InFormat(CorePreimage(buf, parsed.spans));
    Ok(p.hash(core))
  }

  function FirstDescription(sealed: SealedInfo): ContentDesc {
    ContentDesc(sealed.totalLen, sealed.chunkCount, sealed.treeRoot, 0, None, None)
  }

  /** Second pass: with the slots in place, encode again and check that the core hash stood still. */
  function Complete(p: Primitives, h: Header, coreHash: digest, sealed: SealedInfo): Result<Assembled, EngineError> {
    var final :- InFormat(EncodeHeader(h));
    var recomputed :- CoreHashOf(p, final);
    if recomputed != coreHash then Err(CoreHashMismatch)
    else
      var region :- InFormat(EncodeRegion(FirstDescription(sealed), p.contentKey(h.salt, h.fileId), h.fileId, h.version, p.mac));
      Ok(Assembled(final, region))
  }

  function Assembly(p: Primitives, s: Session, request: PackRequest, keys: PublicKeys, sealed: SealedInfo): Result<Assembled, EngineError> {
    if request.chunkSize != s.chunkSize || !PlanMatches(p, s.plan, s.fileId, request.recipient) then Err(PlanMismatch)
    else
      var meta :- InCrypto(p.sealMeta(request.originalName, sealed.totalLen));
      var h := Skeleton(s, request, keys, sealed, meta);
      var skeleton :- InFormat(EncodeHeader(h));
      var hashes :- HashesOf(p, skeleton);
      var wrapped :- InCrypto(p.wrap(hashes.0));
      var slots :- SealSlots(p, s.plan, keys, hashes.1, wrapped.1);
      Complete(p, h.(wrappedCek := wrapped.0, keySlots := slots), hashes.0, sealed)
  }

  method Assemble(p: Primitives, s: Session, request: PackRequest, keys: PublicKeys, sealed: SealedInfo) returns (r: Result<Assembled, EngineError>)
    ensures r == Assembly(p, s, request, keys, sealed)
  {
    hide EncodeHeader, DecodeHeader, CorePreimage, PolicyPreimage, EncodeRegion, SealSlot, PlanMatches;
    if request.chunkSize != s.chunkSize || !PlanMatches(p, s.plan, s.fileId, request.recipient) {
      return Err(PlanMismatch);
    }
    var meta :- InCrypto(p.sealMeta(request.originalName, sealed.totalLen));
    var header := Skeleton(s, request, keys, sealed, meta);
    var encoded := WriteHeader(header);
    var skeleton :- InFormat(encoded);
    var decoded := ReadHeader(skeleton);
    var parsed :- InFormat(decoded);
    var core := FeedCore(skeleton, parsed.spans);
    var coreBytes :- InFormat(core);
    var policyBytes :- InFormat(PolicyPreimage(skeleton, parsed.spans));
    var policyHash := p.hash(policyBytes);

    var wrapped :- InCrypto(p.wrap(p.hash(coreBytes)));
    header := header.(wrappedCek := wrapped.0);
    var server :- SealSlot(p, Server, X25519, keys.authoritySealing, policyHash, ShareA, wrapped.1);
    var slots := [server];
    var recipient :- RecipientSlots(p, s.plan, policyHash, wrapped.1);
    slots := slots + recipient;
    var author :- AuthorSlot(p, s.plan, keys, policyHash, wrapped.1);
    slots := slots + [author];
    header := header.(keySlots := slots);

    encoded := WriteHeader(header);
    var final :- InFormat(encoded);
    decoded := ReadHeader(final);
    parsed :- InFormat(decoded);
    core := FeedCore(final, parsed.spans);
    var again :- InFormat(core);
    if p.hash(again) != p.hash(coreBytes) {
      return Err(CoreHashMismatch);
    }
    var macKey := p.contentKey(s.salt, s.fileId);
    var region :- InFormat(EncodeRegion(FirstDescription(sealed), macKey, s.fileId, header.version, p.mac));
    return Ok(Assembled(final, region));
  }

  // ---- Why the two passes agree ----------------------------------------------------------------

  /** Under the engine's suite and class, known slots only, whatever encodes also decodes. */
  lemma {:induction false} EncodedDecodes(h: Header)
    requires EncodeHeader(h).Ok? && h.suite == ENGINE_SUITE && h.cls == LOCAL_CLASS
    requires forall i :: 0 <= i < |h.keySlots| ==> h.keySlots[i].Known?
    ensures ReaderAccepts(h) && Spans(HeaderFields(h).value).Some?
    ensures DecodeHeader(EncodeHeader(h).value) == Ok(ParsedHeader(Normalised(h), Spans(HeaderFields(h).value).value))
  {
    hide EncodeHeader, DecodeHeader, HeaderFields, Spans;
    HeaderRoundTrip(h);
  }

  /** The policy hash covers the policy as encoded. */
  lemma {:induction false} PolicyBytesOf(h: Header)
    requires HeaderFields(h).Ok? && Spans(HeaderFields(h).value).Some?
    ensures PolicyPreimage(EncodeHeader(h).value, Spans(HeaderFields(h).value).value)
         == Ok(Domain(POLICY_HASH_LABEL) + EncodePolicy(h.version, h.policy))
  {
    hide Emit, HeaderFields, Increasing, Lookup, Place, EncodePolicy, Domain, Record;
    var fields := HeaderFields(h).value;
    WrittenHeader(h);
    HeaderLookup(h, POLICY);
    LookupPresent(fields, POLICY);
    var i :| 0 <= i < |fields| && fields[i] == Field(POLICY, EncodePolicy(h.version, h.policy));
    PlaceIs(fields, i);
    ValueInPlace(fields, i);
  }

  lemma {:induction false} ValueInPlace(fields: seq<Field>, i: nat)
    requires i < |fields|
    ensures var start, end := |Emit(fields[..i])| + FIELD_PREFIX_LEN, |Emit(fields[..i + 1])|;
            start <= end <= |Emit(fields)| && Emit(fields)[start..end] == fields[i].value
  {
    hide Emit;
    var a, f, c := fields[..i], fields[i], fields[i + 1..];
    assert fields[..i + 1] == a + [f] && fields == fields[..i + 1] + c;
    EmitAppend(a, [f]);
    EmitOfOne(f);
    EmitAppend(fields[..i + 1], c);
    var start, end := |Emit(a)| + FIELD_PREFIX_LEN, |Emit(fields[..i + 1])|;
    assert Emit(fields) == Emit(a) + Record(f) + Emit(c);
    assert Record(f)[FIELD_PREFIX_LEN..] == f.value;
    assert Emit(fields)[start..end] == Record(f)[FIELD_PREFIX_LEN..];
  }

  /** What the hashes of an encoded header are, in terms of the header. */
  lemma {:induction false} HashesOfEncoded(p: Primitives, h: Header)
    requires EncodeHeader(h).Ok? && h.suite == ENGINE_SUITE && h.cls == LOCAL_CLASS
    requires forall i :: 0 <= i < |h.keySlots| ==> h.keySlots[i].Known?
    ensures Spans(HeaderFields(h).value).Some?
    ensures var core := CorePreimage(EncodeHeader(h).value, Spans(HeaderFields(h).value).value);
            && core.Ok?
            && CoreHashOf(p, EncodeHeader(h).value) == Ok(p.hash(core.value))
            && HashesOf(p, EncodeHeader(h).value)
               == Ok((p.hash(core.value), p.hash(Domain(POLICY_HASH_LABEL) + EncodePolicy(h.version, h.policy))))
  {
    hide EncodeHeader, DecodeHeader, HeaderFields, Spans, CorePreimage, PolicyPreimage, Domain, EncodePolicy;
    EncodedDecodes(h);
    assert HeaderFields(h).Ok? by { EncodedFields(h); }
    CoreIgnoresKeyMaterial(h, h);
    PolicyBytesOf(h);
  }

  lemma {:induction false} EncodedFields(h: Header)
    ensures EncodeHeader(h).Ok? <==> HeaderFields(h).Ok?
  {
  }

  /** Both passes hash the same bytes, whatever slots and wrapped key came in between. */
  lemma {:induction false} PassesAgree(p: Primitives, h: Header, slots: seq<KeySlot>, wrapped: wrapped_key)
    requires h.suite == ENGINE_SUITE && h.cls == LOCAL_CLASS && h.keySlots == []
    requires forall i :: 0 <= i < |slots| ==> slots[i].Known?
    requires var full := h.(wrappedCek := wrapped, keySlots := slots); EncodeHeader(h).Ok? && EncodeHeader(full).Ok?
    ensures var full := h.(wrappedCek := wrapped, keySlots := slots);
            && HashesOf(p, EncodeHeader(h).value).Ok?
            && HashesOf(p, EncodeHeader(h).value) == HashesOf(p, EncodeHeader(full).value)
            && CoreHashOf(p, EncodeHeader(full).value) == Ok(HashesOf(p, EncodeHeader(h).value).value.0)
  {
    hide EncodeHeader, HashesOf, CoreHashOf, HeaderFields, Spans, CorePreimage, Domain, EncodePolicy;
    var full := h.(wrappedCek := wrapped, keySlots := slots);
    HashesOfEncoded(p, h);
    HashesOfEncoded(p, full);
    EncodedFields(h);
    EncodedFields(full);
    CoreIgnoresKeyMaterial(h, full);
  }

  /** The recheck at the end of assembling can never fail. */
  lemma {:induction false} CoreHashNeverMismatches(p: Primitives, s: Session, request: PackRequest, keys: PublicKeys, sealed: SealedInfo)
    ensures Assembly(p, s, request, keys, sealed) != Err(CoreHashMismatch)
  {
    hide EncodeHeader, HashesOf, CoreHashOf, SealSlots, PlanMatches, EncodeRegion;
    if s.chunkSize == request.chunkSize && PlanMatches(p, s.plan, s.fileId, request.recipient) {
      var meta := p.sealMeta(request.originalName, sealed.totalLen);
      if meta.Ok? {
        var h := Skeleton(s, request, keys, sealed, meta.value);
        if EncodeHeader(h).Ok? {
          HashesOfEncoded(p, h);
          var hashes := HashesOf(p, EncodeHeader(h).value).value;
          var wrapped := p.wrap(hashes.0);
          if wrapped.Ok? {
            var slots := SealSlots(p, s.plan, keys, hashes.1, wrapped.value.1);
            if slots.Ok? {
              AuthorIsNotWeaker(p, s.plan, keys, hashes.1, wrapped.value.1);
              CompleteNeverMismatches(p, h, slots.value, wrapped.value.0, hashes.0, sealed);
            } else {
              SlotErrors(p, s.plan, keys, hashes.1, wrapped.value.1);
            }
          }
        }
      }
    }
  }

  lemma {:induction false} SlotErrors(p: Primitives, plan: RecipientPlan, keys: PublicKeys, policyHash: digest, commitment: digest)
    ensures SealSlots(p, plan, keys, policyHash, commitment) != Err(CoreHashMismatch)
  {
  }

  lemma {:induction false} CompleteNeverMismatches(p: Primitives, h: Header, slots: seq<KeySlot>, wrapped: wrapped_key, coreHash: digest, sealed: SealedInfo)
    requires h.suite == ENGINE_SUITE && h.cls == LOCAL_CLASS && h.keySlots == [] && EncodeHeader(h).Ok?
    requires forall i :: 0 <= i < |slots| ==> slots[i].Known?
    requires HashesOf(p, EncodeHeader(h).value).Ok? && HashesOf(p, EncodeHeader(h).value).value.0 == coreHash
    ensures Complete(p, h.(wrappedCek := wrapped, keySlots := slots), coreHash, sealed) != Err(CoreHashMismatch)
  {
    hide EncodeHeader, HashesOf, CoreHashOf, EncodeRegion;
    var full := h.(wrappedCek := wrapped, keySlots := slots);
    if EncodeHeader(full).Ok? { PassesAgree(p, h, slots, wrapped); }
  }

  // ---- What a packed file reads back as -----------------------------------------------------------

  /** Known slots read back as themselves. */
  lemma {:induction false} KnownStay(version: u16, slots: seq<KeySlot>)
    requires forall i :: 0 <= i < |slots| ==> slots[i].Known?
    ensures Readable(version, slots) && Reread(version, slots) == slots
  {
    hide DecodeSlot;
  }

  /** The second pass, when it succeeds: the file holds the header with its policy in normal form. */
  lemma {:induction false} CompletedReadsBack(p: Primitives, h: Header, slots: seq<KeySlot>, wrapped: wrapped_key, coreHash: digest, sealed: SealedInfo)
    requires h.suite == ENGINE_SUITE && h.cls == LOCAL_CLASS && h.keySlots == [] && EncodeHeader(h).Ok? && h.version == THIS_VERSION
    requires forall i :: 0 <= i < |slots| ==> slots[i].Known?
    requires Complete(p, h.(wrappedCek := wrapped, keySlots := slots), coreHash, sealed).Ok?
    ensures var a := Complete(p, h.(wrappedCek := wrapped, keySlots := slots), coreHash, sealed).value;
            && DecodeHeader(a.header).Ok?
            && DecodeHeader(a.header).value.header == h.(wrappedCek := wrapped, keySlots := slots, policy := Normal(h.version, h.policy))
            && HashesOf(p, a.header) == HashesOf(p, EncodeHeader(h).value)
            && Ok(a.contentDesc) == EncodeRegion(FirstDescription(sealed), p.contentKey(h.salt, h.fileId), h.fileId, THIS_VERSION, p.mac)
  {
    hide EncodeHeader, DecodeHeader, HashesOf, CoreHashOf, EncodeRegion, HeaderFields, Spans, Readable, Reread, Normal;
    var full := h.(wrappedCek := wrapped, keySlots := slots);
    PassesAgree(p, h, slots, wrapped);
    EncodedDecodes(full);
    KnownStay(h.version, slots);
  }

  lemma {:induction false} FirstRegionReadsBack(mac: Mac, key: digest, fileId: id16, sealed: SealedInfo, payload: bytes)
    requires EncodeRegion(FirstDescription(sealed), key, fileId, THIS_VERSION, mac).Ok?
    ensures var region := EncodeRegion(FirstDescription(sealed), key, fileId, THIS_VERSION, mac).value;
            var r := DecodeRegion(region + payload, key, fileId, THIS_VERSION, mac);
            r.Ok? && r.value.desc == FirstDescription(sealed) && (region + payload)[r.value.length..] == payload
  {
    hide EncodeBody, DecodeBody, DecodeRegion, MacTranscript;
    RegionRoundTrip(FirstDescription(sealed), key, fileId, THIS_VERSION, mac, payload);
  }

  /**
    A packed file reads back as what was asked for. The content key in it is wrapped under the
    core hash, and every share sealed under the policy hash, that a reader recomputes from the
    file itself; and the mutable region decodes to the description of the sealed stream.
   */
  lemma {:induction false} AssembledReadsBack(p: Primitives, s: Session, request: PackRequest, keys: PublicKeys, sealed: SealedInfo, payload: bytes)
    requires Assembly(p, s, request, keys, sealed).Ok?
    ensures var a := Assembly(p, s, request, keys, sealed).value;
            && DecodeHeader(a.header).Ok? && HashesOf(p, a.header).Ok?
            && var h, hashes := DecodeHeader(a.header).value.header, HashesOf(p, a.header).value;
               var wrapped, meta := p.wrap(hashes.0), p.sealMeta(request.originalName, sealed.totalLen);
               && wrapped.Ok? && meta.Ok?
               && SealSlots(p, s.plan, keys, hashes.1, wrapped.value.1) == Ok(h.keySlots)
               && h == Skeleton(s, request, keys, sealed, meta.value).(
                         policy := Normal(THIS_VERSION, request.policy), wrappedCek := wrapped.value.0, keySlots := h.keySlots)
               && var r := DecodeRegion(a.contentDesc + payload, p.contentKey(h.salt, h.fileId), h.fileId, h.version, p.mac);
                  r.Ok? && r.value.desc == FirstDescription(sealed) && (a.contentDesc + payload)[r.value.length..] == payload
  {
    hide EncodeHeader, DecodeHeader, HashesOf, CoreHashOf, EncodeRegion, DecodeRegion, SealSlots, PlanMatches, Complete, Normal, EncodeBody;
    var meta := p.sealMeta(request.originalName, sealed.totalLen).value;
    var h := Skeleton(s, request, keys, sealed, meta);
    var hashes := HashesOf(p, EncodeHeader(h).value).value;
    var wrapped := p.wrap(hashes.0).value;
    var slots := SealSlots(p, s.plan, keys, hashes.1, wrapped.1).value;
    AuthorIsNotWeaker(p, s.plan, keys, hashes.1, wrapped.1);
    CompletedReadsBack(p, h, slots, wrapped.0, hashes.0, sealed);
    FirstRegionReadsBack(p.mac, p.contentKey(s.salt, s.fileId), s.fileId, sealed, payload);
  }
}
