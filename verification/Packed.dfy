/** What a packed file holds, field by field and slot by slot, and under which bytes its keys are bound. */
module Packed {
  import opened Bytes
  import opened Tlv
  import opened Content
  import opened HeaderParts
  import opened Slots
  import opened Policies
  import opened Headers
  import opened HeaderCore
  import opened Engine

  /** A slot that seals a share for a key: the answer of the sealing primitive, the key and the commitment. */
  predicate SealsShare(p: Primitives, slot: KeySlot, kind: SlotKind, kem: KemAlg, key: bytes, policyHash: digest, share: Share, commitment: digest) {
    var answer := p.seal(kind, kem, key, policyHash, share);
    && answer.Ok? && slot.Known?
    && slot.slot.kind == kind && slot.slot.kem == kem && slot.slot.keyFpr == Some(key) && slot.slot.claimCommit == None
    && slot.slot.enc == answer.value.enc && slot.slot.nonce == answer.value.nonce && slot.slot.ct == answer.value.ct
    && slot.slot.commitment == commitment
  }

  /** A slot for a claim code: a commitment to the code and nothing sealed. */
  predicate HoldsClaim(slot: KeySlot, claim: digest, commitment: digest) {
    && slot.Known? && slot.slot.kind == RecipientClaim && slot.slot.kem == X25519
    && slot.slot.enc == Zeros(32) && slot.slot.nonce == Zeros(24) && slot.slot.ct == [] && slot.slot.keyFpr == None
    && slot.slot.claimCommit == Some(claim) && slot.slot.commitment == commitment
  }

  /** The recipient gets the second share alone, under the planned key and its mechanism. */
  predicate RecipientRight(p: Primitives, plan: RecipientPlan, slot: KeySlot, policyHash: digest, commitment: digest) {
    match plan
    case PlanNobody => false
    case PlanIdentity(key) => SealsShare(p, slot, RecipientIdentity, X25519, key, policyHash, ShareB, commitment)
    case PlanHybrid(key) => SealsShare(p, slot, RecipientIdentity, XWing, key, policyHash, ShareB, commitment)
    case PlanHardware(key) => SealsShare(p, slot, RecipientIdentity, MlKem768P256, key, policyHash, ShareB, commitment)
    case PlanClaim(claim) => HoldsClaim(slot, claim, commitment)
  }

  /** The author gets both shares, under the device key of the mechanism the recipient calls for. */
  predicate AuthorRight(p: Primitives, plan: RecipientPlan, keys: PublicKeys, slot: KeySlot, policyHash: digest, commitment: digest) {
    match plan
    case PlanHardware(_) => keys.deviceHardwareHybrid.Some?
                            && SealsShare(p, slot, AuthorDevice, MlKem768P256, keys.deviceHardwareHybrid.value, policyHash, BothShares, commitment)
    case PlanHybrid(_) => keys.deviceHybrid.Some?
                          && SealsShare(p, slot, AuthorDevice, XWing, keys.deviceHybrid.value, policyHash, BothShares, commitment)
    case _ => if keys.deviceTpm.Some? then SealsShare(p, slot, AuthorDevice, P256, keys.deviceTpm.value, policyHash, BothShares, commitment)
              else SealsShare(p, slot, AuthorDevice, X25519, keys.device, policyHash, BothShares, commitment)
  }

  /** Server first, then the recipient if there is one, the author's device last. */
  predicate SlotsRight(p: Primitives, plan: RecipientPlan, keys: PublicKeys, slots: seq<KeySlot>, policyHash: digest, commitment: digest) {
    && |slots| == (if plan.PlanNobody? then 2 else 3)
    && SealsShare(p, slots[0], Server, X25519, keys.authoritySealing, policyHash, ShareA, commitment)
    && (!plan.PlanNobody? ==> RecipientRight(p, plan, slots[1], policyHash, commitment))
    && AuthorRight(p, plan, keys, slots[|slots| - 1], policyHash, commitment)
  }

  /** Sealing succeeds with exactly the right slots. */
  lemma {:induction false} SlotsMean(p: Primitives, plan: RecipientPlan, keys: PublicKeys, policyHash: digest, commitment: digest, slots: seq<KeySlot>)
    ensures SealSlots(p, plan, keys, policyHash, commitment) == Ok(slots) <==> SlotsRight(p, plan, keys, slots, policyHash, commitment)
  {
    var sealed := SealSlots(p, plan, keys, policyHash, commitment);
    if SlotsRight(p, plan, keys, slots, policyHash, commitment) {
      assert sealed.Ok?;
      assert sealed.value == slots;
    }
  }

  /** Which value of the request, the keys, the session or the sealed stream each field holds. */
  predicate FieldsRight(s: Session, request: PackRequest, keys: PublicKeys, sealed: SealedInfo, meta: bytes, h: Header) {
    && h.version == 5 && h.minReader == 5 && h.cls == 0
    && h.suite.sig == Ed25519 && h.suite.aead == XChaCha20Poly1305 && h.suite.treeHash == Blake3
    && h.fileId == s.fileId && h.salt == s.salt
    && h.authorKey == keys.author
    && h.authority.urls == request.authorityUrls
    && h.authority.sealingKid == keys.authoritySealing && h.authority.leaseVerifyKey == keys.authorityLeaseVerify
    && h.chunkSize == request.chunkSize == s.chunkSize && h.orgId == request.orgId && h.coauthors == request.coauthors
    && h.policy == Normal(5, request.policy)
    && h.originalRoot == sealed.treeRoot && h.privateMeta == meta
    && h.prevHash == None && h.footerOffset == None
  }

  /** The bytes a reader hashes to the core hash: everything in the header but records 10 and 17. */
  ghost predicate IsCore(header: bytes, core: bytes) {
    exists fields: seq<Field>, rest: seq<Field> ::
      && Canonical(fields) && Emit(fields) == header && Canonical(rest)
      && (forall tag: u16 :: Lookup(rest, tag) == if tag == 10 || tag == 17 then None else Lookup(fields, tag))
      && core == Ascii("CC/v1/core-hash") + [0] + Emit(rest)
  }

  /** The hashes a key is bound to, in terms of the bytes of the header and of its policy. */
  lemma {:induction false} HashesMean(p: Primitives, header: bytes)
    requires HashesOf(p, header).Ok?
    ensures exists core: bytes :: IsCore(header, core) && HashesOf(p, header).value.0 == p.hash(core)
    ensures exists fields: seq<Field> ::
              && Canonical(fields) && Emit(fields) == header && Lookup(fields, 9).Some?
              && HashesOf(p, header).value.1 == p.hash(Ascii("CC/v1/policy-hash") + [0] + Lookup(fields, 9).value)
  {
    hide Emit, Lookup, Increasing, HeaderDraftOf, FinishHeader, Place, CorePreimage, DecodeHeader, Kept, Ascii, Covered;
    var fields := AcceptedFields(header);
    CoreOfFields(fields);
    WithoutIs(fields);
    var core := Domain(CORE_HASH_LABEL) + Emit(Without(fields));
    assert IsCore(header, core) by {
      assert core == Ascii("CC/v1/core-hash") + [0] + Emit(Without(fields));
    }
    PlacedValue(fields, POLICY);
  }

  lemma {:induction false} PlacedValue(fields: seq<Field>, tag: u16)
    requires Increasing(None, fields) && PlaceOfValue(fields, tag).Some?
    ensures var span := PlaceOfValue(fields, tag).value;
            && span.start <= span.end <= |Emit(fields)|
            && Lookup(fields, tag) == Some(Emit(fields)[span.start..span.end])
  {
    hide Emit, Increasing, Record, Place, Lookup;
    var i := PlaceIndex(fields, tag);
    PlaceIs(fields, i);
    ValueInPlace(fields, i);
    LookupFound(fields, i);
  }

  /** A plan matches exactly the recipient whose own key it holds, or the commitment to whose code. */
  lemma {:induction false} PlanIs(p: Primitives, plan: RecipientPlan, fileId: id16, to: Recipient)
    ensures PlanMatches(p, plan, fileId, to) <==>
            plan == match to
                    case Nobody => PlanNobody
                    case Identity(key) => PlanIdentity(key)
                    case Hybrid(key) => PlanHybrid(key)
                    case HardwareHybrid(key) => PlanHardware(key)
                    case Claim(secret) => PlanClaim(p.claimCommit(fileId, secret))
  {
  }

  /**
    A packed file, spelled out: every header field, every slot, the core hash the content key is
    wrapped under and the policy hash the shares are sealed under, and the first description.
   */
  lemma {:induction false} PackedFileIs(p: Primitives, s: Session, request: PackRequest, keys: PublicKeys, sealed: SealedInfo)
    requires Assembly(p, s, request, keys, sealed).Ok?
    ensures s.plan == match request.recipient
                      case Nobody => PlanNobody
                      case Identity(key) => PlanIdentity(key)
                      case Hybrid(key) => PlanHybrid(key)
                      case HardwareHybrid(key) => PlanHardware(key)
                      case Claim(secret) => PlanClaim(p.claimCommit(s.fileId, secret))
    ensures var a := Assembly(p, s, request, keys, sealed).value;
            && DecodeHeader(a.header).Ok? && HashesOf(p, a.header).Ok?
            && p.sealMeta(request.originalName, sealed.totalLen).Ok? && p.wrap(HashesOf(p, a.header).value.0).Ok?
    ensures var a := Assembly(p, s, request, keys, sealed).value;
            var h, hashes := DecodeHeader(a.header).value.header, HashesOf(p, a.header).value;
            var (wrapped, commitment) := p.wrap(hashes.0).value;
            && FieldsRight(s, request, keys, sealed, p.sealMeta(request.originalName, sealed.totalLen).value, h)
            && h.wrappedCek == wrapped
            && SlotsRight(p, s.plan, keys, h.keySlots, hashes.1, commitment)
    ensures var a := Assembly(p, s, request, keys, sealed).value;
            var desc := ContentDesc(sealed.totalLen, sealed.chunkCount, sealed.treeRoot, 0, None, None);
            var body := EncodeBody(desc, 5);
            && body.Ok? && |body.value| <= U32_MAX
            && a.contentDesc == Le32(|body.value|) + body.value + p.mac(p.contentKey(s.salt, s.fileId), MacTranscript(s.fileId, body.value))
  {
    hide DecodeHeader, HashesOf, EncodeHeader, SealSlots, PlanMatches, Normal, EncodeBody, SlotsRight, MacTranscript, Complete, CoreHashOf;
    PlanIs(p, s.plan, s.fileId, request.recipient);
    AssembledReadsBack(p, s, request, keys, sealed, []);
    var a := Assembly(p, s, request, keys, sealed).value;
    var h, hashes := DecodeHeader(a.header).value.header, HashesOf(p, a.header).value;
    SlotsMean(p, s.plan, keys, hashes.1, p.wrap(hashes.0).value.1, h.keySlots);
    AssembledRegion(p, s, request, keys, sealed);
  }

  lemma {:induction false} AssembledRegion(p: Primitives, s: Session, request: PackRequest, keys: PublicKeys, sealed: SealedInfo)
    requires Assembly(p, s, request, keys, sealed).Ok?
    ensures EncodeRegion(FirstDescription(sealed), p.contentKey(s.salt, s.fileId), s.fileId, 5, p.mac)
         == Ok(Assembly(p, s, request, keys, sealed).value.contentDesc)
  {
    hide EncodeHeader, HashesOf, CoreHashOf, SealSlots, PlanMatches, EncodeRegion;
  }
}
