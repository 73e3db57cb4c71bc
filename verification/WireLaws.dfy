/** What holds of engine messages: they read back, and no accepted message is the start of another. */
module WireLaws {
  import opened Bytes
  import opened Text
  import opened Engine
  import opened HeaderParts
  import opened Wire
  import opened WireReading
  import Policies

  // ---- More bytes at the end change nothing but the rest --------------------------------------------

  /** A parser that succeeded on less succeeds on more, with the same value. */
  ghost predicate Extends<T>(less: Result<Got<T>, WireError>, more: Result<Got<T>, WireError>, x: bytes) {
    less.Ok? ==> more == Ok(Got(less.value.value, less.value.rest + x))
  }

  lemma {:induction false} TakeExtends(b: bytes, n: nat, x: bytes)
    ensures Extends(Take(b, n), Take(b + x, n), x)
  {
    if n <= |b| { assert (b + x)[..n] == b[..n] && (b + x)[n..] == b[n..] + x; }
  }

  lemma {:induction false} WordsExtend(b: bytes, x: bytes)
    ensures Extends(GetByte(b), GetByte(b + x), x)
    ensures Extends(GetDigest(b), GetDigest(b + x), x)
    ensures Extends(GetU32(b), GetU32(b + x), x)
    ensures Extends(GetU64(b), GetU64(b + x), x)
  {
    hide FromLe32, FromLe64, Take;
    TakeExtends(b, 1, x);
    TakeExtends(b, 32, x);
    TakeExtends(b, 4, x);
    TakeExtends(b, 8, x);
  }

  lemma {:induction false} BlobExtends(b: bytes, x: bytes)
    ensures Extends(GetBlob(b), GetBlob(b + x), x)
    ensures Extends(GetText(b), GetText(b + x), x)
  {
    hide GetU32, Take, Utf8;
    WordsExtend(b, x);
    if GetU32(b).Ok? { TakeExtends(GetU32(b).value.rest, GetU32(b).value.value, x); }
  }

  lemma {:induction false} TextsExtend(count: nat, taken: seq<text>, b: bytes, x: bytes)
    ensures Extends(GetTexts(count, taken, b), GetTexts(count, taken, b + x), x)
    decreases count
  {
    hide GetText;
    if count > 0 {
      BlobExtends(b, x);
      if GetText(b).Ok? { TextsExtend(count - 1, taken + [GetText(b).value.value], GetText(b).value.rest, x); }
    }
  }

  lemma {:induction false} KeysExtend(count: nat, taken: seq<digest>, b: bytes, x: bytes)
    ensures Extends(GetKeys(count, taken, b), GetKeys(count, taken, b + x), x)
    decreases count
  {
    hide GetDigest;
    if count > 0 {
      WordsExtend(b, x);
      if GetDigest(b).Ok? { KeysExtend(count - 1, taken + [GetDigest(b).value.value], GetDigest(b).value.rest, x); }
    }
  }

  lemma {:induction false} OptBlobExtends(b: bytes, what: What, x: bytes)
    ensures Extends(GetOptBlob(b, what), GetOptBlob(b + x, what), x)
  {
    hide GetByte, GetBlob;
    WordsExtend(b, x);
    if GetByte(b).Ok? { BlobExtends(GetByte(b).value.rest, x); }
  }

  lemma {:induction false} RosterExtends(b: bytes, x: bytes)
    ensures Extends(GetRoster(b), GetRoster(b + x), x)
  {
    hide GetByte, GetKeys, CheckRoster;
    if GetRoster(b).Ok? {
      WordsExtend(b, x);
      var mark := GetByte(b).value;
      if mark.value == 1 {
        WordsExtend(mark.rest, x);
        var threshold := GetByte(mark.rest).value;
        WordsExtend(threshold.rest, x);
        var count := GetByte(threshold.rest).value;
        KeysExtend(count.value, [], count.rest, x);
      }
    }
  }

  lemma {:induction false} RecipientExtends(b: bytes, x: bytes)
    ensures Extends(GetRecipient(b), GetRecipient(b + x), x)
  {
    hide GetByte, GetDigest, Take;
    WordsExtend(b, x);
    if GetByte(b).Ok? {
      var rest := GetByte(b).value.rest;
      WordsExtend(rest, x);
      TakeExtends(rest, 1216, x);
      TakeExtends(rest, 1249, x);
    }
  }

  lemma {:induction false} PolicyExtends(b: bytes, x: bytes)
    ensures Extends(GetPolicy(b), GetPolicy(b + x), x)
  {
    hide GetBlob, Policies.DecodePolicy;
    BlobExtends(b, x);
  }

  lemma {:induction false} HeadExtends(b: bytes, x: bytes)
    ensures Extends(GetHead(b), GetHead(b + x), x)
  {
    hide GetText, GetPolicy, GetU32, GetBlob, GetTexts;
    if GetHead(b).Ok? {
      BlobExtends(b, x);
      var r1 := GetText(b).value.rest;
      PolicyExtends(r1, x);
      var r2 := GetPolicy(r1).value.rest;
      WordsExtend(r2, x);
      var r3 := GetU32(r2).value.rest;
      BlobExtends(r3, x);
      var r4 := GetBlob(r3).value.rest;
      WordsExtend(r4, x);
      var count := GetU32(r4).value;
      TextsExtend(count.value, [], count.rest, x);
    }
  }

  lemma {:induction false} PublicExtends(b: bytes, x: bytes)
    ensures Extends(GetPublic(b), GetPublic(b + x), x)
  {
    hide GetDigest;
    if GetPublic(b).Ok? {
      WordsExtend(b, x);
      var r1 := GetDigest(b).value.rest;
      WordsExtend(r1, x);
      var r2 := GetDigest(r1).value.rest;
      WordsExtend(r2, x);
      WordsExtend(GetDigest(r2).value.rest, x);
    }
  }

  lemma {:induction false} ExtraExtends(b: bytes, x: bytes)
    ensures Extends(GetExtra(b), GetExtra(b + x), x)
  {
    hide GetOptBlob, GetRoster;
    if GetExtra(b).Ok? {
      OptBlobExtends(b, BadHybridKey, x);
      var r1 := GetOptBlob(b, BadHybridKey).value.rest;
      OptBlobExtends(r1, BadHardwareHybridKey, x);
      var r2 := GetOptBlob(r1, BadHardwareHybridKey).value.rest;
      OptBlobExtends(r2, BadTpmKey, x);
      RosterExtends(GetOptBlob(r2, BadTpmKey).value.rest, x);
    }
  }

  lemma {:induction false} PlanExtends(b: bytes, x: bytes)
    ensures Extends(GetPlan(b), GetPlan(b + x), x)
  {
    hide GetHead, GetRecipient, GetPublic, GetExtra;
    if GetPlan(b).Ok? {
      HeadExtends(b, x);
      var r1 := GetHead(b).value.rest;
      RecipientExtends(r1, x);
      var r2 := GetRecipient(r1).value.rest;
      PublicExtends(r2, x);
      ExtraExtends(GetPublic(r2).value.rest, x);
    }
  }

  lemma {:induction false} SealedExtends(b: bytes, x: bytes)
    ensures Extends(GetSealed(b), GetSealed(b + x), x)
  {
    hide GetU64, GetU32, GetDigest;
    if GetSealed(b).Ok? {
      WordsExtend(b, x);
      var r1 := GetU64(b).value.rest;
      WordsExtend(r1, x);
      WordsExtend(GetU32(r1).value.rest, x);
    }
  }

  lemma {:induction false} PlannedExtends(b: bytes, x: bytes)
    ensures Extends(GetPlanned(b), GetPlanned(b + x), x)
  {
    hide GetU32, GetDigest, GetByte;
    if GetPlanned(b).Ok? {
      TakeExtends(b, 16, x);
      var r1 := Take(b, 16).value.rest;
      WordsExtend(r1, x);
      var r2 := GetDigest(r1).value.rest;
      WordsExtend(r2, x);
      WordsExtend(GetU32(r2).value.rest, x);
    }
  }

  lemma {:induction false} RequestExtends(b: bytes, x: bytes)
    ensures Extends(GetRequest(b), GetRequest(b + x), x)
  {
    hide GetByte, GetPlan, GetSealed;
    WordsExtend(b, x);
    if GetByte(b).Ok? {
      PlanExtends(GetByte(b).value.rest, x);
      SealedExtends(GetByte(b).value.rest, x);
    }
  }

  lemma {:induction false} ResponseExtends(b: bytes, x: bytes)
    ensures Extends(GetResponse(b), GetResponse(b + x), x)
  {
    hide GetByte, GetPlanned, GetBlob, GetText;
    WordsExtend(b, x);
    if GetByte(b).Ok? {
      var rest := GetByte(b).value.rest;
      PlannedExtends(rest, x);
      BlobExtends(rest, x);
      if GetBlob(rest).Ok? { BlobExtends(GetBlob(rest).value.rest, x); }
    }
  }

  /**
    Accepted messages are prefix-free: whatever is added to an accepted request is reported as
    trailing bytes, so no strict prefix and no strict extension of an accepted request is accepted.
   */
  lemma {:induction false} RequestsArePrefixFree(m: bytes, x: bytes)
    requires DecodeRequest(m).Ok? && x != []
    ensures DecodeRequest(m + x) == Err(TrailingBytes)
  {
    hide GetRequest;
    RequestExtends(m, x);
    assert [] + x == x;
  }

  lemma {:induction false} ResponsesArePrefixFree(m: bytes, x: bytes)
    requires DecodeResponse(m).Ok? && x != []
    ensures DecodeResponse(m + x) == Err(TrailingBytes)
  {
    hide GetResponse;
    ResponseExtends(m, x);
    assert [] + x == x;
  }

  // ---- What was written is read back -------------------------------------------------------------

  lemma {:induction false} TakeOf(v: bytes, x: bytes)
    ensures Take(v + x, |v|) == Ok(Got(v, x))
  {
    assert (v + x)[..|v|] == v && (v + x)[|v|..] == x;
  }

  lemma {:induction false} ByteOf(v: byte, x: bytes)
    ensures GetByte([v] + x) == Ok(Got(v, x))
  {
    hide Take;
    TakeOf([v], x);
  }

  lemma {:induction false} DigestOf(v: digest, x: bytes)
    ensures GetDigest(v + x) == Ok(Got(v, x))
  {
    hide Take;
    TakeOf(v, x);
  }

  lemma {:induction false} U32Of(v: u32, x: bytes)
    ensures GetU32(Le32(v) + x) == Ok(Got(v, x))
  {
    hide Take, Le32, FromLe32;
    TakeOf(Le32(v), x);
    Le32RoundTrip(v);
  }

  lemma {:induction false} U64Of(v: u64, x: bytes)
    ensures GetU64(Le64(v) + x) == Ok(Got(v, x))
  {
    hide Take, Le64, FromLe64;
    TakeOf(Le64(v), x);
    Le64RoundTrip(v);
  }

  lemma {:induction false} BlobOf(v: bytes, x: bytes)
    requires |v| <= MAX_MESSAGE
    ensures GetBlob(Blob(v) + x) == Ok(Got(v, x))
  {
    hide GetU32, Take, Le32;
    assert |v| % 0x1_0000_0000 == |v|;
    Regroup(Le32(|v|), v, x);
    U32Of(|v|, v + x);
    TakeOf(v, x);
  }

  lemma {:induction false} TextOf(v: text, x: bytes)
    requires |v| <= MAX_MESSAGE
    ensures GetText(Blob(v) + x) == Ok(Got(v, x))
  {
    hide GetBlob, Blob;
    BlobOf(v, x);
  }

  lemma {:induction false} TextsOf(taken: seq<text>, urls: seq<text>, x: bytes)
    requires |Texts(urls)| <= MAX_MESSAGE
    ensures GetTexts(|urls|, taken, Texts(urls) + x) == Ok(Got(taken + urls, x))
    decreases |urls|
  {
    hide GetText, Blob;
    if urls == [] {
      assert [] + x == x && taken + [] == taken;
    } else {
      var first, more := urls[0], urls[1..];
      Regroup(Blob(first), Texts(more), x);
      TextOf(first, Texts(more) + x);
      TextsOf(taken + [first], more, x);
      assert taken + [first] + more == taken + urls;
    }
  }

  lemma {:induction false} KeysOf(taken: seq<digest>, keys: seq<digest>, x: bytes)
    ensures GetKeys(|keys|, taken, Flat(keys) + x) == Ok(Got(taken + keys, x))
    decreases |keys|
  {
    hide GetDigest;
    if keys == [] {
      assert [] + x == x && taken + [] == taken;
    } else {
      var first, more := keys[0], keys[1..];
      Regroup(first, Flat(more), x);
      DigestOf(first, Flat(more) + x);
      KeysOf(taken + [first], more, x);
      assert taken + [first] + more == taken + keys;
    }
  }

  lemma {:induction false} OptBlobOf(v: Option<bytes>, what: What, x: bytes)
    requires |OptBlob(v)| <= MAX_MESSAGE
    ensures GetOptBlob(OptBlob(v) + x, what) == Ok(Got(v, x))
  {
    hide GetByte, GetBlob, Blob;
    match v
    case None => ByteOf(0, x);
    case Some(b) =>
      Regroup([1], Blob(b), x);
      ByteOf(1, Blob(b) + x);
      BlobOf(b, x);
  }

  lemma {:induction false} RosterOf(c: Option<Coauthors>, x: bytes)
    requires c.Some? ==> CheckRoster(c.value) == None
    ensures GetRoster(RosterBytes(c) + x) == Ok(Got(c, x))
  {
    hide GetByte, GetKeys, Flat, Repeats;
    match c
    case None => ByteOf(0, x);
    case Some(roster) =>
      var keys := Flat(roster.keys);
      var n: byte := |roster.keys|;
      Nest([1], [roster.threshold], [n], keys, x);
      assert RosterBytes(c) + x == [1] + ([roster.threshold] + ([n] + (keys + x))) by {
        assert [1] + ([roster.threshold] + ([n] + keys)) == ([1] + [roster.threshold]) + [n] + keys;
      }
      ByteOf(1, [roster.threshold] + ([n] + (keys + x)));
      ByteOf(roster.threshold, [n] + (keys + x));
      ByteOf(n, keys + x);
      KeysOf([], roster.keys, x);
      assert [] + roster.keys == roster.keys;
  }

  lemma {:induction false} RecipientOf(r: Recipient, x: bytes)
    ensures GetRecipient(RecipientBytes(r) + x) == Ok(Got(r, x))
  {
    hide GetByte, GetDigest, Take;
    match r
    case Nobody => ByteOf(RECIPIENT_NONE, x);
    case Identity(key) => TaggedOf(RECIPIENT_IDENTITY, key, x); DigestOf(key, x);
    case Hybrid(key) => TaggedOf(RECIPIENT_HYBRID, key, x); TakeOf(key, x);
    case HardwareHybrid(key) => TaggedOf(RECIPIENT_HARDWARE_HYBRID, key, x); TakeOf(key, x);
    case Claim(secret) => TaggedOf(RECIPIENT_CLAIM, secret, x); DigestOf(secret, x);
  }

  lemma {:induction false} TaggedOf(kind: byte, v: bytes, x: bytes)
    ensures GetByte([kind] + v + x) == Ok(Got(kind, v + x))
  {
    hide GetByte;
    Regroup([kind], v, x);
    ByteOf(kind, v + x);
  }

  lemma {:induction false} PolicyOf(p: Policies.Policy, x: bytes)
    requires |Policies.EncodePolicy(THIS_VERSION, p)| <= MAX_MESSAGE
    ensures GetPolicy(Blob(Policies.EncodePolicy(THIS_VERSION, p)) + x) == Ok(Got(Policies.Normal(THIS_VERSION, p), x))
  {
    hide GetBlob, Blob, Policies.DecodePolicy, Policies.EncodePolicy, Policies.Normal;
    BlobOf(Policies.EncodePolicy(THIS_VERSION, p), x);
    Policies.DecodeOfEncode(THIS_VERSION, p);
  }

  function NormalHead(h: Head): Head {
    h.(policy := Policies.Normal(THIS_VERSION, h.policy))
  }

  lemma {:induction false} Unnest(a: bytes, b: bytes, c: bytes, d: bytes, x: bytes)
    ensures (a + (b + (c + d))) + x == a + (b + (c + (d + x)))
  {
  }

  lemma {:induction false} HeadOf(h: Head, x: bytes)
    requires |HeadBytes(h)| <= MAX_MESSAGE
    ensures GetHead(HeadBytes(h) + x) == Ok(Got(NormalHead(h), x))
  {
    hide GetText, GetPolicy, GetU32, GetBlob, GetTexts, Blob, Texts, Le32, Policies.EncodePolicy, Policies.Normal;
    var policy, n := Policies.EncodePolicy(THIS_VERSION, h.policy), |h.authorityUrls|;
    assert 4 * n <= |Texts(h.authorityUrls)| <= MAX_MESSAGE;
    assert n % 0x1_0000_0000 == n;
    var p5 := Texts(h.authorityUrls) + x;
    var p4 := Le32(n) + p5;
    var p3 := Blob(h.orgId) + p4;
    var p2 := Le32(h.chunkSize) + p3;
    var p1 := Blob(policy) + p2;
    assert HeadBytes(h) + x == Blob(h.originalName) + p1 by {
      Unnest(Blob(h.originalName), Blob(policy), Le32(h.chunkSize), Blob(h.orgId) + UrlBytes(h.authorityUrls), x);
      Regroup(Blob(h.orgId), UrlBytes(h.authorityUrls), x);
      Regroup(Le32(n), Texts(h.authorityUrls), x);
    }
    TextOf(h.originalName, p1);
    PolicyOf(h.policy, p2);
    U32Of(h.chunkSize, p3);
    BlobOf(h.orgId, p4);
    U32Of(n, p5);
    TextsOf([], h.authorityUrls, x);
    assert [] + h.authorityUrls == h.authorityUrls;
  }

  lemma {:induction false} PublicOf(k: Wire.Keys, x: bytes)
    ensures GetPublic(KeyBytes(k) + x) == Ok(Got(k, x))
  {
    hide GetDigest;
    Unnest(k.author, k.authoritySealing, k.authorityLeaseVerify, k.device, x);
    DigestOf(k.author, k.authoritySealing + (k.authorityLeaseVerify + (k.device + x)));
    DigestOf(k.authoritySealing, k.authorityLeaseVerify + (k.device + x));
    DigestOf(k.authorityLeaseVerify, k.device + x);
    DigestOf(k.device, x);
  }

  lemma {:induction false} ExtraOf(e: Extra, x: bytes)
    requires |ExtraBytes(e)| <= MAX_MESSAGE && (e.coauthors.Some? ==> CheckRoster(e.coauthors.value) == None)
    ensures GetExtra(ExtraBytes(e) + x) == Ok(Got(e, x))
  {
    hide GetOptBlob, GetRoster, OptBlob, RosterBytes, CheckRoster;
    var a, b, c, d := OptBlob(e.deviceHybrid), OptBlob(e.deviceHardwareHybrid), OptBlob(e.deviceTpm), RosterBytes(e.coauthors);
    Unnest(a, b, c, d, x);
    OptBlobOf(e.deviceHybrid, BadHybridKey, b + (c + (d + x)));
    OptBlobOf(e.deviceHardwareHybrid, BadHardwareHybridKey, c + (d + x));
    OptBlobOf(e.deviceTpm, BadTpmKey, d + x);
    RosterOf(e.coauthors, x);
  }

  lemma {:induction false} PlanOf(a: PlanArgs, x: bytes)
    requires |PlanBytes(a)| <= MAX_MESSAGE && (a.extra.coauthors.Some? ==> CheckRoster(a.extra.coauthors.value) == None)
    ensures GetPlan(PlanBytes(a) + x) == Ok(Got(a.(head := NormalHead(a.head)), x))
  {
    hide GetHead, GetRecipient, GetPublic, GetExtra, HeadBytes, RecipientBytes, KeyBytes, ExtraBytes, NormalHead, CheckRoster;
    var h, r, k, e := HeadBytes(a.head), RecipientBytes(a.recipient), KeyBytes(a.keys), ExtraBytes(a.extra);
    Unnest(h, r, k, e, x);
    HeadOf(a.head, r + (k + (e + x)));
    RecipientOf(a.recipient, k + (e + x));
    PublicOf(a.keys, e + x);
    ExtraOf(a.extra, x);
  }

  lemma {:induction false} SealedOf(s: SealedInfo, x: bytes)
    ensures GetSealed(SealedBytes(s) + x) == Ok(Got(s, x))
  {
    hide GetU64, GetU32, GetDigest, Le64, Le32;
    Regroup(Le64(s.totalLen), Le32(s.chunkCount) + s.treeRoot, x);
    Regroup(Le32(s.chunkCount), s.treeRoot, x);
    U64Of(s.totalLen, Le32(s.chunkCount) + (s.treeRoot + x));
    U32Of(s.chunkCount, s.treeRoot + x);
    DigestOf(s.treeRoot, x);
  }

  lemma {:induction false} PlannedOf(r: Response, x: bytes)
    requires r.Planned?
    ensures GetPlanned(PlannedBytes(r) + x) == Ok(Got(r, x))
  {
    hide GetDigest, GetU32, GetByte, Le32, Take;
    Unnest(r.fileId, r.payloadKey, Le32(r.chunkSize), [AeadByte(r.aead)], x);
    TakeOf(r.fileId, r.payloadKey + (Le32(r.chunkSize) + ([AeadByte(r.aead)] + x)));
    DigestOf(r.payloadKey, Le32(r.chunkSize) + ([AeadByte(r.aead)] + x));
    U32Of(r.chunkSize, [AeadByte(r.aead)] + x);
    ByteOf(AeadByte(r.aead), x);
  }

  /** What a request means once its policy is in the codec's normal form. */
  function NormalRequest(r: Request): Request {
    match r
    case PlanRequest(args) => PlanRequest(args.(head := NormalHead(args.head)))
    case AssembleRequest(_) => r
  }

  /** Every request that can be encoded is decoded again, its policy in normal form. */
  lemma {:induction false} RequestRoundTrip(r: Request)
    requires EncodeRequest(r).Ok?
    ensures |EncodeRequest(r).value| <= MAX_MESSAGE
    ensures DecodeRequest(EncodeRequest(r).value) == Ok(NormalRequest(r))
  {
    hide GetByte, GetPlan, GetSealed, PlanBytes, SealedBytes, NormalHead, CheckRoster;
    match r
    case PlanRequest(args) =>
      PlanOf(args, []);
      assert PlanBytes(args) + [] == PlanBytes(args);
      ByteOf(KIND_PLAN, PlanBytes(args));
    case AssembleRequest(sealed) =>
      SealedSize(sealed);
      SealedOf(sealed, []);
      assert SealedBytes(sealed) + [] == SealedBytes(sealed);
      ByteOf(KIND_ASSEMBLE, SealedBytes(sealed));
  }

  /** Every response that can be encoded is decoded as itself. */
  lemma {:induction false} ResponseRoundTrip(r: Response)
    requires EncodeResponse(r).Ok?
    ensures DecodeResponse(EncodeResponse(r).value) == Ok(r)
  {
    hide GetByte, GetPlanned, GetBlob, GetText, PlannedBytes, Blob;
    match r
    case Planned(_, _, _, _) =>
      PlannedOf(r, []);
      assert PlannedBytes(r) + [] == PlannedBytes(r);
      ByteOf(KIND_PLANNED, PlannedBytes(r));
    case Done(header, desc) =>
      assert Blob(desc) + [] == Blob(desc);
      ByteOf(KIND_DONE, Blob(header) + Blob(desc));
      BlobOf(header, Blob(desc));
      BlobOf(desc, []);
    case Failed(message) =>
      assert Blob(message) + [] == Blob(message);
      ByteOf(KIND_FAILED, Blob(message));
      TextOf(message, []);
  }

  /** An encoded request can neither be cut short nor lengthened and still be accepted. */
  lemma {:induction false} EncodedRequestStandsAlone(r: Request, other: bytes)
    requires EncodeRequest(r).Ok? && other != EncodeRequest(r).value
    requires other <= EncodeRequest(r).value || EncodeRequest(r).value <= other
    ensures DecodeRequest(other).Err?
  {
    hide DecodeRequest, EncodeRequest, NormalRequest;
    var m := EncodeRequest(r).value;
    RequestRoundTrip(r);
    if other <= m {
      assert m == other + m[|other|..];
      if DecodeRequest(other).Ok? { RequestsArePrefixFree(other, m[|other|..]); }
    } else {
      assert other == m + other[|m|..];
      RequestsArePrefixFree(m, other[|m|..]);
    }
  }

  /** The same for responses. */
  lemma {:induction false} EncodedResponseStandsAlone(r: Response, other: bytes)
    requires EncodeResponse(r).Ok? && other != EncodeResponse(r).value
    requires other <= EncodeResponse(r).value || EncodeResponse(r).value <= other
    ensures DecodeResponse(other).Err?
  {
    hide DecodeResponse, EncodeResponse;
    var m := EncodeResponse(r).value;
    ResponseRoundTrip(r);
    if other <= m {
      assert m == other + m[|other|..];
      if DecodeResponse(other).Ok? { ResponsesArePrefixFree(other, m[|other|..]); }
    } else {
      assert other == m + other[|m|..];
      ResponsesArePrefixFree(m, other[|m|..]);
    }
  }
}
