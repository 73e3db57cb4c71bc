/** Messages between device and engine: a fixed buffer of precomputed size, and a parser without slack. */
module Wire {
  import opened Bytes
  import opened Text
  import opened Engine
  import opened HeaderParts
  import Policies

  const MAX_MESSAGE: nat := 0x10_0000

  datatype What = NotText | BadPolicy | BadRecipient | BadHybridKey | BadHardwareHybridKey | BadTpmKey | BadRoster | BadAead

  datatype WireError = Truncated | TrailingBytes | UnknownKind(kind: byte) | BadValue(what: What) | TooLarge | BadSize

  datatype PlanArgs = PlanArgs(head: Head, recipient: Recipient, keys: Keys, extra: Extra)

  /** The fields of a planning request in the order they travel. */
  datatype Head = Head(originalName: text, policy: Policies.Policy, chunkSize: u32, orgId: bytes, authorityUrls: seq<text>)
  datatype Keys = Keys(author: digest, authoritySealing: digest, authorityLeaseVerify: digest, device: digest)
  datatype Extra = Extra(
    deviceHybrid: Option<bytes>, deviceHardwareHybrid: Option<bytes>, deviceTpm: Option<bytes>, coauthors: Option<Coauthors>)

  datatype Request = PlanRequest(args: PlanArgs) | AssembleRequest(sealed: SealedInfo)

  datatype Response =
    | Planned(fileId: id16, payloadKey: digest, chunkSize: u32, aead: AeadAlg)
    | Done(header: bytes, contentDesc: bytes)
    | Failed(message: text)

  const KIND_PLAN: byte := 1
  const KIND_ASSEMBLE: byte := 2
  const KIND_PLANNED: byte := 3
  const KIND_DONE: byte := 4
  const KIND_FAILED: byte := 5

  const RECIPIENT_NONE: byte := 0
  const RECIPIENT_IDENTITY: byte := 1
  const RECIPIENT_CLAIM: byte := 2
  const RECIPIENT_HYBRID: byte := 3
  const RECIPIENT_HARDWARE_HYBRID: byte := 4

  const ASSEMBLE_SIZE: nat := 1 + 8 + 4 + 32
  const PLANNED_SIZE: nat := 1 + 16 + 32 + 4 + 1

  // ---- The bytes of a message ---------------------------------------------------------------

  function Blob(v: bytes): (b: bytes)
    ensures |b| == 4 + |v|
  {
    Le32(|v| % 0x1_0000_0000) + v
  }

  function Texts(urls: seq<text>): (b: bytes)
    ensures |b| >= 4 * |urls|
  {
    if urls == [] then [] else Blob(urls[0]) + Texts(urls[1..])
  }

  function OptBlob(v: Option<bytes>): bytes {
    match v case None => [0] case Some(b) => [1] + Blob(b)
  }

  function RosterBytes(c: Option<Coauthors>): bytes {
    match c case None => [0] case Some(roster) => [1] + ([roster.threshold] + ([|roster.keys| % 0x100] + Flat(roster.keys)))
  }

  function RecipientBytes(r: Recipient): bytes {
    match r
    case Nobody => [RECIPIENT_NONE]
    case Identity(key) => [RECIPIENT_IDENTITY] + key
    case Hybrid(key) => [RECIPIENT_HYBRID] + key
    case HardwareHybrid(key) => [RECIPIENT_HARDWARE_HYBRID] + key
    case Claim(secret) => [RECIPIENT_CLAIM] + secret
  }

  /** The addresses behind their number. */
  function UrlBytes(urls: seq<text>): bytes {
    Le32(|urls| % 0x1_0000_0000) + Texts(urls)
  }

  function HeadBytes(h: Head): bytes {
    Blob(h.originalName) + (Blob(Policies.EncodePolicy(THIS_VERSION, h.policy)) + (Le32(h.chunkSize) + (Blob(h.orgId)
      + UrlBytes(h.authorityUrls))))
  }

  function KeyBytes(k: Keys): bytes {
    k.author + (k.authoritySealing + (k.authorityLeaseVerify + k.device))
  }

  function ExtraBytes(e: Extra): bytes {
    OptBlob(e.deviceHybrid) + (OptBlob(e.deviceHardwareHybrid) + (OptBlob(e.deviceTpm) + RosterBytes(e.coauthors)))
  }

  function PlanBytes(a: PlanArgs): bytes {
    HeadBytes(a.head) + (RecipientBytes(a.recipient) + (KeyBytes(a.keys) + ExtraBytes(a.extra)))
  }

  function SealedBytes(s: SealedInfo): bytes {
    Le64(s.totalLen) + (Le32(s.chunkCount) + s.treeRoot)
  }

  function AeadByte(alg: AeadAlg): byte {
    AeadId(alg)
  }

  function PlannedBytes(r: Response): bytes
    requires r.Planned?
  {
    r.fileId + (r.payloadKey + (Le32(r.chunkSize) + [AeadByte(r.aead)]))
  }

  function Bounded(message: bytes): Result<bytes, WireError> {
    if |message| > MAX_MESSAGE then Err(TooLarge) else Ok(message)
  }

  /** A roster that cannot be enforced is refused before anything is written. */
  function EncodeRequest(r: Request): Result<bytes, WireError> {
    match r
    case PlanRequest(args) =>
      if |args.head.authorityUrls| > U32_MAX then Err(TooLarge)
      else if args.extra.coauthors.Some? && CheckRoster(args.extra.coauthors.value).Some? then Err(BadValue(BadRoster))
      else Bounded([KIND_PLAN] + PlanBytes(args))
    case AssembleRequest(sealed) => Ok([KIND_ASSEMBLE] + SealedBytes(sealed))
  }

  function EncodeResponse(r: Response): Result<bytes, WireError> {
    match r
    case Planned(_, _, _, _) => Ok([KIND_PLANNED] + PlannedBytes(r))
    case Done(header, contentDesc) => Bounded([KIND_DONE] + (Blob(header) + Blob(contentDesc)))
    case Failed(message) => Bounded([KIND_FAILED] + Blob(message))
  }

  // ---- Writing into a buffer that does not grow ------------------------------------------------

  class Writer {
    const message: array<byte>
    var at: nat

    ghost predicate Valid()
      reads this
    {
      at <= message.Length <= MAX_MESSAGE
    }

    ghost function Written(): bytes
      reads this, message
      requires Valid()
    {
      message[..at]
    }

    constructor (size: nat)
      requires size <= MAX_MESSAGE
      ensures Valid() && at == 0 && message.Length == size && fresh(message)
    {
      message := new byte[size](_ => 0);
      at := 0;
    }

    /** Append bytes if they fit; otherwise nothing changes. */
    method Raw(v: bytes) returns (r: Result<(), WireError>)
      requires Valid()
      modifies this, message
      ensures Valid()
      ensures r == if old(at) + |v| <= message.Length then Ok(()) else Err(BadSize)
      ensures Written() == old(Written()) + if r.Ok? then v else []
    {
      var end := at + |v|;
      if end > message.Length {
        assert Written() == old(Written()) + [];
        return Err(BadSize);
      }
      forall i | 0 <= i < |v| {
        message[at + i] := v[i];
      }
      at := end;
      assert message[..end] == old(message[..at]) + v;
      return Ok(());
    }

    /** Append a length and the bytes. */
    method PutBlob(v: bytes) returns (r: Result<(), WireError>)
      requires Valid()
      modifies this, message
      ensures Valid()
      ensures r == if old(at) + 4 + |v| <= message.Length then Ok(()) else Err(if |v| > U32_MAX then TooLarge else BadSize)
      ensures r.Ok? ==> Written() == old(Written()) + Blob(v)
    {
      if |v| > U32_MAX {
        return Err(TooLarge);
      }
      var _ :- Raw(Le32(|v|));
      r := Raw(v);
      assert |v| % 0x1_0000_0000 == |v|;
      Regroup(old(Written()), Le32(|v|), v);
    }

    /** The message, if exactly as many bytes were written as promised. */
    method Finish() returns (r: Result<bytes, WireError>)
      requires Valid()
      ensures r == if at == message.Length then Ok(Written()) else Err(BadSize)
    {
      if at == message.Length {
        assert message[..] == message[..at];
        return Ok(message[..]);
      }
      return Err(BadSize);
    }
  }

  method Start(kind: byte, size: nat) returns (r: Result<Writer, WireError>)
    ensures r.Ok? <==> 1 <= size <= MAX_MESSAGE
    ensures r.Err? ==> r.error == if size > MAX_MESSAGE then TooLarge else BadSize
    ensures r.Ok? ==> fresh(r.value) && fresh(r.value.message) && r.value.Valid() && r.value.message.Length == size
    ensures r.Ok? ==> r.value.Written() == [kind]
  {
    if size > MAX_MESSAGE {
      return Err(TooLarge);
    }
    var w := new Writer(size);
    var _ :- w.Raw([kind]);
    return Ok(w);
  }

  // Every fill method appends all of its bytes, or fails exactly when they do not fit: with
  // `BadSize`, unless what did not fit is a value too long for its length prefix.

  predicate Huge(v: bytes) {
    |v| > U32_MAX
  }

  predicate HugeTexts(urls: seq<text>) {
    exists i :: 0 <= i < |urls| && Huge(urls[i])
  }

  predicate HugeOpt(v: Option<bytes>) {
    v.Some? && Huge(v.value)
  }

  predicate HugeHead(h: Head) {
    Huge(h.originalName) || Huge(Policies.EncodePolicy(THIS_VERSION, h.policy)) || Huge(h.orgId) || HugeTexts(h.authorityUrls)
  }

  predicate HugeExtra(e: Extra) {
    HugeOpt(e.deviceHybrid) || HugeOpt(e.deviceHardwareHybrid) || HugeOpt(e.deviceTpm)
  }

  predicate HugePlan(a: PlanArgs) {
    HugeHead(a.head) || HugeExtra(a.extra)
  }

  /** The failures of a fill whose values are, or are not, too long. */
  predicate Refused(r: Result<(), WireError>, huge: bool) {
    r.Err? ==> r.error == BadSize || (huge && r.error == TooLarge)
  }

  method FillTexts(w: Writer, urls: seq<text>) returns (r: Result<(), WireError>)
    requires w.Valid()
    modifies w, w.message
    ensures w.Valid()
    ensures r.Ok? <==> old(w.at) + |Texts(urls)| <= w.message.Length
    ensures r.Ok? ==> w.Written() == old(w.Written()) + Texts(urls)
    ensures Refused(r, HugeTexts(urls))
  {
    hide Blob;
    ghost var before := w.Written();
    ghost var done: bytes := [];
    assert urls[0..] == urls;
    for i := 0 to |urls|
      invariant w.Valid() && Texts(urls) == done + Texts(urls[i..])
      invariant w.Written() == before + done
    {
      assert urls[i..][0] == urls[i] && urls[i..][1..] == urls[i + 1..];
      var _ :- w.PutBlob(urls[i]);
      Regroup(done, Blob(urls[i]), Texts(urls[i + 1..]));
      Regroup(before, done, Blob(urls[i]));
      done := done + Blob(urls[i]);
    }
    assert done + [] == done;
    return Ok(());
  }

  method FillUrls(w: Writer, urls: seq<text>) returns (r: Result<(), WireError>)
    requires w.Valid()
    modifies w, w.message
    ensures w.Valid()
    ensures r.Ok? <==> old(w.at) + |UrlBytes(urls)| <= w.message.Length
    ensures r.Ok? ==> w.Written() == old(w.Written()) + UrlBytes(urls)
    ensures Refused(r, HugeTexts(urls))
  {
    hide Texts, Le32, HugeTexts;
    var count := Le32(|urls| % 0x1_0000_0000);
    var _ :- w.Raw(count);
    r := FillTexts(w, urls);
    Regroup(old(w.Written()), count, Texts(urls));
  }

  method FillOptBlob(w: Writer, v: Option<bytes>) returns (r: Result<(), WireError>)
    requires w.Valid()
    modifies w, w.message
    ensures w.Valid()
    ensures r.Ok? <==> old(w.at) + |OptBlob(v)| <= w.message.Length
    ensures r.Ok? ==> w.Written() == old(w.Written()) + OptBlob(v)
    ensures Refused(r, HugeOpt(v))
  {
    if v.None? {
      r := w.Raw([0]);
      return;
    }
    var _ :- w.Raw([1]);
    r := w.PutBlob(v.value);
    Regroup(old(w.Written()), [1], Blob(v.value));
  }

  method FillKeys(w: Writer, keys: seq<digest>) returns (r: Result<(), WireError>)
    requires w.Valid()
    modifies w, w.message
    ensures w.Valid()
    ensures r.Ok? <==> old(w.at) + |Flat(keys)| <= w.message.Length
    ensures r.Ok? ==> w.Written() == old(w.Written()) + Flat(keys)
    ensures Refused(r, false)
  {
    ghost var before := w.Written();
    ghost var done: bytes := [];
    assert keys[0..] == keys;
    for i := 0 to |keys|
      invariant w.Valid() && Flat(keys) == done + Flat(keys[i..])
      invariant w.Written() == before + done
    {
      assert keys[i..][0] == keys[i] && keys[i..][1..] == keys[i + 1..];
      var _ :- w.Raw(keys[i]);
      Regroup(done, keys[i], Flat(keys[i + 1..]));
      Regroup(before, done, keys[i]);
      done := done + keys[i];
    }
    assert done + [] == done;
    return Ok(());
  }

  method FillRoster(w: Writer, c: Option<Coauthors>) returns (r: Result<(), WireError>)
    requires w.Valid()
    modifies w, w.message
    ensures w.Valid()
    ensures r.Ok? <==> old(w.at) + |RosterBytes(c)| <= w.message.Length
    ensures r.Ok? ==> w.Written() == old(w.Written()) + RosterBytes(c)
    ensures Refused(r, false)
  {
    hide Flat;
    if c.None? {
      r := w.Raw([0]);
      return;
    }
    var roster := c.value;
    ghost var a, b, d, e := old(w.Written()), [1], [roster.threshold], [|roster.keys| % 0x100];
    var _ :- w.Raw([1]);
    var _ :- w.Raw([roster.threshold]);
    var _ :- w.Raw([|roster.keys| % 0x100]);
    r := FillKeys(w, roster.keys);
    Nest(a, b, d, e, Flat(roster.keys));
  }

  lemma {:induction false} Nest(a: bytes, b: bytes, c: bytes, d: bytes, e: bytes)
    ensures (((a + b) + c) + d) + e == a + (b + (c + (d + e)))
  {
  }

  method FillRecipient(w: Writer, to: Recipient) returns (r: Result<(), WireError>)
    requires w.Valid()
    modifies w, w.message
    ensures w.Valid()
    ensures r.Ok? <==> old(w.at) + |RecipientBytes(to)| <= w.message.Length
    ensures r.Ok? ==> w.Written() == old(w.Written()) + RecipientBytes(to)
    ensures Refused(r, false)
  {
    match to {
      case Nobody =>
        r := w.Raw([RECIPIENT_NONE]);
      case Identity(key) =>
        var _ :- w.Raw([RECIPIENT_IDENTITY]);
        r := w.Raw(key);
        Regroup(old(w.Written()), [RECIPIENT_IDENTITY], key);
      case Hybrid(key) =>
        var _ :- w.Raw([RECIPIENT_HYBRID]);
        r := w.Raw(key);
        Regroup(old(w.Written()), [RECIPIENT_HYBRID], key);
      case HardwareHybrid(key) =>
        var _ :- w.Raw([RECIPIENT_HARDWARE_HYBRID]);
        r := w.Raw(key);
        Regroup(old(w.Written()), [RECIPIENT_HARDWARE_HYBRID], key);
      case Claim(secret) =>
        var _ :- w.Raw([RECIPIENT_CLAIM]);
        r := w.Raw(secret);
        Regroup(old(w.Written()), [RECIPIENT_CLAIM], secret);
    }
  }

  method FillHead(w: Writer, h: Head, policy: bytes) returns (r: Result<(), WireError>)
    requires policy == Policies.EncodePolicy(THIS_VERSION, h.policy)
    requires w.Valid()
    modifies w, w.message
    ensures w.Valid()
    ensures r.Ok? <==> old(w.at) + |HeadBytes(h)| <= w.message.Length
    ensures r.Ok? ==> w.Written() == old(w.Written()) + HeadBytes(h)
    ensures Refused(r, HugeHead(h))
  {
    hide Blob, UrlBytes, Policies.EncodePolicy, Le32, HugeTexts;
    ghost var before := w.Written();
    var _ :- w.PutBlob(h.originalName);
    var _ :- w.PutBlob(policy);
    var _ :- w.Raw(Le32(h.chunkSize));
    var _ :- w.PutBlob(h.orgId);
    r := FillUrls(w, h.authorityUrls);
    Regroup(before + Blob(h.originalName) + Blob(policy) + Le32(h.chunkSize), Blob(h.orgId), UrlBytes(h.authorityUrls));
    Nest(before, Blob(h.originalName), Blob(policy), Le32(h.chunkSize), Blob(h.orgId) + UrlBytes(h.authorityUrls));
  }

  method FillPublic(w: Writer, k: Keys) returns (r: Result<(), WireError>)
    requires w.Valid()
    modifies w, w.message
    ensures w.Valid()
    ensures r.Ok? <==> old(w.at) + |KeyBytes(k)| <= w.message.Length
    ensures r.Ok? ==> w.Written() == old(w.Written()) + KeyBytes(k)
    ensures Refused(r, false)
  {
    var _ :- w.Raw(k.author);
    var _ :- w.Raw(k.authoritySealing);
    var _ :- w.Raw(k.authorityLeaseVerify);
    r := w.Raw(k.device);
    Nest(old(w.Written()), k.author, k.authoritySealing, k.authorityLeaseVerify, k.device);
  }

  method FillExtra(w: Writer, e: Extra) returns (r: Result<(), WireError>)
    requires w.Valid()
    modifies w, w.message
    ensures w.Valid()
    ensures r.Ok? <==> old(w.at) + |ExtraBytes(e)| <= w.message.Length
    ensures r.Ok? ==> w.Written() == old(w.Written()) + ExtraBytes(e)
    ensures Refused(r, HugeExtra(e))
  {
    hide OptBlob, RosterBytes, HugeOpt;
    ghost var before := w.Written();
    var _ :- FillOptBlob(w, e.deviceHybrid);
    var _ :- FillOptBlob(w, e.deviceHardwareHybrid);
    var _ :- FillOptBlob(w, e.deviceTpm);
    r := FillRoster(w, e.coauthors);
    Nest(before, OptBlob(e.deviceHybrid), OptBlob(e.deviceHardwareHybrid), OptBlob(e.deviceTpm), RosterBytes(e.coauthors));
  }

  method FillPlan(w: Writer, a: PlanArgs, policy: bytes) returns (r: Result<(), WireError>)
    requires policy == Policies.EncodePolicy(THIS_VERSION, a.head.policy)
    requires w.Valid()
    modifies w, w.message
    ensures w.Valid()
    ensures r.Ok? <==> old(w.at) + |PlanBytes(a)| <= w.message.Length
    ensures r.Ok? ==> w.Written() == old(w.Written()) + PlanBytes(a)
    ensures Refused(r, HugePlan(a))
  {
    hide HeadBytes, RecipientBytes, KeyBytes, ExtraBytes, Policies.EncodePolicy, HugeHead, HugeExtra;
    ghost var before := w.Written();
    var _ :- FillHead(w, a.head, policy);
    var _ :- FillRecipient(w, a.recipient);
    var _ :- FillPublic(w, a.keys);
    r := FillExtra(w, a.extra);
    Nest(before, HeadBytes(a.head), RecipientBytes(a.recipient), KeyBytes(a.keys), ExtraBytes(a.extra));
  }

  method FillSealed(w: Writer, s: SealedInfo) returns (r: Result<(), WireError>)
    requires w.Valid()
    modifies w, w.message
    ensures w.Valid()
    ensures r.Ok? <==> old(w.at) + |SealedBytes(s)| <= w.message.Length
    ensures r.Ok? ==> w.Written() == old(w.Written()) + SealedBytes(s)
    ensures Refused(r, false)
  {
    hide Le64, Le32;
    ghost var before := w.Written();
    var _ :- w.Raw(Le64(s.totalLen));
    var _ :- w.Raw(Le32(s.chunkCount));
    r := w.Raw(s.treeRoot);
    Nest(before, Le64(s.totalLen), Le32(s.chunkCount), s.treeRoot, []);
    assert s.treeRoot + [] == s.treeRoot;
  }

  method FillPlanned(w: Writer, p: Response) returns (r: Result<(), WireError>)
    requires p.Planned?
    requires w.Valid()
    modifies w, w.message
    ensures w.Valid()
    ensures r.Ok? <==> old(w.at) + |PlannedBytes(p)| <= w.message.Length
    ensures r.Ok? ==> w.Written() == old(w.Written()) + PlannedBytes(p)
    ensures Refused(r, false)
  {
    hide Le32;
    var _ :- w.Raw(p.fileId);
    var _ :- w.Raw(p.payloadKey);
    var _ :- w.Raw(Le32(p.chunkSize));
    r := w.Raw([AeadByte(p.aead)]);
    Nest(old(w.Written()), p.fileId, p.payloadKey, Le32(p.chunkSize), [AeadByte(p.aead)]);
  }

  method FillDone(w: Writer, header: bytes, contentDesc: bytes) returns (r: Result<(), WireError>)
    requires w.Valid()
    modifies w, w.message
    ensures w.Valid()
    ensures r.Ok? <==> old(w.at) + |(Blob(header) + Blob(contentDesc))| <= w.message.Length
    ensures r.Ok? ==> w.Written() == old(w.Written()) + (Blob(header) + Blob(contentDesc))
    ensures Refused(r, Huge(header) || Huge(contentDesc))
  {
    hide Blob;
    var _ :- w.PutBlob(header);
    r := w.PutBlob(contentDesc);
    Regroup(old(w.Written()), Blob(header), Blob(contentDesc));
  }

  // ---- Sizes computed in advance -----------------------------------------------------------------

  function RecipientSize(to: Recipient): (n: nat)
    ensures 1 + n == |RecipientBytes(to)|
  {
    match to
    case Nobody => 0
    case Identity(_) => 32
    case Hybrid(_) => 1216
    case HardwareHybrid(_) => 1249
    case Claim(_) => 32
  }

  function OptSize(v: Option<bytes>): (n: nat)
    ensures 1 + n == |OptBlob(v)|
  {
    match v case None => 0 case Some(b) => 4 + |b|
  }

  method HeadSize(h: Head, policy: bytes) returns (size: nat)
    requires policy == Policies.EncodePolicy(THIS_VERSION, h.policy)
    ensures size == |HeadBytes(h)|
  {
    hide Policies.EncodePolicy, Blob;
    size := 4 + |h.originalName|;
    size := size + 4 + |policy|;
    size := size + 4;
    size := size + 4 + |h.orgId|;
    size := size + 4;
    ghost var start, urls := size, h.authorityUrls;
    assert urls[0..] == urls;
    for i := 0 to |h.authorityUrls|
      invariant size + |Texts(urls[i..])| == start + |Texts(urls)|
    {
      assert urls[i..][0] == urls[i] && urls[i..][1..] == urls[i + 1..];
      size := size + 4 + |h.authorityUrls[i]|;
    }
  }

  /** The size of a planning message, or the refusal of a roster met on the way. */
  method PlanSize(a: PlanArgs, policy: bytes) returns (r: Result<nat, WireError>)
    requires policy == Policies.EncodePolicy(THIS_VERSION, a.head.policy)
    ensures var c := a.extra.coauthors;
            if c.Some? && CheckRoster(c.value).Some? then r == Err(BadValue(BadRoster))
            else r == Ok(1 + |PlanBytes(a)|)
  {
    hide Policies.EncodePolicy, Blob, CheckRoster, Flat, HeadBytes;
    var head := HeadSize(a.head, policy);
    var size := 1 + head;
    size := size + 1 + RecipientSize(a.recipient);
    size := size + 32 * 4;
    size := size + 1 + OptSize(a.extra.deviceHybrid);
    size := size + 1 + OptSize(a.extra.deviceHardwareHybrid);
    size := size + 1 + OptSize(a.extra.deviceTpm);
    size := size + 1;
    if a.extra.coauthors.Some? {
      var roster := a.extra.coauthors.value;
      var bad := ValidateRoster(roster);
      if bad.Some? {
        return Err(BadValue(BadRoster));
      }
      size := size + 2 + 32 * |roster.keys|;
    }
    return Ok(size);
  }

  // A message comes out exactly when the size promised for it is its true size; a promise that
  // is too small or too large is an error.

  method ComposePlan(size: nat, a: PlanArgs, policy: bytes) returns (r: Result<bytes, WireError>)
    requires policy == Policies.EncodePolicy(THIS_VERSION, a.head.policy)
    ensures r.Ok? <==> size == 1 + |PlanBytes(a)| <= MAX_MESSAGE
    ensures r.Ok? ==> r.value == [KIND_PLAN] + PlanBytes(a)
    ensures size > MAX_MESSAGE ==> r == Err(TooLarge)
  {
    hide PlanBytes, HugePlan, Policies.EncodePolicy;
    var w :- Start(KIND_PLAN, size);
    var _ :- FillPlan(w, a, policy);
    r := w.Finish();
  }

  method ComposeAssemble(size: nat, s: SealedInfo) returns (r: Result<bytes, WireError>)
    ensures r.Ok? <==> size == 1 + |SealedBytes(s)| <= MAX_MESSAGE
    ensures r.Ok? ==> r.value == [KIND_ASSEMBLE] + SealedBytes(s)
    ensures size > MAX_MESSAGE ==> r == Err(TooLarge)
  {
    hide SealedBytes;
    var w :- Start(KIND_ASSEMBLE, size);
    var _ :- FillSealed(w, s);
    r := w.Finish();
  }

  method ComposePlanned(size: nat, p: Response) returns (r: Result<bytes, WireError>)
    requires p.Planned?
    ensures r.Ok? <==> size == 1 + |PlannedBytes(p)| <= MAX_MESSAGE
    ensures r.Ok? ==> r.value == [KIND_PLANNED] + PlannedBytes(p)
    ensures size > MAX_MESSAGE ==> r == Err(TooLarge)
  {
    hide PlannedBytes;
    var w :- Start(KIND_PLANNED, size);
    var _ :- FillPlanned(w, p);
    r := w.Finish();
  }

  method ComposeDone(size: nat, header: bytes, contentDesc: bytes) returns (r: Result<bytes, WireError>)
    ensures r.Ok? <==> size == 1 + |(Blob(header) + Blob(contentDesc))| <= MAX_MESSAGE
    ensures r.Ok? ==> r.value == [KIND_DONE] + (Blob(header) + Blob(contentDesc))
    ensures size > MAX_MESSAGE ==> r == Err(TooLarge)
  {
    hide Blob;
    var w :- Start(KIND_DONE, size);
    var _ :- FillDone(w, header, contentDesc);
    r := w.Finish();
  }

  method ComposeFailed(size: nat, message: text) returns (r: Result<bytes, WireError>)
    ensures r.Ok? <==> size == 1 + |Blob(message)| <= MAX_MESSAGE
    ensures r.Ok? ==> r.value == [KIND_FAILED] + Blob(message)
    ensures size > MAX_MESSAGE ==> r == Err(TooLarge)
  {
    hide Blob;
    var w :- Start(KIND_FAILED, size);
    var _ :- w.PutBlob(message);
    r := w.Finish();
  }

  /**
    The size computed in advance is the number of bytes written: the outcome is the message or
    a refusal of the request, never a disagreement about the size.
   */
  method WriteRequest(request: Request) returns (r: Result<bytes, WireError>)
    ensures r == EncodeRequest(request)
    ensures r != Err(BadSize)
  {
    hide PlanBytes, SealedBytes, Policies.EncodePolicy;
    match request {
      case PlanRequest(args) =>
        var policy := Policies.WritePolicy(THIS_VERSION, args.head.policy);
        if |args.head.authorityUrls| > U32_MAX {
          return Err(TooLarge);
        }
        var size :- PlanSize(args, policy);
        r := ComposePlan(size, args, policy);
      case AssembleRequest(sealed) =>
        SealedSize(sealed);
        r := ComposeAssemble(ASSEMBLE_SIZE, sealed);
    }
  }

  lemma {:induction false} SealedSize(s: SealedInfo)
    ensures 1 + |SealedBytes(s)| == ASSEMBLE_SIZE
  {
  }

  method WriteResponse(response: Response) returns (r: Result<bytes, WireError>)
    ensures r == EncodeResponse(response)
    ensures r != Err(BadSize)
  {
    hide Blob, Le32;
    match response {
      case Planned(_, _, _, _) =>
        r := ComposePlanned(PLANNED_SIZE, response);
      case Done(header, contentDesc) =>
        var size := 1;
        size := size + 4 + |header|;
        size := size + 4 + |contentDesc|;
        r := ComposeDone(size, header, contentDesc);
      case Failed(message) =>
        r := ComposeFailed(1 + 4 + |message|, message);
    }
  }
}
