/**
  The bytes of engine messages, spelled out: an accepted message is exactly one of these byte
  strings, and each of them is accepted.
 */
module WireFormats {
  import opened Bytes
  import opened Text
  import opened Formats
  import opened Engine
  import opened HeaderParts
  import opened Wire
  import opened WireReading
  import HeaderReadings
  import Policies

  function Counted(v: bytes): bytes {
    Little(|v|, 4) + v
  }

  function AllCounted(urls: seq<text>): bytes {
    if urls == [] then [] else Counted(urls[0]) + AllCounted(urls[1..])
  }

  function Optional(v: Option<bytes>): bytes {
    match v case None => [0] case Some(b) => [1] + Counted(b)
  }

  function Joined(keys: seq<digest>): bytes {
    if keys == [] then [] else keys[0] + Joined(keys[1..])
  }

  /** No message holds a value longer than a message may be. */
  predicate Short(v: bytes) {
    |v| <= 0x10_0000
  }

  // ---- Single values ---------------------------------------------------------------------------

  lemma {:induction false} TakeMeans(b: bytes, n: nat, v: bytes, rest: bytes)
    ensures Take(b, n) == Ok(Got(v, rest)) <==> |v| == n && b == v + rest
  {
    if n <= |b| { assert b == b[..n] + b[n..]; }
    if |v| == n && b == v + rest { assert b[..n] == v && b[n..] == rest; }
  }

  lemma {:induction false} ByteMeans(b: bytes, v: byte, rest: bytes)
    ensures GetByte(b) == Ok(Got(v, rest)) <==> b == [v] + rest
  {
    hide Take;
    TakeMeans(b, 1, [v], rest);
    if GetByte(b) == Ok(Got(v, rest)) {
      var t := Take(b, 1).value;
      TakeMeans(b, 1, t.value, t.rest);
      assert t.value == [v];
    }
  }

  lemma {:induction false} DigestMeans(b: bytes, v: digest, rest: bytes)
    ensures GetDigest(b) == Ok(Got(v, rest)) <==> b == v + rest
  {
    hide Take;
    TakeMeans(b, 32, v, rest);
    if GetDigest(b) == Ok(Got(v, rest)) {
      var t := Take(b, 32).value;
      assert t == Got(v, rest);
    }
  }

  lemma {:induction false} NumberMeans(b: bytes, v: u32, rest: bytes)
    ensures GetU32(b) == Ok(Got(v, rest)) <==> b == Little(v, 4) + rest
  {
    hide Take, Little, Le32, FromLe32;
    HalfIs(v);
    Le32RoundTrip(v);
    TakeMeans(b, 4, Little(v, 4), rest);
    if GetU32(b) == Ok(Got(v, rest)) {
      var t := Take(b, 4).value;
      TakeMeans(b, 4, t.value, t.rest);
      FromLe32RoundTrip(t.value);
    }
  }

  lemma {:induction false} LongMeans(b: bytes, v: u64, rest: bytes)
    ensures GetU64(b) == Ok(Got(v, rest)) <==> b == Little(v, 8) + rest
  {
    hide Take, Little, Le64, FromLe64;
    WordsAre(0, v);
    Le64RoundTrip(v);
    TakeMeans(b, 8, Little(v, 8), rest);
    if GetU64(b) == Ok(Got(v, rest)) {
      var t := Take(b, 8).value;
      TakeMeans(b, 8, t.value, t.rest);
      FromLe64RoundTrip(t.value);
    }
  }

  lemma {:induction false} BlobMeans(b: bytes, v: bytes, rest: bytes)
    ensures GetBlob(b) == Ok(Got(v, rest)) <==> Short(v) && b == Counted(v) + rest
  {
    hide Take, GetU32, Little;
    if GetBlob(b) == Ok(Got(v, rest)) {
      var n := GetU32(b).value;
      NumberMeans(b, n.value, n.rest);
      TakeMeans(n.rest, n.value, v, rest);
      Regroup(Little(|v|, 4), v, rest);
    }
    if Short(v) && b == Counted(v) + rest {
      Regroup(Little(|v|, 4), v, rest);
      NumberMeans(b, |v|, v + rest);
      TakeMeans(v + rest, |v|, v, rest);
    }
  }

  lemma {:induction false} TextMeans(b: bytes, v: text, rest: bytes)
    ensures GetText(b) == Ok(Got(v, rest)) <==> Short(v) && b == Counted(v) + rest
  {
    hide GetBlob, Utf8, Counted;
    BlobMeans(b, v, rest);
  }

  /** So many texts behind those already taken. */
  lemma {:induction false} TextsMean(count: nat, taken: seq<text>, b: bytes, urls: seq<text>, rest: bytes)
    ensures GetTexts(count, taken, b) == Ok(Got(taken + urls, rest)) <==>
            |urls| == count && (forall i :: 0 <= i < count ==> Short(urls[i])) && b == AllCounted(urls) + rest
    decreases count
  {
    hide GetText, Counted;
    if count > 0 && GetText(b).Ok? {
      var t := GetText(b).value;
      TextMeans(b, t.value, t.rest);
      TextsGrow(count - 1, taken + [t.value], t.rest);
    }
    if count == 0 {
      assert [] + rest == rest;
      if |urls| > 0 { assert |taken + urls| > |taken|; } else { assert taken + urls == taken; }
    } else if urls != [] {
      assert urls == [urls[0]] + urls[1..];
      Regroup(taken, [urls[0]], urls[1..]);
      TextsMean(count - 1, taken + [urls[0]], AllCounted(urls[1..]) + rest, urls[1..], rest);
      Regroup(Counted(urls[0]), AllCounted(urls[1..]), rest);
      if GetTexts(count, taken, b) == Ok(Got(taken + urls, rest)) {
        var t := GetText(b).value;
        assert (taken + urls)[|taken|] == t.value;
        TextsMean(count - 1, taken + [t.value], t.rest, urls[1..], rest);
        assert forall i :: 0 < i < count ==> urls[i] == urls[1..][i - 1];
      }
      if (forall i :: 0 <= i < |urls| ==> Short(urls[i])) && b == AllCounted(urls) + rest {
        TextMeans(b, urls[0], AllCounted(urls[1..]) + rest);
      }
    } else {
      assert taken + urls == taken;
    }
  }

  /** Texts are only ever appended. */
  lemma {:induction false} TextsGrow(count: nat, taken: seq<text>, b: bytes)
    ensures GetTexts(count, taken, b).Ok? ==>
              var urls := GetTexts(count, taken, b).value.value;
              |urls| == |taken| + count && urls[..|taken|] == taken
    decreases count
  {
    hide GetText;
    if count > 0 && GetText(b).Ok? {
      var t := GetText(b).value;
      TextsGrow(count - 1, taken + [t.value], t.rest);
      if GetTexts(count, taken, b).Ok? {
        var urls := GetTexts(count, taken, b).value.value;
        assert urls[..|taken|] == urls[..|taken| + 1][..|taken|] == taken;
      }
    }
  }

  lemma {:induction false} KeysMean(count: nat, taken: seq<digest>, b: bytes, keys: seq<digest>, rest: bytes)
    ensures GetKeys(count, taken, b) == Ok(Got(taken + keys, rest)) <==> |keys| == count && b == Joined(keys) + rest
    decreases count
  {
    hide GetDigest;
    if count > 0 && GetDigest(b).Ok? {
      var t := GetDigest(b).value;
      DigestMeans(b, t.value, t.rest);
      KeysGrow(count - 1, taken + [t.value], t.rest);
    }
    if count == 0 {
      assert [] + rest == rest;
      if |keys| > 0 { assert |taken + keys| > |taken|; } else { assert taken + keys == taken; }
    } else if keys != [] {
      assert keys == [keys[0]] + keys[1..];
      Regroup(taken, [keys[0]], keys[1..]);
      KeysMean(count - 1, taken + [keys[0]], Joined(keys[1..]) + rest, keys[1..], rest);
      Regroup(keys[0], Joined(keys[1..]), rest);
      if GetKeys(count, taken, b) == Ok(Got(taken + keys, rest)) {
        var t := GetDigest(b).value;
        assert (taken + keys)[|taken|] == t.value;
        KeysMean(count - 1, taken + [t.value], t.rest, keys[1..], rest);
      }
      if b == Joined(keys) + rest { DigestMeans(b, keys[0], Joined(keys[1..]) + rest); }
    } else {
      assert taken + keys == taken;
    }
  }

  lemma {:induction false} KeysGrow(count: nat, taken: seq<digest>, b: bytes)
    ensures GetKeys(count, taken, b).Ok? ==>
              var keys := GetKeys(count, taken, b).value.value;
              |keys| == |taken| + count && keys[..|taken|] == taken
    decreases count
  {
    hide GetDigest;
    if count > 0 && GetDigest(b).Ok? {
      var t := GetDigest(b).value;
      KeysGrow(count - 1, taken + [t.value], t.rest);
      if GetKeys(count, taken, b).Ok? {
        var keys := GetKeys(count, taken, b).value.value;
        assert keys[..|taken|] == keys[..|taken| + 1][..|taken|] == taken;
      }
    }
  }

  lemma {:induction false} OptionalMeans(b: bytes, what: What, v: Option<bytes>, rest: bytes)
    ensures GetOptBlob(b, what) == Ok(Got(v, rest)) <==> (v.Some? ==> Short(v.value)) && b == Optional(v) + rest
  {
    hide GetByte, GetBlob, Counted;
    if GetOptBlob(b, what) == Ok(Got(v, rest)) {
      var mark := GetByte(b).value;
      ByteMeans(b, mark.value, mark.rest);
      if v.Some? {
        BlobMeans(mark.rest, v.value, rest);
        Regroup([1], Counted(v.value), rest);
      }
    }
    if (v.Some? ==> Short(v.value)) && b == Optional(v) + rest {
      match v
      case None => ByteMeans(b, 0, rest);
      case Some(blob) =>
        Regroup([1], Counted(blob), rest);
        ByteMeans(b, 1, Counted(blob) + rest);
        BlobMeans(Counted(blob) + rest, blob, rest);
    }
  }

  function Roster(c: Option<Coauthors>): bytes {
    match c case None => [0] case Some(r) => [1, r.threshold, |r.keys| % 0x100] + Joined(r.keys)
  }

  lemma {:induction false} RosterMeans(b: bytes, c: Option<Coauthors>, rest: bytes)
    ensures GetRoster(b) == Ok(Got(c, rest)) <==>
            (c.Some? ==> HeaderReadings.Enforceable(c.value.threshold, c.value.keys)) && b == Roster(c) + rest
  {
    hide GetByte, GetKeys, CheckRoster, Joined;
    if c.Some? { HeaderReadings.RosterMeans(c.value); }
    if GetRoster(b) == Ok(Got(c, rest)) {
      var mark := GetByte(b).value;
      ByteMeans(b, mark.value, mark.rest);
      if c.Some? {
        var threshold := GetByte(mark.rest).value;
        var count := GetByte(threshold.rest).value;
        ByteMeans(mark.rest, threshold.value, threshold.rest);
        ByteMeans(threshold.rest, count.value, count.rest);
        assert [] + c.value.keys == c.value.keys;
        KeysMean(count.value, [], count.rest, c.value.keys, rest);
        Four(1, threshold.value, count.value, Joined(c.value.keys), rest);
      }
    }
    if (c.Some? ==> HeaderReadings.Enforceable(c.value.threshold, c.value.keys)) && b == Roster(c) + rest {
      match c
      case None => ByteMeans(b, 0, rest);
      case Some(r) =>
        var n: byte := |r.keys|;
        var tail := Joined(r.keys) + rest;
        Four(1, r.threshold, n, Joined(r.keys), rest);
        ByteMeans(b, 1, [r.threshold] + ([n] + tail));
        ByteMeans([r.threshold] + ([n] + tail), r.threshold, [n] + tail);
        ByteMeans([n] + tail, n, tail);
        assert [] + r.keys == r.keys;
        KeysMean(n, [], tail, r.keys, rest);
    }
  }

  lemma {:induction false} Four(a: byte, b: byte, c: byte, d: bytes, e: bytes)
    ensures [a, b, c] + d + e == [a] + ([b] + ([c] + (d + e)))
  {
  }

  function To(r: Recipient): bytes {
    match r
    case Nobody => [0]
    case Identity(key) => [1] + key
    case Claim(secret) => [2] + secret
    case Hybrid(key) => [3] + key
    case HardwareHybrid(key) => [4] + key
  }

  lemma {:induction false} RecipientMeans(b: bytes, r: Recipient, rest: bytes)
    ensures GetRecipient(b) == Ok(Got(r, rest)) <==> b == To(r) + rest
  {
    hide GetByte, GetDigest, Take;
    if GetRecipient(b) == Ok(Got(r, rest)) {
      var kind := GetByte(b).value;
      ByteMeans(b, kind.value, kind.rest);
      match r
      case Nobody =>
      case Identity(key) => DigestMeans(kind.rest, key, rest); Regroup([1], key, rest);
      case Claim(secret) => DigestMeans(kind.rest, secret, rest); Regroup([2], secret, rest);
      case Hybrid(key) => TakeMeans(kind.rest, 1216, key, rest); Regroup([3], key, rest);
      case HardwareHybrid(key) => TakeMeans(kind.rest, 1249, key, rest); Regroup([4], key, rest);
    }
    if b == To(r) + rest { RecipientTaken(b, r, rest); }
  }

  lemma {:induction false} RecipientTaken(b: bytes, r: Recipient, rest: bytes)
    requires b == To(r) + rest
    ensures GetRecipient(b) == Ok(Got(r, rest))
  {
    hide GetByte, GetDigest, Take;
    match r
    case Nobody => ByteMeans(b, 0, rest);
    case Identity(key) => Tagged(b, 1, key, rest); DigestMeans(key + rest, key, rest);
    case Claim(secret) => Tagged(b, 2, secret, rest); DigestMeans(secret + rest, secret, rest);
    case Hybrid(key) => Tagged(b, 3, key, rest); TakeMeans(key + rest, 1216, key, rest);
    case HardwareHybrid(key) => Tagged(b, 4, key, rest); TakeMeans(key + rest, 1249, key, rest);
  }

  lemma {:induction false} Tagged(b: bytes, tag: byte, v: bytes, rest: bytes)
    requires b == [tag] + v + rest
    ensures GetByte(b) == Ok(Got(tag, v + rest))
  {
    Regroup([tag], v, rest);
    ByteMeans(b, tag, v + rest);
  }

  // ---- Requests ------------------------------------------------------------------------------------

  /** Name, policy, chunk size, organisation, addresses; the policy in any bytes that read as it. */
  ghost predicate HeadMeans(h: Head, policy: bytes) {
    && Short(h.originalName) && Short(policy) && Short(h.orgId) && |h.authorityUrls| <= 0x10_0000
    && (forall i :: 0 <= i < |h.authorityUrls| ==> Short(h.authorityUrls[i]))
    && Policies.DecodePolicy(5, policy) == Ok(h.policy)
  }

  function HeadOf(h: Head, policy: bytes): bytes {
    Counted(h.originalName) + Counted(policy) + Little(h.chunkSize, 4) + Counted(h.orgId) + Little(|h.authorityUrls|, 4)
    + AllCounted(h.authorityUrls)
  }

  lemma {:induction false} Six(a: bytes, b: bytes, c: bytes, d: bytes, e: bytes, f: bytes, rest: bytes)
    ensures a + b + c + d + e + f + rest == a + (b + (c + (d + (e + (f + rest)))))
  {
    var all := a + b + c + d + e + f + rest;
    assert |all| == |a| + |b| + |c| + |d| + |e| + |f| + |rest|;
  }

  lemma {:induction false} HeadTaken(h: Head, policy: bytes, rest: bytes)
    requires HeadMeans(h, policy)
    ensures GetHead(HeadOf(h, policy) + rest) == Ok(Got(h, rest))
  {
    hide GetText, GetU32, GetBlob, GetTexts, Counted, AllCounted, Little, Policies.DecodePolicy;
    var n := |h.authorityUrls|;
    Six(Counted(h.originalName), Counted(policy), Little(h.chunkSize, 4), Counted(h.orgId), Little(n, 4), AllCounted(h.authorityUrls), rest);
    var p5 := AllCounted(h.authorityUrls) + rest;
    var p4 := Little(n, 4) + p5;
    var p3 := Counted(h.orgId) + p4;
    var p2 := Little(h.chunkSize, 4) + p3;
    var p1 := Counted(policy) + p2;
    TextMeans(HeadOf(h, policy) + rest, h.originalName, p1);
    BlobMeans(p1, policy, p2);
    NumberMeans(p2, h.chunkSize, p3);
    BlobMeans(p3, h.orgId, p4);
    NumberMeans(p4, n, p5);
    assert [] + h.authorityUrls == h.authorityUrls;
    TextsMean(n, [], p5, h.authorityUrls, rest);
  }

  lemma {:induction false} HeadGiven(b: bytes) returns (policy: bytes)
    requires GetHead(b).Ok?
    ensures var g := GetHead(b).value; HeadMeans(g.value, policy) && b == HeadOf(g.value, policy) + g.rest
  {
    hide GetText, GetU32, GetBlob, GetTexts, Counted, AllCounted, Little, Policies.DecodePolicy;
    var h, rest := GetHead(b).value.value, GetHead(b).value.rest;
    var name := GetText(b).value;
    TextMeans(b, name.value, name.rest);
    var p := GetBlob(name.rest).value;
    policy := p.value;
    BlobMeans(name.rest, policy, p.rest);
    var size := GetU32(p.rest).value;
    NumberMeans(p.rest, size.value, size.rest);
    var org := GetBlob(size.rest).value;
    BlobMeans(size.rest, org.value, org.rest);
    var n := GetU32(org.rest).value;
    NumberMeans(org.rest, n.value, n.rest);
    assert [] + h.authorityUrls == h.authorityUrls;
    TextsMean(n.value, [], n.rest, h.authorityUrls, rest);
    Six(Counted(h.originalName), Counted(policy), Little(h.chunkSize, 4), Counted(h.orgId), Little(n.value, 4), AllCounted(h.authorityUrls), rest);
  }

  function KeysOf(k: Wire.Keys): bytes {
    k.author + k.authoritySealing + k.authorityLeaseVerify + k.device
  }

  lemma {:induction false} PublicMeans(b: bytes, k: Wire.Keys, rest: bytes)
    ensures GetPublic(b) == Ok(Got(k, rest)) <==> b == KeysOf(k) + rest
  {
    hide GetDigest;
    var p3 := k.device + rest;
    var p2 := k.authorityLeaseVerify + p3;
    var p1 := k.authoritySealing + p2;
    Nest(k.author, k.authoritySealing, k.authorityLeaseVerify, k.device, rest);
    DigestMeans(b, k.author, p1);
    DigestMeans(p1, k.authoritySealing, p2);
    DigestMeans(p2, k.authorityLeaseVerify, p3);
    DigestMeans(p3, k.device, rest);
    if GetPublic(b) == Ok(Got(k, rest)) {
      var a := GetDigest(b).value;
      var s := GetDigest(a.rest).value;
      var l := GetDigest(s.rest).value;
      DigestMeans(b, k.author, a.rest);
      DigestMeans(a.rest, k.authoritySealing, s.rest);
      DigestMeans(s.rest, k.authorityLeaseVerify, l.rest);
      DigestMeans(l.rest, k.device, rest);
    }
  }

  function ExtraOf(e: Extra): bytes {
    Optional(e.deviceHybrid) + Optional(e.deviceHardwareHybrid) + Optional(e.deviceTpm) + Roster(e.coauthors)
  }

  predicate ShortOptional(v: Option<bytes>) {
    v.Some? ==> Short(v.value)
  }

  /** The keys of a device are short and the roster can be enforced. */
  ghost predicate ExtraMeans(e: Extra) {
    && ShortOptional(e.deviceHybrid) && ShortOptional(e.deviceHardwareHybrid) && ShortOptional(e.deviceTpm)
    && (e.coauthors.Some? ==> HeaderReadings.Enforceable(e.coauthors.value.threshold, e.coauthors.value.keys))
  }

  lemma {:induction false} ExtraIs(b: bytes, e: Extra, rest: bytes)
    ensures GetExtra(b) == Ok(Got(e, rest)) <==> ExtraMeans(e) && b == ExtraOf(e) + rest
  {
    hide GetOptBlob, GetRoster, Optional, Roster, HeaderReadings.Enforceable, Short;
    var p3 := Roster(e.coauthors) + rest;
    var p2 := Optional(e.deviceTpm) + p3;
    var p1 := Optional(e.deviceHardwareHybrid) + p2;
    Nest(Optional(e.deviceHybrid), Optional(e.deviceHardwareHybrid), Optional(e.deviceTpm), Roster(e.coauthors), rest);
    OptionalMeans(b, BadHybridKey, e.deviceHybrid, p1);
    OptionalMeans(p1, BadHardwareHybridKey, e.deviceHardwareHybrid, p2);
    OptionalMeans(p2, BadTpmKey, e.deviceTpm, p3);
    RosterMeans(p3, e.coauthors, rest);
    if GetExtra(b) == Ok(Got(e, rest)) {
      var a := GetOptBlob(b, BadHybridKey).value;
      var s := GetOptBlob(a.rest, BadHardwareHybridKey).value;
      var l := GetOptBlob(s.rest, BadTpmKey).value;
      OptionalMeans(b, BadHybridKey, e.deviceHybrid, a.rest);
      OptionalMeans(a.rest, BadHardwareHybridKey, e.deviceHardwareHybrid, s.rest);
      OptionalMeans(s.rest, BadTpmKey, e.deviceTpm, l.rest);
      RosterMeans(l.rest, e.coauthors, rest);
    }
  }

  function PlanOf(a: PlanArgs, policy: bytes): bytes {
    HeadOf(a.head, policy) + To(a.recipient) + KeysOf(a.keys) + ExtraOf(a.extra)
  }

  lemma {:induction false} PlanTaken(a: PlanArgs, policy: bytes, rest: bytes)
    requires HeadMeans(a.head, policy) && ExtraMeans(a.extra)
    ensures GetPlan(PlanOf(a, policy) + rest) == Ok(Got(a, rest))
  {
    hide GetHead, GetRecipient, GetPublic, GetExtra, HeadOf, To, KeysOf, ExtraOf, HeadMeans, ExtraMeans;
    Nest(HeadOf(a.head, policy), To(a.recipient), KeysOf(a.keys), ExtraOf(a.extra), rest);
    var p3 := ExtraOf(a.extra) + rest;
    var p2 := KeysOf(a.keys) + p3;
    var p1 := To(a.recipient) + p2;
    HeadTaken(a.head, policy, p1);
    RecipientMeans(p1, a.recipient, p2);
    PublicMeans(p2, a.keys, p3);
    ExtraIs(p3, a.extra, rest);
  }

  lemma {:induction false} PlanGiven(b: bytes) returns (policy: bytes)
    requires GetPlan(b).Ok?
    ensures var g := GetPlan(b).value;
            HeadMeans(g.value.head, policy) && ExtraMeans(g.value.extra) && b == PlanOf(g.value, policy) + g.rest
  {
    hide GetHead, GetRecipient, GetPublic, GetExtra, HeadOf, To, KeysOf, ExtraOf, HeadMeans, ExtraMeans;
    var a, rest := GetPlan(b).value.value, GetPlan(b).value.rest;
    var head := GetHead(b).value;
    policy := HeadGiven(b);
    var to := GetRecipient(head.rest).value;
    RecipientMeans(head.rest, a.recipient, to.rest);
    var keys := GetPublic(to.rest).value;
    PublicMeans(to.rest, a.keys, keys.rest);
    ExtraIs(keys.rest, a.extra, rest);
    Nest(HeadOf(a.head, policy), To(a.recipient), KeysOf(a.keys), ExtraOf(a.extra), rest);
  }

  function SealedOf(s: SealedInfo): bytes {
    Little(s.totalLen, 8) + Little(s.chunkCount, 4) + s.treeRoot
  }

  lemma {:induction false} SealedMeans(b: bytes, s: SealedInfo, rest: bytes)
    ensures GetSealed(b) == Ok(Got(s, rest)) <==> b == SealedOf(s) + rest
  {
    hide GetU64, GetU32, GetDigest, Little;
    var p2 := s.treeRoot + rest;
    var p1 := Little(s.chunkCount, 4) + p2;
    Regroup(Little(s.totalLen, 8) + Little(s.chunkCount, 4), s.treeRoot, rest);
    Regroup(Little(s.totalLen, 8), Little(s.chunkCount, 4), p2);
    LongMeans(b, s.totalLen, p1);
    NumberMeans(p1, s.chunkCount, p2);
    DigestMeans(p2, s.treeRoot, rest);
    if GetSealed(b) == Ok(Got(s, rest)) {
      var total := GetU64(b).value;
      var count := GetU32(total.rest).value;
      LongMeans(b, s.totalLen, total.rest);
      NumberMeans(total.rest, s.chunkCount, count.rest);
      DigestMeans(count.rest, s.treeRoot, rest);
    }
  }

  /** The bytes of a request; those of a planning request carry its policy in any form that reads as it. */
  ghost predicate RequestMeans(b: bytes, r: Request) {
    match r
    case AssembleRequest(s) => b == [2] + SealedOf(s)
    case PlanRequest(a) => ExtraMeans(a.extra) && exists policy: bytes :: HeadMeans(a.head, policy) && b == [1] + PlanOf(a, policy)
  }

  lemma {:induction false} RequestTaken(b: bytes, r: Request)
    requires RequestMeans(b, r)
    ensures DecodeRequest(b) == Ok(r)
  {
    hide GetByte, GetPlan, GetSealed, PlanOf, SealedOf, HeadMeans, ExtraMeans;
    match r
    case AssembleRequest(s) =>
      ByteMeans(b, 2, SealedOf(s));
      assert SealedOf(s) + [] == SealedOf(s);
      SealedMeans(SealedOf(s), s, []);
    case PlanRequest(a) =>
      var policy: bytes :| HeadMeans(a.head, policy) && b == [1] + PlanOf(a, policy);
      ByteMeans(b, 1, PlanOf(a, policy));
      assert PlanOf(a, policy) + [] == PlanOf(a, policy);
      PlanTaken(a, policy, []);
  }

  /** A request is accepted exactly when its bytes are the ones it is spelled with. */
  lemma {:induction false} RequestRead(b: bytes, r: Request)
    ensures DecodeRequest(b) == Ok(r) <==> RequestMeans(b, r)
  {
    hide GetByte, GetPlan, GetSealed, PlanOf, SealedOf, HeadMeans, ExtraMeans;
    if DecodeRequest(b) == Ok(r) {
      var kind := GetByte(b).value;
      ByteMeans(b, kind.value, kind.rest);
      match r {
        case AssembleRequest(s) =>
          SealedMeans(kind.rest, s, []);
          assert SealedOf(s) + [] == SealedOf(s);
        case PlanRequest(a) =>
          var policy := PlanGiven(kind.rest);
          assert PlanOf(a, policy) + [] == PlanOf(a, policy);
      }
    }
    if RequestMeans(b, r) { RequestTaken(b, r); }
  }

  // ---- Responses -------------------------------------------------------------------------------------

  function CipherNumber(alg: AeadAlg): byte {
    match alg case XChaCha20Poly1305 => 1 case Aes256Gcm => 2 case Aes256GcmSiv => 3
  }

  predicate ResponseMeans(b: bytes, r: Response) {
    match r
    case Planned(file, key, size, alg) => b == [3] + file + key + Little(size, 4) + [CipherNumber(alg)]
    case Done(header, desc) => Short(header) && Short(desc) && b == [4] + Counted(header) + Counted(desc)
    case Failed(message) => Short(message) && b == [5] + Counted(message)
  }

  lemma {:induction false} CipherMeans(id: byte, alg: AeadAlg)
    ensures AeadOf(id) == Ok(alg) <==> id == CipherNumber(alg)
  {
  }

  lemma {:induction false} PlannedMeans(b: bytes, r: Response, rest: bytes)
    requires r.Planned?
    ensures GetPlanned(b) == Ok(Got(r, rest)) <==> b == r.fileId + (r.payloadKey + (Little(r.chunkSize, 4) + ([CipherNumber(r.aead)] + rest)))
  {
    hide GetDigest, GetU32, GetByte, Take, Little, AeadOf, CipherNumber;
    var p3 := [CipherNumber(r.aead)] + rest;
    var p2 := Little(r.chunkSize, 4) + p3;
    var p1 := r.payloadKey + p2;
    TakeMeans(b, 16, r.fileId, p1);
    DigestMeans(p1, r.payloadKey, p2);
    NumberMeans(p2, r.chunkSize, p3);
    ByteMeans(p3, CipherNumber(r.aead), rest);
    CipherMeans(CipherNumber(r.aead), r.aead);
    if GetPlanned(b) == Ok(Got(r, rest)) {
      var file := Take(b, 16).value;
      var key := GetDigest(file.rest).value;
      var size := GetU32(key.rest).value;
      var id := GetByte(size.rest).value;
      TakeMeans(b, 16, r.fileId, file.rest);
      DigestMeans(file.rest, r.payloadKey, key.rest);
      NumberMeans(key.rest, r.chunkSize, size.rest);
      ByteMeans(size.rest, id.value, rest);
      CipherMeans(id.value, r.aead);
    }
  }

  lemma {:induction false} PlannedOnly(b: bytes)
    ensures GetPlanned(b).Ok? ==> GetPlanned(b).value.value.Planned?
  {
    hide GetDigest, GetU32, GetByte, Take, AeadOf;
  }

  lemma {:induction false} Ends(a: bytes, b: bytes, c: bytes, d: bytes, e: bytes)
    ensures a + b + c + d + e == a + (b + (c + (d + (e + []))))
    ensures a + b + c == a + (b + (c + []))
    ensures a + b == a + (b + [])
  {
    assert a + b + c + d + e == a + (b + (c + (d + e)));
    assert e + [] == e && c + [] == c && b + [] == b;
  }

  lemma {:induction false} ResponseTaken(b: bytes, r: Response)
    requires ResponseMeans(b, r)
    ensures DecodeResponse(b) == Ok(r)
  {
    hide GetByte, GetPlanned, GetBlob, GetText, Counted, Little, CipherNumber;
    match r
    case Planned(file, key, size, alg) =>
      var rest := file + (key + (Little(size, 4) + ([CipherNumber(alg)] + [])));
      Ends([3], file, key, Little(size, 4), [CipherNumber(alg)]);
      ByteMeans(b, 3, rest);
      PlannedMeans(rest, r, []);
    case Done(header, desc) =>
      Ends([4], Counted(header), Counted(desc), [], []);
      ByteMeans(b, 4, Counted(header) + (Counted(desc) + []));
      BlobMeans(Counted(header) + (Counted(desc) + []), header, Counted(desc) + []);
      BlobMeans(Counted(desc) + [], desc, []);
    case Failed(message) =>
      Ends([5], Counted(message), [], [], []);
      ByteMeans(b, 5, Counted(message) + []);
      TextMeans(Counted(message) + [], message, []);
  }

  /** The same of responses. */
  lemma {:induction false} ResponseRead(b: bytes, r: Response)
    ensures DecodeResponse(b) == Ok(r) <==> ResponseMeans(b, r)
  {
    hide GetByte, GetPlanned, GetBlob, GetText, Counted, Little, CipherNumber;
    if DecodeResponse(b) == Ok(r) {
      var kind := GetByte(b).value;
      ByteMeans(b, kind.value, kind.rest);
      PlannedOnly(kind.rest);
      match r {
        case Planned(file, key, size, alg) =>
          PlannedMeans(kind.rest, r, []);
          Ends([3], file, key, Little(size, 4), [CipherNumber(alg)]);
        case Done(header, desc) =>
          var h := GetBlob(kind.rest).value;
          BlobMeans(kind.rest, header, h.rest);
          BlobMeans(h.rest, desc, []);
          Ends([4], Counted(header), Counted(desc), [], []);
        case Failed(message) =>
          TextMeans(kind.rest, message, []);
          Ends([5], Counted(message), [], [], []);
      }
    }
    if ResponseMeans(b, r) { ResponseTaken(b, r); }
  }

  // ---- What is written ---------------------------------------------------------------------------------

  lemma {:induction false} BlobIs(v: bytes)
    ensures |Counted(v)| == |Blob(v)| == 4 + |v|
    ensures |v| <= U32_MAX ==> Blob(v) == Counted(v)
  {
    hide Little, Le32;
    HalfIs(|v| % 0x1_0000_0000);
    LittleLength(|v|, 4);
  }

  lemma {:induction false} LittleLength(v: nat, n: nat)
    ensures |Little(v, n)| == n
  {
    if n > 0 { LittleLength(v / 0x100, n - 1); }
  }

  lemma {:induction false} TextsAre(urls: seq<text>)
    ensures 4 * |urls| <= |AllCounted(urls)| == |Texts(urls)|
    ensures |Texts(urls)| <= U32_MAX ==> Texts(urls) == AllCounted(urls)
  {
    hide Blob, Counted;
    if urls != [] {
      BlobIs(urls[0]);
      TextsAre(urls[1..]);
    }
  }

  lemma {:induction false} OptionalIs(v: Option<bytes>)
    ensures |Optional(v)| == |OptBlob(v)|
    ensures |OptBlob(v)| <= U32_MAX ==> OptBlob(v) == Optional(v)
  {
    hide Blob, Counted;
    if v.Some? { BlobIs(v.value); }
  }

  lemma {:induction false} JoinedIs(keys: seq<digest>)
    ensures Flat(keys) == Joined(keys)
  {
    if keys != [] { JoinedIs(keys[1..]); }
  }

  lemma {:induction false} RosterIs(c: Option<Coauthors>)
    ensures RosterBytes(c) == Roster(c)
  {
    hide Flat, Joined;
    if c.Some? {
      JoinedIs(c.value.keys);
      var n: byte := |c.value.keys| % 0x100;
      Four(1, c.value.threshold, n, Joined(c.value.keys), []);
      assert [1, c.value.threshold, n] + Joined(c.value.keys) + [] == Roster(c);
      assert Joined(c.value.keys) + [] == Joined(c.value.keys);
    }
  }

  lemma {:induction false} HeadIs(h: Head)
    ensures var policy := Policies.EncodePolicy(5, h.policy);
            && |HeadBytes(h)| == |HeadOf(h, policy)| >= 4 * |h.authorityUrls|
            && (|HeadBytes(h)| <= U32_MAX ==> HeadBytes(h) == HeadOf(h, policy))
  {
    hide Blob, Counted, Texts, AllCounted, Le32, Little, Policies.EncodePolicy;
    var policy := Policies.EncodePolicy(5, h.policy);
    BlobIs(h.originalName);
    BlobIs(policy);
    BlobIs(h.orgId);
    TextsAre(h.authorityUrls);
    HalfIs(h.chunkSize);
    HalfIs(|h.authorityUrls| % 0x1_0000_0000);
    LittleLength(|h.authorityUrls|, 4);
    var urls := AllCounted(h.authorityUrls);
    Six(Counted(h.originalName), Counted(policy), Little(h.chunkSize, 4), Counted(h.orgId), Little(|h.authorityUrls|, 4), urls, []);
    assert urls + [] == urls;
    assert HeadOf(h, policy) + [] == HeadOf(h, policy);
  }

  lemma {:induction false} ExtrasAre(e: Extra)
    ensures |ExtraBytes(e)| == |ExtraOf(e)|
    ensures |ExtraBytes(e)| <= U32_MAX ==> ExtraBytes(e) == ExtraOf(e)
  {
    hide OptBlob, Optional, RosterBytes, Roster;
    OptionalIs(e.deviceHybrid);
    OptionalIs(e.deviceHardwareHybrid);
    OptionalIs(e.deviceTpm);
    RosterIs(e.coauthors);
    Nest(Optional(e.deviceHybrid), Optional(e.deviceHardwareHybrid), Optional(e.deviceTpm), Roster(e.coauthors), []);
    assert ExtraOf(e) + [] == ExtraOf(e) && Roster(e.coauthors) + [] == Roster(e.coauthors);
  }

  lemma {:induction false} ToIs(r: Recipient, k: Wire.Keys)
    ensures RecipientBytes(r) == To(r) && KeyBytes(k) == KeysOf(k)
  {
    Nest(k.author, k.authoritySealing, k.authorityLeaseVerify, k.device, []);
    assert k.device + [] == k.device && KeysOf(k) + [] == KeysOf(k);
  }

  lemma {:induction false} PlanIs(a: PlanArgs)
    ensures var plan := PlanOf(a, Policies.EncodePolicy(5, a.head.policy));
            && |PlanBytes(a)| == |plan| >= 4 * |a.head.authorityUrls|
            && (|PlanBytes(a)| <= U32_MAX ==> PlanBytes(a) == plan)
  {
    hide HeadBytes, HeadOf, RecipientBytes, To, KeyBytes, KeysOf, ExtraBytes, ExtraOf, Policies.EncodePolicy;
    var policy := Policies.EncodePolicy(5, a.head.policy);
    HeadIs(a.head);
    ToIs(a.recipient, a.keys);
    ExtrasAre(a.extra);
    Nest(HeadOf(a.head, policy), To(a.recipient), KeysOf(a.keys), ExtraOf(a.extra), []);
    assert ExtraOf(a.extra) + [] == ExtraOf(a.extra) && PlanOf(a, policy) + [] == PlanOf(a, policy);
  }

  /** What is sent: a request whose roster can be enforced, in at most 1 MiB. */
  lemma {:induction false} RequestWritten(r: Request)
    ensures match r
            case AssembleRequest(s) => EncodeRequest(r) == Ok([2] + SealedOf(s))
            case PlanRequest(a) =>
              var m := [1] + PlanOf(a, Policies.EncodePolicy(5, a.head.policy));
              && (EncodeRequest(r).Ok? <==>
                  && |m| <= 0x10_0000
                  && (a.extra.coauthors.Some? ==>
                        HeaderReadings.Enforceable(a.extra.coauthors.value.threshold, a.extra.coauthors.value.keys)))
              && (EncodeRequest(r).Ok? ==> EncodeRequest(r).value == m)
  {
    hide PlanBytes, PlanOf, CheckRoster, HeaderReadings.Enforceable, Little, Le32, Le64, Policies.EncodePolicy;
    match r
    case AssembleRequest(s) =>
      WordsAre(s.chunkCount, s.totalLen);
      Regroup(Little(s.totalLen, 8), Little(s.chunkCount, 4), s.treeRoot);
    case PlanRequest(a) =>
      PlanIs(a);
      if a.extra.coauthors.Some? { HeaderReadings.RosterMeans(a.extra.coauthors.value); }
  }

  lemma {:induction false} ResponseWritten(r: Response)
    ensures match r
            case Planned(file, key, size, alg) => EncodeResponse(r) == Ok([3] + file + key + Little(size, 4) + [CipherNumber(alg)])
            case Done(header, desc) =>
              EncodeResponse(r) == if 9 + |header| + |desc| <= 0x10_0000 then Ok([4] + Counted(header) + Counted(desc)) else Err(TooLarge)
            case Failed(message) =>
              EncodeResponse(r) == if 5 + |message| <= 0x10_0000 then Ok([5] + Counted(message)) else Err(TooLarge)
  {
    hide Blob, Counted, Little, Le32;
    match r
    case Planned(file, key, size, alg) =>
      HalfIs(size);
      var number := [CipherNumber(alg)];
      Ends([3], file, key, Little(size, 4), number);
      assert number + [] == number;
    case Done(header, desc) =>
      BlobIs(header);
      BlobIs(desc);
      Regroup([4], Counted(header), Counted(desc));
    case Failed(message) =>
      BlobIs(message);
  }
}
