/** Parsing of engine messages: what was encoded comes back, and no accepted message extends another. */
module WireReading {
  import opened Bytes
  import opened Text
  import opened Engine
  import opened HeaderParts
  import opened Wire
  import Policies

  /** A value taken from the front of a byte string, and what follows it. */
  datatype Got<+T> = Got(value: T, rest: bytes)

  // ---- Taking values ---------------------------------------------------------------------------

  function Take(b: bytes, n: nat): Result<Got<bytes>, WireError> {
    if n <= |b| then Ok(Got(b[..n], b[n..])) else Err(Truncated)
  }

  function GetByte(b: bytes): Result<Got<byte>, WireError> {
    var t :- Take(b, 1);
    Ok(Got(t.value[0], t.rest))
  }

  function GetDigest(b: bytes): Result<Got<digest>, WireError> {
    var t :- Take(b, 32);
    Ok(Got(t.value, t.rest))
  }

  function GetU32(b: bytes): Result<Got<u32>, WireError> {
    var t :- Take(b, 4);
    Ok(Got(FromLe32(t.value), t.rest))
  }

  function GetU64(b: bytes): Result<Got<u64>, WireError> {
    var t :- Take(b, 8);
    Ok(Got(FromLe64(t.value), t.rest))
  }

  function GetBlob(b: bytes): Result<Got<bytes>, WireError> {
    var len :- GetU32(b);
    if len.value > MAX_MESSAGE then Err(TooLarge) else Take(len.rest, len.value)
  }

  function GetText(b: bytes): Result<Got<text>, WireError> {
    var v :- GetBlob(b);
    if Utf8(v.value) then Ok(Got(v.value, v.rest)) else Err(BadValue(NotText))
  }

  /** So many texts, appended to those already taken. */
  function GetTexts(count: nat, taken: seq<text>, b: bytes): Result<Got<seq<text>>, WireError> {
    if count == 0 then Ok(Got(taken, b))
    else
      var t :- GetText(b);
      GetTexts(count - 1, taken + [t.value], t.rest)
  }

  function GetKeys(count: nat, taken: seq<digest>, b: bytes): Result<Got<seq<digest>>, WireError> {
    if count == 0 then Ok(Got(taken, b))
    else
      var t :- GetDigest(b);
      GetKeys(count - 1, taken + [t.value], t.rest)
  }

  function GetPolicy(b: bytes): Result<Got<Policies.Policy>, WireError> {
    var v :- GetBlob(b);
    match Policies.DecodePolicy(THIS_VERSION, v.value)
    case Ok(policy) => Ok(Got(policy, v.rest))
    case Err(_) => Err(BadValue(BadPolicy))
  }

  function GetOptBlob(b: bytes, what: What): Result<Got<Option<bytes>>, WireError> {
    var mark :- GetByte(b);
    if mark.value == 0 then Ok(Got(None, mark.rest))
    else if mark.value == 1 then
      var v :- GetBlob(mark.rest);
      Ok(Got(Some(v.value), v.rest))
    else Err(BadValue(what))
  }

  function GetRoster(b: bytes): Result<Got<Option<Coauthors>>, WireError> {
    var mark :- GetByte(b);
    if mark.value == 0 then Ok(Got(None, mark.rest))
    else if mark.value == 1 then
      var threshold :- GetByte(mark.rest);
      var count :- GetByte(threshold.rest);
      if count.value > MAX_COAUTHORS then Err(BadValue(BadRoster))
      else
        var keys :- GetKeys(count.value, [], count.rest);
        var roster := Coauthors(threshold.value, keys.value);
        if CheckRoster(roster).Some? then Err(BadValue(BadRoster)) else Ok(Got(Some(roster), keys.rest))
    else Err(BadValue(BadRoster))
  }

  function GetRecipient(b: bytes): Result<Got<Recipient>, WireError> {
    var kind :- GetByte(b);
    if kind.value == RECIPIENT_NONE then Ok(Got(Nobody, kind.rest))
    else if kind.value == RECIPIENT_IDENTITY then
      var key :- GetDigest(kind.rest);
      Ok(Got(Identity(key.value), key.rest))
    else if kind.value == RECIPIENT_HYBRID then
      var key :- Take(kind.rest, 1216);
      Ok(Got(Hybrid(key.value), key.rest))
    else if kind.value == RECIPIENT_HARDWARE_HYBRID then
      var key :- Take(kind.rest, 1249);
      Ok(Got(HardwareHybrid(key.value), key.rest))
    else if kind.value == RECIPIENT_CLAIM then
      var key :- GetDigest(kind.rest);
      Ok(Got(Claim(key.value), key.rest))
    else Err(BadValue(BadRecipient))
  }

  function GetHead(b: bytes): Result<Got<Head>, WireError> {
    var name :- GetText(b);
    var policy :- GetPolicy(name.rest);
    var chunkSize :- GetU32(policy.rest);
    var orgId :- GetBlob(chunkSize.rest);
    var count :- GetU32(orgId.rest);
    if count.value > MAX_MESSAGE then Err(TooLarge)
    else
      var urls :- GetTexts(count.value, [], count.rest);
      Ok(Got(Head(name.value, policy.value, chunkSize.value, orgId.value, urls.value), urls.rest))
  }

  function GetPublic(b: bytes): Result<Got<Wire.Keys>, WireError> {
    var author :- GetDigest(b);
    var sealing :- GetDigest(author.rest);
    var lease :- GetDigest(sealing.rest);
    var device :- GetDigest(lease.rest);
    Ok(Got(Keys(author.value, sealing.value, lease.value, device.value), device.rest))
  }

  function GetExtra(b: bytes): Result<Got<Extra>, WireError> {
    var hybrid :- GetOptBlob(b, BadHybridKey);
    var hardware :- GetOptBlob(hybrid.rest, BadHardwareHybridKey);
    var tpm :- GetOptBlob(hardware.rest, BadTpmKey);
    var coauthors :- GetRoster(tpm.rest);
    Ok(Got(Extra(hybrid.value, hardware.value, tpm.value, coauthors.value), coauthors.rest))
  }

  function GetPlan(b: bytes): Result<Got<PlanArgs>, WireError> {
    var head :- GetHead(b);
    var recipient :- GetRecipient(head.rest);
    var keys :- GetPublic(recipient.rest);
    var extra :- GetExtra(keys.rest);
    Ok(Got(PlanArgs(head.value, recipient.value, keys.value, extra.value), extra.rest))
  }

  function GetSealed(b: bytes): Result<Got<SealedInfo>, WireError> {
    var total :- GetU64(b);
    var count :- GetU32(total.rest);
    var root :- GetDigest(count.rest);
    Ok(Got(SealedInfo(total.value, count.value, root.value), root.rest))
  }

  function GetRequest(b: bytes): Result<Got<Request>, WireError> {
    var kind :- GetByte(b);
    if kind.value == KIND_PLAN then
      var args :- GetPlan(kind.rest);
      Ok(Got(PlanRequest(args.value), args.rest))
    else if kind.value == KIND_ASSEMBLE then
      var sealed :- GetSealed(kind.rest);
      Ok(Got(AssembleRequest(sealed.value), sealed.rest))
    else Err(UnknownKind(kind.value))
  }

  function AeadOf(id: byte): Result<AeadAlg, WireError> {
    if id == 1 then Ok(XChaCha20Poly1305) else if id == 2 then Ok(Aes256Gcm) else if id == 3 then Ok(Aes256GcmSiv)
    else Err(BadValue(BadAead))
  }

  function GetPlanned(b: bytes): Result<Got<Response>, WireError> {
    var file :- Take(b, 16);
    var key :- GetDigest(file.rest);
    var chunkSize :- GetU32(key.rest);
    var id :- GetByte(chunkSize.rest);
    var aead :- AeadOf(id.value);
    Ok(Got(Planned(file.value, key.value, chunkSize.value, aead), id.rest))
  }

  function GetResponse(b: bytes): Result<Got<Response>, WireError> {
    var kind :- GetByte(b);
    if kind.value == KIND_PLANNED then GetPlanned(kind.rest)
    else if kind.value == KIND_DONE then
      var header :- GetBlob(kind.rest);
      var desc :- GetBlob(header.rest);
      Ok(Got(Done(header.value, desc.value), desc.rest))
    else if kind.value == KIND_FAILED then
      var message :- GetText(kind.rest);
      Ok(Got(Failed(message.value), message.rest))
    else Err(UnknownKind(kind.value))
  }

  /** Nothing may be left over. */
  function Whole<T>(got: Result<Got<T>, WireError>): Result<T, WireError> {
    var g :- got;
    if g.rest == [] then Ok(g.value) else Err(TrailingBytes)
  }

  function DecodeRequest(b: bytes): Result<Request, WireError> {
    Whole(GetRequest(b))
  }

  function DecodeResponse(b: bytes): Result<Response, WireError> {
    Whole(GetResponse(b))
  }

  // ---- The reader --------------------------------------------------------------------------------

  class Reader {
    const input: bytes
    var at: nat

    ghost predicate Valid()
      reads this
    {
      at <= |input|
    }

    ghost function Rest(): bytes
      reads this
      requires Valid()
    {
      input[at..]
    }

    constructor (input: bytes)
      ensures Valid() && at == 0 && this.input == input && Rest() == input
    {
      this.input, at := input, 0;
    }

    method TakeBytes(n: nat) returns (r: Result<bytes, WireError>)
      requires Valid()
      modifies this
      ensures Valid() && Reads(Take(old(Rest()), n), r, Rest())
      ensures r.Err? ==> at == old(at)
    {
      var end := at + n;
      if end > |input| {
        return Err(Truncated);
      }
      r := Ok(input[at..end]);
      assert input[at..][..n] == input[at..end] && input[at..][n..] == input[end..];
      at := end;
    }

    method U8() returns (r: Result<byte, WireError>)
      requires Valid()
      modifies this
      ensures Valid() && Reads(GetByte(old(Rest())), r, Rest())
    {
      var b :- TakeBytes(1);
      return Ok(b[0]);
    }

    method Digest() returns (r: Result<digest, WireError>)
      requires Valid()
      modifies this
      ensures Valid() && Reads(GetDigest(old(Rest())), r, Rest())
    {
      var b :- TakeBytes(32);
      return Ok(b);
    }

    method U32() returns (r: Result<u32, WireError>)
      requires Valid()
      modifies this
      ensures Valid() && Reads(GetU32(old(Rest())), r, Rest())
    {
      var b :- TakeBytes(4);
      return Ok(FromLe32(b));
    }

    method U64() returns (r: Result<u64, WireError>)
      requires Valid()
      modifies this
      ensures Valid() && Reads(GetU64(old(Rest())), r, Rest())
    {
      var b :- TakeBytes(8);
      return Ok(FromLe64(b));
    }

    method ReadBlob() returns (r: Result<bytes, WireError>)
      requires Valid()
      modifies this
      ensures Valid() && Reads(GetBlob(old(Rest())), r, Rest())
    {
      hide FromLe32;
      var len :- U32();
      if len > MAX_MESSAGE {
        return Err(TooLarge);
      }
      r := TakeBytes(len);
    }

    method ReadText() returns (r: Result<text, WireError>)
      requires Valid()
      modifies this
      ensures Valid() && Reads(GetText(old(Rest())), r, Rest())
    {
      hide GetBlob, Utf8;
      var b :- ReadBlob();
      if !Utf8(b) {
        return Err(BadValue(NotText));
      }
      return Ok(b);
    }

    method Finish() returns (r: Result<(), WireError>)
      requires Valid()
      ensures r == if Rest() == [] then Ok(()) else Err(TrailingBytes)
    {
      if at == |input| {
        return Ok(());
      }
      return Err(TrailingBytes);
    }
  }

  /** A method that took what a parser takes: the value off the front, or the same failure. */
  ghost predicate Reads<T>(got: Result<Got<T>, WireError>, r: Result<T, WireError>, rest: bytes) {
    match got case Err(e) => r == Err(e) case Ok(g) => r == Ok(g.value) && rest == g.rest
  }

  method ReadTexts(reader: Reader, count: nat) returns (r: Result<seq<text>, WireError>)
    requires reader.Valid()
    modifies reader
    ensures reader.Valid() && Reads(GetTexts(count, [], old(reader.Rest())), r, reader.Rest())
  {
    hide GetText;
    var urls: seq<text> := [];
    for i := 0 to count
      invariant reader.Valid()
      invariant GetTexts(count, [], old(reader.Rest())) == GetTexts(count - i, urls, reader.Rest())
    {
      var url :- reader.ReadText();
      urls := urls + [url];
    }
    return Ok(urls);
  }

  method ReadKeys(reader: Reader, count: nat) returns (r: Result<seq<digest>, WireError>)
    requires reader.Valid()
    modifies reader
    ensures reader.Valid() && Reads(GetKeys(count, [], old(reader.Rest())), r, reader.Rest())
  {
    hide GetDigest;
    var keys: seq<digest> := [];
    for i := 0 to count
      invariant reader.Valid()
      invariant GetKeys(count, [], old(reader.Rest())) == GetKeys(count - i, keys, reader.Rest())
    {
      var key :- reader.Digest();
      keys := keys + [key];
    }
    return Ok(keys);
  }

  method ReadOptBlob(reader: Reader, what: What) returns (r: Result<Option<bytes>, WireError>)
    requires reader.Valid()
    modifies reader
    ensures reader.Valid() && Reads(GetOptBlob(old(reader.Rest()), what), r, reader.Rest())
  {
    hide GetByte, GetBlob;
    var mark :- reader.U8();
    if mark == 0 {
      return Ok(None);
    }
    if mark != 1 {
      return Err(BadValue(what));
    }
    var b :- reader.ReadBlob();
    return Ok(Some(b));
  }

  method ReadRoster(reader: Reader) returns (r: Result<Option<Coauthors>, WireError>)
    requires reader.Valid()
    modifies reader
    ensures reader.Valid() && Reads(GetRoster(old(reader.Rest())), r, reader.Rest())
  {
    hide GetByte, GetKeys, CheckRoster;
    var mark :- reader.U8();
    if mark == 0 {
      return Ok(None);
    }
    if mark != 1 {
      return Err(BadValue(BadRoster));
    }
    var threshold :- reader.U8();
    var count :- reader.U8();
    if count > MAX_COAUTHORS {
      return Err(BadValue(BadRoster));
    }
    var keys :- ReadKeys(reader, count);
    var bad := ValidateRoster(Coauthors(threshold, keys));
    if bad.Some? {
      return Err(BadValue(BadRoster));
    }
    return Ok(Some(Coauthors(threshold, keys)));
  }

  method ReadRecipient(reader: Reader) returns (r: Result<Recipient, WireError>)
    requires reader.Valid()
    modifies reader
    ensures reader.Valid() && Reads(GetRecipient(old(reader.Rest())), r, reader.Rest())
  {
    hide GetByte, GetDigest;
    var kind :- reader.U8();
    if kind == RECIPIENT_NONE {
      return Ok(Nobody);
    } else if kind == RECIPIENT_IDENTITY {
      var key :- reader.Digest();
      return Ok(Identity(key));
    } else if kind == RECIPIENT_HYBRID {
      var key :- reader.TakeBytes(1216);
      return Ok(Hybrid(key));
    } else if kind == RECIPIENT_HARDWARE_HYBRID {
      var key :- reader.TakeBytes(1249);
      return Ok(HardwareHybrid(key));
    } else if kind == RECIPIENT_CLAIM {
      var secret :- reader.Digest();
      return Ok(Claim(secret));
    }
    return Err(BadValue(BadRecipient));
  }

  method ReadHead(reader: Reader) returns (r: Result<Head, WireError>)
    requires reader.Valid()
    modifies reader
    ensures reader.Valid() && Reads(GetHead(old(reader.Rest())), r, reader.Rest())
  {
    hide GetText, GetBlob, GetU32, GetTexts, Policies.DecodePolicy;
    var name :- reader.ReadText();
    var encoded :- reader.ReadBlob();
    var policy := Policies.ParsePolicy(THIS_VERSION, encoded);
    if policy.Err? {
      return Err(BadValue(BadPolicy));
    }
    var chunkSize :- reader.U32();
    var orgId :- reader.ReadBlob();
    var count :- reader.U32();
    if count > MAX_MESSAGE {
      return Err(TooLarge);
    }
    var urls :- ReadTexts(reader, count);
    return Ok(Head(name, policy.value, chunkSize, orgId, urls));
  }

  method ReadPublic(reader: Reader) returns (r: Result<Wire.Keys, WireError>)
    requires reader.Valid()
    modifies reader
    ensures reader.Valid() && Reads(GetPublic(old(reader.Rest())), r, reader.Rest())
  {
    hide GetDigest;
    var author :- reader.Digest();
    var sealing :- reader.Digest();
    var lease :- reader.Digest();
    var device :- reader.Digest();
    return Ok(Keys(author, sealing, lease, device));
  }

  method ReadExtra(reader: Reader) returns (r: Result<Extra, WireError>)
    requires reader.Valid()
    modifies reader
    ensures reader.Valid() && Reads(GetExtra(old(reader.Rest())), r, reader.Rest())
  {
    hide GetOptBlob, GetRoster;
    var hybrid :- ReadOptBlob(reader, BadHybridKey);
    var hardware :- ReadOptBlob(reader, BadHardwareHybridKey);
    var tpm :- ReadOptBlob(reader, BadTpmKey);
    var coauthors :- ReadRoster(reader);
    return Ok(Extra(hybrid, hardware, tpm, coauthors));
  }

  method ReadPlan(reader: Reader) returns (r: Result<PlanArgs, WireError>)
    requires reader.Valid()
    modifies reader
    ensures reader.Valid() && Reads(GetPlan(old(reader.Rest())), r, reader.Rest())
  {
    hide GetHead, GetRecipient, GetPublic, GetExtra;
    var head :- ReadHead(reader);
    var recipient :- ReadRecipient(reader);
    var keys :- ReadPublic(reader);
    var extra :- ReadExtra(reader);
    return Ok(PlanArgs(head, recipient, keys, extra));
  }

  method ReadRequest(input: bytes) returns (r: Result<Request, WireError>)
    ensures r == DecodeRequest(input)
  {
    hide GetByte, GetPlan, GetU64, GetU32, GetDigest;
    var reader := new Reader(input);
    var kind :- reader.U8();
    if kind == KIND_PLAN {
      var args :- ReadPlan(reader);
      var _ :- reader.Finish();
      return Ok(PlanRequest(args));
    } else if kind == KIND_ASSEMBLE {
      var total :- reader.U64();
      var count :- reader.U32();
      var root :- reader.Digest();
      var _ :- reader.Finish();
      return Ok(AssembleRequest(SealedInfo(total, count, root)));
    }
    return Err(UnknownKind(kind));
  }

  method ReadResponse(input: bytes) returns (r: Result<Response, WireError>)
    ensures r == DecodeResponse(input)
  {
    hide GetByte, GetU32, GetDigest, GetBlob, GetText;
    var reader := new Reader(input);
    var kind :- reader.U8();
    if kind == KIND_PLANNED {
      var file :- reader.TakeBytes(16);
      var key :- reader.Digest();
      var chunkSize :- reader.U32();
      var id :- reader.U8();
      var aead :- AeadOf(id);
      var _ :- reader.Finish();
      return Ok(Planned(file, key, chunkSize, aead));
    } else if kind == KIND_DONE {
      var header :- reader.ReadBlob();
      var desc :- reader.ReadBlob();
      var _ :- reader.Finish();
      return Ok(Done(header, desc));
    } else if kind == KIND_FAILED {
      var message :- reader.ReadText();
      var _ :- reader.Finish();
      return Ok(Failed(message));
    }
    return Err(UnknownKind(kind));
  }
}
