/** The same for the header: its own records, its nested ones and the key slots. */
module HeaderReadings {
  import opened Bytes
  import opened Tlv
  import opened Text
  import opened Writing
  import opened Formats
  import opened Readings
  import opened Slots
  import opened HeaderParts
  import Content
  import Policies
  import Layouts
  import H = Headers
  import HeaderCore

  // ---- Suite -----------------------------------------------------------------------------------------

  ghost predicate SuiteMeans(fields: seq<Field>, s: Suite) {
    && (forall i :: 0 <= i < |fields| ==> KnownOrOptional(fields[i], 1, 3))
    && Has(fields, 1, [1]) && Has(fields, 2, [1]) && Has(fields, 3, [1])
    && s.sig == Content.Ed25519 && s.aead == XChaCha20Poly1305 && s.treeHash == Blake3
  }

  lemma {:induction false} SuiteRead(buf: bytes, s: Suite)
    ensures DecodeSuite(buf) == Ok(s) <==> exists fields: seq<Field> :: Spells(buf, fields) && SuiteMeans(fields, s)
  {
    hide Checked, Lookup, Emit, Increasing;
    if DecodeSuite(buf) == Ok(s) {
      var fields := Checked(buf, SuiteCheck).value;
      CheckedMeans(buf, SuiteCheck, fields);
      LookupChecked(fields, SuiteCheck, 1);
      LookupChecked(fields, SuiteCheck, 2);
      LookupChecked(fields, SuiteCheck, 3);
      assert Lookup(fields, 1).value == [1] && Lookup(fields, 2).value == [1] && Lookup(fields, 3).value == [1];
      forall i | 0 <= i < |fields|
        ensures KnownOrOptional(fields[i], 1, 3)
      {
        assert SuiteCheck(fields[i]) == None;
      }
      assert SuiteMeans(fields, s);
    }
    forall fields: seq<Field> | Spells(buf, fields) && SuiteMeans(fields, s)
      ensures DecodeSuite(buf) == Ok(s)
    {
      forall i | 0 <= i < |fields|
        ensures SuiteCheck(fields[i]) == None
      {
        LookupFound(fields, i);
      }
      CheckedMeans(buf, SuiteCheck, fields);
    }
  }

  // ---- Server coordinates --------------------------------------------------------------------------------

  /** Printable and short. */
  predicate Shown(url: bytes) {
    |url| <= 2048 && forall i :: 0 <= i < |url| ==> 0x21 <= url[i] <= 0x7E
  }

  lemma {:induction false} AddressMeans(url: bytes)
    ensures BadAddress(url) == None <==> forall i :: 0 <= i < |url| ==> 0x21 <= url[i] <= 0x7E
  {
    if url != [] {
      AddressMeans(url[1..]);
      assert forall i :: 0 < i < |url| ==> url[i] == url[1..][i - 1];
    }
  }

  lemma {:induction false} UrlMeans(v: bytes, url: text)
    ensures DecodeUrl(v) == Ok(url) <==> v == url && Shown(v)
    ensures EncodeUrl(url).Ok? <==> Shown(url)
    ensures EncodeUrl(url).Ok? ==> EncodeUrl(url).value == url
  {
    hide BadAddress, Utf8;
    AddressMeans(v);
    AddressMeans(url);
  }

  /** At most sixteen addresses, in the order of their records. */
  ghost predicate UrlsMean(fields: seq<Field>, urls: seq<text>) {
    && |fields| == |urls| <= 16
    && forall i :: 0 <= i < |fields| ==> fields[i].value == urls[i] && Shown(urls[i])
  }

  lemma {:induction false} UrlsRead(buf: bytes, urls: seq<text>)
    ensures DecodeUrls(buf) == Ok(urls) <==> exists fields: seq<Field> :: Spells(buf, fields) && UrlsMean(fields, urls)
  {
    hide Emit, Increasing, DecodeList, DecodeUrl, Utf8, Collect;
    if DecodeUrls(buf) == Ok(urls) {
      var fields := ListIsSpelled(buf, MAX_URLS, URLS, DecodeUrl);
      DecodeListOf(fields, MAX_URLS, URLS, DecodeUrl);
      forall i | 0 <= i < |fields|
        ensures fields[i].value == urls[i] && Shown(urls[i])
      {
        UrlMeans(fields[i].value, urls[i]);
      }
      assert UrlsMean(fields, urls);
    }
    forall fields: seq<Field> | Spells(buf, fields) && UrlsMean(fields, urls)
      ensures DecodeUrls(buf) == Ok(urls)
    {
      forall i | 0 <= i < |fields|
        ensures DecodeUrl(fields[i].value) == Ok(urls[i])
      {
        UrlMeans(fields[i].value, urls[i]);
      }
      DecodeListOf(fields, MAX_URLS, URLS, DecodeUrl);
      assert DecodeUrls(buf).value == urls;
    }
  }

  /** A nested list that is read was spelled by some records. */
  lemma {:induction false} ListIsSpelled<T>(buf: bytes, limit: nat, tag: u16, item: bytes -> Result<T, FormatError>) returns (fields: seq<Field>)
    requires DecodeList(buf, limit, tag, item).Ok?
    ensures Spells(buf, fields)
  {
    hide Emit, Increasing, Collect, ReadAll;
    fields := ReadAll(buf).fields;
    assert ReadAll(buf) == Scan(fields, None);
    ReadIsInverseOfEmit(buf, fields);
  }

  predicate NotZero(key: digest) {
    exists i :: 0 <= i < 32 && key[i] != 0
  }

  ghost predicate AuthorityMeans(fields: seq<Field>, a: Authority) {
    && (forall i :: 0 <= i < |fields| ==> KnownOrOptional(fields[i], 1, 3))
    && (match Lookup(fields, 1) case None => a.urls == [] case Some(v) => DecodeUrls(v) == Ok(a.urls))
    && Has(fields, 2, a.sealingKid) && NotZero(a.sealingKid)
    && Has(fields, 3, a.leaseVerifyKey) && NotZero(a.leaseVerifyKey)
  }

  lemma {:induction false} AuthorityRead(buf: bytes, a: Authority)
    ensures DecodeAuthority(buf) == Ok(a) <==> exists fields: seq<Field> :: Spells(buf, fields) && AuthorityMeans(fields, a)
  {
    hide Checked, Lookup, Emit, Increasing, DecodeUrls;
    if DecodeAuthority(buf) == Ok(a) {
      var fields := Checked(buf, AuthorityCheck).value;
      CheckedMeans(buf, AuthorityCheck, fields);
      LookupChecked(fields, AuthorityCheck, 1);
      LookupChecked(fields, AuthorityCheck, 2);
      LookupChecked(fields, AuthorityCheck, 3);
      forall i | 0 <= i < |fields|
        ensures KnownOrOptional(fields[i], 1, 3)
      {
        assert AuthorityCheck(fields[i]) == None;
      }
      assert AuthorityMeans(fields, a);
    }
    forall fields: seq<Field> | Spells(buf, fields) && AuthorityMeans(fields, a)
      ensures DecodeAuthority(buf) == Ok(a)
    {
      forall i | 0 <= i < |fields|
        ensures AuthorityCheck(fields[i]) == None
      {
        LookupFound(fields, i);
      }
      CheckedMeans(buf, AuthorityCheck, fields);
    }
  }

  /** Which coordinates can be written. */
  lemma {:induction false} AuthorityWritten(a: Authority)
    ensures EncodeAuthority(a).Ok? <==>
            && |a.urls| <= 16 && (forall i :: 0 <= i < |a.urls| ==> Shown(a.urls[i]))
            && NotZero(a.sealingKid) && NotZero(a.leaseVerifyKey)
    ensures EncodeAuthority(a).Ok? ==>
              exists urls: seq<Field> ::
                && |urls| == |a.urls| && (forall i :: 0 <= i < |urls| ==> urls[i] == Field(i, a.urls[i]))
                && EncodeAuthority(a).value == Emit([Field(1, Emit(urls)), Field(2, a.sealingKid), Field(3, a.leaseVerifyKey)])
  {
    hide Emit, Written, EncodeUrl;
    if |a.urls| <= 16 {
      var entries := UrlEntries(a.urls);
      forall i | 0 <= i < |a.urls|
        ensures EncodeUrl(a.urls[i]).Ok? <==> Shown(a.urls[i])
        ensures EncodeUrl(a.urls[i]).Ok? ==> EncodeUrl(a.urls[i]).value == a.urls[i]
      {
        UrlMeans(a.urls[i], a.urls[i]);
      }
      if forall i :: 0 <= i < |a.urls| ==> Shown(a.urls[i]) { AllFit(entries); }
      if Written(entries).Ok? {
        forall i | 0 <= i < |a.urls|
          ensures Shown(a.urls[i])
        {
          WrittenLookup(entries, i);
          assert entries[i] == Nested(i, EncodeUrl(a.urls[i]));
        }
        WrittenAll(entries);
        var urls := Written(entries).value;
        forall i | 0 <= i < |urls|
          ensures urls[i] == Field(i, a.urls[i])
        {
          assert entries[i] == Nested(i, EncodeUrl(a.urls[i]));
        }
      }
    }
  }

  // ---- The roster ---------------------------------------------------------------------------------------------

  /** No quorum and no keys, or a threshold that so many different keys, at most sixteen, can meet. */
  predicate Enforceable(threshold: nat, keys: seq<digest>) {
    if threshold == 0 then keys == []
    else threshold <= |keys| <= 16 && forall i, j :: 0 <= i < j < |keys| ==> keys[i] != keys[j]
  }

  lemma {:induction false} RosterMeans(c: Coauthors)
    ensures CheckRoster(c) == None <==> Enforceable(c.threshold, c.keys)
  {
  }

  ghost predicate RosterIs(fields: seq<Field>, c: Coauthors) {
    && (forall i :: 0 <= i < |fields| ==> 1 <= fields[i].tag <= 2)
    && Has(fields, 1, [c.threshold]) && Enforceable(c.threshold, c.keys)
    && (match Lookup(fields, 2) case None => c.keys == []
                                case Some(v) => v != [] && |v| == 32 * |c.keys|
                                                && forall i :: 0 <= i < |c.keys| ==> c.keys[i] == v[32 * i..32 * i + 32])
  }

  lemma {:induction false} ChunksMean(v: bytes, keys: seq<digest>)
    requires |v| % 32 == 0
    ensures Chunks(v) == keys <==> |v| == 32 * |keys| && forall i :: 0 <= i < |keys| ==> keys[i] == v[32 * i..32 * i + 32]
    decreases |v|
  {
    if |v| >= 32 && keys != [] {
      ChunksMean(v[32..], keys[1..]);
      assert keys == [keys[0]] + keys[1..];
      forall i | 0 < i < |keys| && |v| == 32 * |keys|
        ensures v[32 * i..32 * i + 32] == v[32..][32 * (i - 1)..32 * (i - 1) + 32]
      {
        SliceOfSlice(v, 32, |v|, 32 * (i - 1), 32 * (i - 1) + 32);
        assert v[32..|v|] == v[32..];
      }
      assert forall i :: 0 < i < |keys| ==> keys[i] == keys[1..][i - 1];
      if |v| == 32 * |keys| && forall i :: 0 <= i < |keys| ==> keys[i] == v[32 * i..32 * i + 32] {
        assert keys[0] == v[32 * 0..32 * 0 + 32];
        forall i | 0 <= i < |keys[1..]|
          ensures keys[1..][i] == v[32..][32 * i..32 * i + 32]
        {
          assert keys[i + 1] == v[32 * (i + 1)..32 * (i + 1) + 32];
        }
      }
      if Chunks(v) == keys {
        forall i | 0 <= i < |keys|
          ensures keys[i] == v[32 * i..32 * i + 32]
        {
          if i > 0 { assert keys[1..][i - 1] == v[32..][32 * (i - 1)..32 * (i - 1) + 32]; }
        }
      }
    }
  }

  lemma {:induction false} RosterRead(buf: bytes, c: Coauthors)
    ensures DecodeRoster(buf) == Ok(c) <==> exists fields: seq<Field> :: Spells(buf, fields) && RosterIs(fields, c)
  {
    hide Checked, Lookup, Emit, Increasing, Chunks, CheckRoster, Enforceable;
    RosterMeans(c);
    if DecodeRoster(buf) == Ok(c) {
      var fields := Checked(buf, RosterCheck).value;
      CheckedMeans(buf, RosterCheck, fields);
      LookupChecked(fields, RosterCheck, 1);
      LookupChecked(fields, RosterCheck, 2);
      assert Lookup(fields, 1).value == [c.threshold];
      if Lookup(fields, 2).Some? { ChunksMean(Lookup(fields, 2).value, c.keys); }
      forall i | 0 <= i < |fields|
        ensures 1 <= fields[i].tag <= 2
      {
        assert RosterCheck(fields[i]) == None;
      }
      assert RosterIs(fields, c);
    }
    forall fields: seq<Field> | Spells(buf, fields) && RosterIs(fields, c)
      ensures DecodeRoster(buf) == Ok(c)
    {
      if Lookup(fields, 2).Some? { ChunksMean(Lookup(fields, 2).value, c.keys); }
      forall i | 0 <= i < |fields|
        ensures RosterCheck(fields[i]) == None
      {
        LookupFound(fields, i);
      }
      CheckedMeans(buf, RosterCheck, fields);
    }
  }

  // ---- Key slots ------------------------------------------------------------------------------------------------

  /** Encapsulation and key lengths of a mechanism, in the versions that have it. */
  function Lengths(version: u16, kem: KemAlg): Option<(nat, nat)> {
    match kem
    case X25519 => Some((32, 32))
    case P256 => if version >= 2 then Some((65, 65)) else None
    case XWing => if version >= 4 then Some((1120, 1216)) else None
    case MlKem768P256 => if version >= 5 then Some((1153, 1249)) else None
    case RsaOaep => None
  }

  /** What every slot of a known kind looks like, and what one for a claim code must not hold. */
  predicate WellShaped(version: u16, s: KnownSlot) {
    && Lengths(version, s.kem).Some?
    && |s.enc| == Lengths(version, s.kem).value.0
    && (s.keyFpr.Some? ==> |s.keyFpr.value| == Lengths(version, s.kem).value.1)
    && if s.kind == RecipientClaim then
         && s.claimCommit.Some? && s.ct == [] && s.keyFpr == None && s.kem == X25519
         && (forall i :: 0 <= i < |s.enc| ==> s.enc[i] == 0) && (forall i :: 0 <= i < 24 ==> s.nonce[i] == 0)
       else s.claimCommit == None && s.ct != []
  }

  lemma {:induction false} LengthsAre(version: u16, kem: KemAlg)
    ensures EncLength(version, kem) == (if Lengths(version, kem).Some? then Some(Lengths(version, kem).value.0) else None)
    ensures FprLength(version, kem) == (if Lengths(version, kem).Some? then Some(Lengths(version, kem).value.1) else None)
  {
  }

  function KindOf(k: SlotKind): u16 {
    match k case Server => 1 case RecipientIdentity => 2 case RecipientClaim => 3 case AuthorDevice => 4
  }

  function KemOf(k: KemAlg): byte {
    match k case X25519 => 1 case P256 => 2 case RsaOaep => 3 case XWing => 4 case MlKem768P256 => 5
  }

  lemma {:induction false} RefusalMeans(version: u16, s: KnownSlot)
    ensures SlotRefusal(version, s) == None <==> WellShaped(version, s)
  {
    hide EncLength, FprLength, Lengths;
    LengthsAre(version, s.kem);
    if s.keyFpr.Some? && Lengths(version, s.kem).Some? && |s.keyFpr.value| == Lengths(version, s.kem).value.1 {
      assert FprLength(version, s.kem) == Some(|s.keyFpr.value|);
    }
  }

  /** Which slots can be written, and as which records. */
  lemma {:induction false} SlotWritten(version: u16, s: KnownSlot)
    ensures EncodeKnown(version, s).Ok? <==> WellShaped(version, s) && |s.ct| <= U32_MAX
    ensures EncodeKnown(version, s).Ok? ==>
              exists fields: seq<Field> :: Spells(EncodeKnown(version, s).value, fields) && Holds(fields, s)
  {
    hide Emit, Written, SlotRefusal, WellShaped, Increasing, Lookup, Lengths;
    RefusalMeans(version, s);
    var entries := SlotEntries(s);
    if WellShaped(version, s) && |s.ct| <= U32_MAX {
      SmallParts(version, s);
      AllFit(entries);
    }
    if EncodeKnown(version, s).Ok? {
      WrittenLookup(entries, 3);
      var fields := Written(entries).value;
      WrittenIs(entries);
      forall tag: u16 | 1 <= tag <= 8
        ensures Lookup(fields, tag) == SlotValue(s, tag)
      {
        WrittenLookup(entries, tag - 1);
      }
      WordIs(KindNumber(s.kind));
      assert Spells(Emit(fields), fields) && Holds(fields, s);
    }
  }

  lemma {:induction false} SmallParts(version: u16, s: KnownSlot)
    requires WellShaped(version, s)
    ensures |s.enc| <= U32_MAX && (s.keyFpr.Some? ==> |s.keyFpr.value| <= U32_MAX)
  {
  }

  /** The records of a slot hold its parts. */
  ghost predicate Holds(fields: seq<Field>, s: KnownSlot) {
    && Has(fields, 1, Little(KindOf(s.kind), 2)) && Has(fields, 2, [KemOf(s.kem)])
    && Has(fields, 3, s.enc) && Has(fields, 4, s.ct) && Has(fields, 5, s.commitment)
    && Lookup(fields, 6) == s.keyFpr && Has(fields, 7, s.nonce)
    && (match s.claimCommit case None => Lookup(fields, 8).None? case Some(c) => Has(fields, 8, c))
  }

  /** A slot is used exactly when it is well shaped and holds nothing critical that is unknown. */
  ghost predicate SlotMeans(version: u16, fields: seq<Field>, s: KnownSlot) {
    && (forall i :: 0 <= i < |fields| ==> KnownOrOptional(fields[i], 1, 8))
    && Holds(fields, s) && WellShaped(version, s)
  }

  lemma {:induction false} UnusableMeans(fields: seq<Field>)
    ensures DraftOf(fields).unusable <==> !(forall i :: 0 <= i < |fields| ==> KnownOrOptional(fields[i], 1, 8))
  {
    hide Lookup;
    if k :| 0 <= k < |fields| && Foreign(fields[k]) { assert !KnownOrOptional(fields[k], 1, 8); }
    if k :| 0 <= k < |fields| && !KnownOrOptional(fields[k], 1, 8) { assert Foreign(fields[k]); }
  }

  lemma {:induction false} SlotFinished(version: u16, raw: bytes, fields: seq<Field>, s: KnownSlot)
    requires Passes(fields, SlotCheck)
    ensures FinishSlot(version, raw, DraftOf(fields)) == Ok(Known(s)) <==> SlotMeans(version, fields, s)
  {
    hide Lookup, Lengths, EncLength, FprLength, WellShaped, CheckShape;
    UnusableMeans(fields);
    RefusalMeans(version, s);
    WordIs(KindNumber(s.kind));
    LookupChecked(fields, SlotCheck, 1);
    LookupChecked(fields, SlotCheck, 2);
    LengthsAre(version, s.kem);
    KindRead(fields, s);
    if FinishSlot(version, raw, DraftOf(fields)) == Ok(Known(s)) {
      assert SlotRefusal(version, s) == None;
    }
  }

  lemma {:induction false} KindRead(fields: seq<Field>, s: KnownSlot)
    requires Lookup(fields, 1).Some? ==> |Lookup(fields, 1).value| == 2
    requires Lookup(fields, 2).Some? ==> |Lookup(fields, 2).value| == 1
    ensures Has(fields, 1, Little(KindOf(s.kind), 2)) <==> OptU16(Lookup(fields, 1)).Some? && NumberKind(OptU16(Lookup(fields, 1)).value) == Some(s.kind)
    ensures Has(fields, 2, [KemOf(s.kem)]) <==> OptByte(Lookup(fields, 2)).Some? && IdKem(OptByte(Lookup(fields, 2)).value) == Some(s.kem)
  {
    hide Lookup, Little, Le16, FromLe16;
    WordIs(KindOf(s.kind));
    Le16RoundTrip(KindOf(s.kind));
    if Lookup(fields, 1).Some? { FromLe16RoundTrip(Lookup(fields, 1).value); }
    if Lookup(fields, 2).Some? { assert Lookup(fields, 2).value == [Lookup(fields, 2).value[0]]; }
  }

  lemma {:induction false} SlotRead(version: u16, raw: bytes, s: KnownSlot)
    ensures DecodeSlot(version, raw) == Ok(Known(s)) <==> exists fields: seq<Field> :: Spells(raw, fields) && SlotMeans(version, fields, s)
  {
    hide Checked, FinishSlot, DraftOf, Emit, Increasing, SlotMeans;
    if DecodeSlot(version, raw) == Ok(Known(s)) {
      var fields := Checked(raw, SlotCheck).value;
      CheckedMeans(raw, SlotCheck, fields);
      SlotFinished(version, raw, fields, s);
    }
    forall fields: seq<Field> | Spells(raw, fields) && SlotMeans(version, fields, s)
      ensures DecodeSlot(version, raw) == Ok(Known(s))
    {
      SlotPasses(fields, s, version);
      CheckedMeans(raw, SlotCheck, fields);
      SlotFinished(version, raw, fields, s);
    }
  }

  lemma {:induction false} SlotPasses(fields: seq<Field>, s: KnownSlot, version: u16)
    requires Increasing(None, fields) && SlotMeans(version, fields, s)
    ensures Passes(fields, SlotCheck)
  {
    hide Lookup, Increasing, WellShaped;
    forall i | 0 <= i < |fields|
      ensures SlotCheck(fields[i]) == None
    {
      LookupFound(fields, i);
    }
  }

  /** A slot is kept as bytes when it names what this version does not know; nothing more of it is looked at. */
  lemma {:induction false} SlotKept(version: u16, raw: bytes, kind: u16, kept: bytes)
    ensures DecodeSlot(version, raw) == Ok(Unknown(kind, kept)) <==>
            && kept == raw
            && exists fields: seq<Field> :: Spells(raw, fields) && KeptMeans(version, fields, kind)
  {
    hide Checked, FinishSlot, DraftOf, Emit, Increasing, KeptMeans;
    if DecodeSlot(version, raw) == Ok(Unknown(kind, kept)) {
      var fields := Checked(raw, SlotCheck).value;
      CheckedMeans(raw, SlotCheck, fields);
      KeptFinished(version, raw, fields, kind, kept);
    }
    forall fields: seq<Field> | kept == raw && Spells(raw, fields) && KeptMeans(version, fields, kind)
      ensures DecodeSlot(version, raw) == Ok(Unknown(kind, kept))
    {
      KeptPasses(version, fields, kind);
      CheckedMeans(raw, SlotCheck, fields);
      KeptFinished(version, raw, fields, kind, kept);
    }
  }

  /** An unknown critical record, a foreign kind, or a mechanism this version does not have. */
  ghost predicate KeptMeans(version: u16, fields: seq<Field>, kind: u16) {
    && Has(fields, 1, Little(kind, 2))
    && (Lookup(fields, 2).Some? ==> |Lookup(fields, 2).value| == 1)
    && (|| (exists i :: 0 <= i < |fields| && !KnownOrOptional(fields[i], 1, 8))
        || !(1 <= kind <= 4)
        || (Lookup(fields, 2).Some? && !Serves(version, Lookup(fields, 2).value[0])))
  }

  /** The mechanisms of a version, by number. */
  predicate Serves(version: u16, id: byte) {
    id == 1 || (id == 2 && version >= 2) || (id == 4 && version >= 4) || (id == 5 && version >= 5)
  }

  lemma {:induction false} ServesMeans(version: u16, id: byte)
    ensures Serves(version, id) <==> IdKem(id).Some? && EncLength(version, IdKem(id).value).Some?
  {
  }

  lemma {:induction false} KeptFinished(version: u16, raw: bytes, fields: seq<Field>, kind: u16, kept: bytes)
    requires Passes(fields, SlotCheck)
    ensures FinishSlot(version, raw, DraftOf(fields)) == Ok(Unknown(kind, kept)) <==> kept == raw && KeptMeans(version, fields, kind)
  {
    hide Lookup, EncLength, CheckShape, FromLe16, Little, Le16, Serves;
    UnusableMeans(fields);
    LookupChecked(fields, SlotCheck, 1);
    LookupChecked(fields, SlotCheck, 2);
    if Lookup(fields, 2).Some? { ServesMeans(version, Lookup(fields, 2).value[0]); }
    NumbersOfKinds(fields, kind);
    SameDomain(version);
  }

  lemma {:induction false} NumbersOfKinds(fields: seq<Field>, kind: u16)
    requires Lookup(fields, 1).Some? ==> |Lookup(fields, 1).value| == 2
    ensures Has(fields, 1, Little(kind, 2)) <==> OptU16(Lookup(fields, 1)) == Some(kind)
    ensures NumberKind(kind).Some? <==> 1 <= kind <= 4
  {
    hide Lookup, Little, Le16, FromLe16;
    WordIs(kind);
    Le16RoundTrip(kind);
    if Lookup(fields, 1).Some? { FromLe16RoundTrip(Lookup(fields, 1).value); }
  }

  /** Fingerprints have a length in the versions in which encapsulations have one. */
  lemma {:induction false} SameDomain(version: u16)
    ensures forall kem: KemAlg :: EncLength(version, kem).Some? <==> FprLength(version, kem).Some?
  {
  }

  lemma {:induction false} KeptPasses(version: u16, fields: seq<Field>, kind: u16)
    requires Increasing(None, fields) && KeptMeans(version, fields, kind)
    ensures Passes(fields, SlotCheck)
  {
    hide Lookup, Increasing, Serves;
    LittleLength(kind);
    forall i | 0 <= i < |fields|
      ensures SlotCheck(fields[i]) == None
    {
      LookupFound(fields, i);
    }
  }

  lemma {:induction false} LittleLength(v: u16)
    ensures |Little(v, 2)| == 2
  {
    WordIs(v);
  }

  /** At most 1024 slots, in the order of their records. */
  ghost predicate SlotsMean(version: u16, fields: seq<Field>, slots: seq<KeySlot>) {
    && |fields| == |slots| <= 1024
    && forall i :: 0 <= i < |fields| ==> DecodeSlot(version, fields[i].value) == Ok(slots[i])
  }

  lemma {:induction false} SlotsRead(version: u16, buf: bytes, slots: seq<KeySlot>)
    ensures DecodeSlots(version, buf) == Ok(slots) <==> exists fields: seq<Field> :: Spells(buf, fields) && SlotsMean(version, fields, slots)
  {
    hide Emit, Increasing, DecodeList, DecodeSlot, Collect;
    if DecodeSlots(version, buf) == Ok(slots) {
      var fields := ListIsSpelled(buf, MAX_KEY_SLOTS, KEY_SLOTS, SlotAt(version));
      DecodeListOf(fields, MAX_KEY_SLOTS, KEY_SLOTS, SlotAt(version));
      forall i | 0 <= i < |fields|
        ensures DecodeSlot(version, fields[i].value) == Ok(slots[i])
      {
        assert SlotAt(version)(fields[i].value) == Ok(slots[i]);
      }
      assert SlotsMean(version, fields, slots);
    }
    forall fields: seq<Field> | Spells(buf, fields) && SlotsMean(version, fields, slots)
      ensures DecodeSlots(version, buf) == Ok(slots)
    {
      DecodeListOf(fields, MAX_KEY_SLOTS, KEY_SLOTS, SlotAt(version));
      forall i | 0 <= i < |fields|
        ensures SlotAt(version)(fields[i].value) == Ok(slots[i])
      {
        assert DecodeSlot(version, fields[i].value) == Ok(slots[i]);
      }
      var back := DecodeSlots(version, buf).value;
      assert forall i :: 0 <= i < |fields| ==> SlotAt(version)(fields[i].value) == Ok(back[i]);
      assert back == slots;
    }
  }

  // ---- The header ---------------------------------------------------------------------------------------------------

  /** A chunk holds between 4 KiB and 1 MiB, a power of two. */
  predicate ChunkMeans(n: nat) {
    n in {4096, 8192, 16384, 32768, 65536, 131072, 262144, 524288, 1048576}
  }

  lemma {:induction false} ChunkIs(n: u32)
    ensures Layouts.ValidChunkSize(n) <==> ChunkMeans(n)
  {
    hide IsPowerOfTwo;
    if 1 <= n <= 1048576 { Powers(n); }
  }

  lemma {:induction false} Powers(n: nat)
    requires 1 <= n <= 1048576
    ensures IsPowerOfTwo(n) <==>
            n in {1, 2, 4, 8, 16, 32, 64, 128, 256, 512, 1024, 2048, 4096, 8192, 16384, 32768, 65536, 131072, 262144, 524288, 1048576}
  {
    if n > 1 { Powers(n / 2); }
  }

  ghost predicate NumbersMean(fields: seq<Field>, h: H.Header) {
    && Has(fields, 1, Little(h.version, 2)) && Has(fields, 2, Little(h.minReader, 2))
    && Has(fields, 7, Little(h.chunkSize, 4)) && ChunkMeans(h.chunkSize)
    && Has(fields, 15, [0]) && h.cls == 0
    && (match h.footerOffset case None => Lookup(fields, 16).None? case Some(n) => Has(fields, 16, Little(n, 8)))
  }

  ghost predicate BlobsMean(fields: seq<Field>, h: H.Header) {
    && Has(fields, 3, h.fileId) && Has(fields, 5, h.authorKey) && Has(fields, 6, h.salt) && Has(fields, 8, h.originalRoot)
    && Has(fields, 12, h.privateMeta) && Has(fields, 14, h.orgId) && Has(fields, 17, h.wrappedCek)
    && (match h.prevHash case None => Lookup(fields, 13).None? case Some(v) => Has(fields, 13, v))
  }

  ghost predicate PartsMean(fields: seq<Field>, h: H.Header) {
    && Lookup(fields, 4).Some? && DecodeSuite(Lookup(fields, 4).value) == Ok(h.suite)
    && Lookup(fields, 9).Some? && Policies.DecodePolicy(h.version, Lookup(fields, 9).value) == Ok(h.policy)
    && Lookup(fields, 10).Some? && DecodeSlots(h.version, Lookup(fields, 10).value) == Ok(h.keySlots)
    && Lookup(fields, 11).Some? && DecodeAuthority(Lookup(fields, 11).value) == Ok(h.authority)
    && if h.version >= 4 && Lookup(fields, 0x8001).Some?
       then h.coauthors.Some? && DecodeRoster(Lookup(fields, 0x8001).value) == Ok(h.coauthors.value)
       else h.coauthors == None
  }

  /** Every record is known or asks to be skipped, and the known ones hold the parts of the header. */
  ghost predicate HeaderMeans(fields: seq<Field>, h: H.Header) {
    && (forall i :: 0 <= i < |fields| ==> KnownOrOptional(fields[i], 1, 17))
    && NumbersMean(fields, h) && BlobsMean(fields, h) && PartsMean(fields, h)
  }

  /** What is under a tag passes. */
  predicate Fine(fields: seq<Field>, version: u16, tag: u16) {
    Lookup(fields, tag).Some? ==> H.HeaderCheck(Some(version), Field(tag, Lookup(fields, tag).value)) == None
  }

  /** The records pass when those under the known tags do and no other is critical. */
  lemma {:induction false} PassingIs(fields: seq<Field>, version: u16)
    requires Increasing(None, fields)
    ensures Passes(fields, H.HeaderCheckAt(Some(version))) <==>
            && (forall i :: 0 <= i < |fields| ==> KnownOrOptional(fields[i], 1, 17))
            && Fine(fields, version, 0x8001) && forall tag: u16 :: 1 <= tag <= 17 ==> Fine(fields, version, tag)
  {
    hide Lookup, Increasing, H.HeaderCheck;
    if Passes(fields, H.HeaderCheckAt(Some(version))) {
      LookupChecked(fields, H.HeaderCheckAt(Some(version)), 0x8001);
      forall tag: u16 | 1 <= tag <= 17
        ensures Fine(fields, version, tag)
      {
        LookupChecked(fields, H.HeaderCheckAt(Some(version)), tag);
      }
      forall i | 0 <= i < |fields|
        ensures KnownOrOptional(fields[i], 1, 17)
      {
        assert H.HeaderCheckAt(Some(version))(fields[i]) == None;
        StrangersSkipped(version, fields[i]);
      }
    }
    if && (forall i :: 0 <= i < |fields| ==> KnownOrOptional(fields[i], 1, 17))
       && Fine(fields, version, 0x8001) && forall tag: u16 :: 1 <= tag <= 17 ==> Fine(fields, version, tag) {
      forall i | 0 <= i < |fields|
        ensures H.HeaderCheckAt(Some(version))(fields[i]) == None
      {
        LookupFound(fields, i);
        StrangersSkipped(version, fields[i]);
        assert fields[i] == Field(fields[i].tag, fields[i].value);
        assert 1 <= fields[i].tag <= 17 ==> Fine(fields, version, fields[i].tag);
      }
    }
  }

  lemma {:induction false} StrangersSkipped(version: u16, f: Field)
    ensures !(1 <= f.tag <= 17) && f.tag != 0x8001 ==> (H.HeaderCheck(Some(version), f) == None <==> f.tag > 0x7FFF)
  {
    hide DecodeSuite, DecodeAuthority, DecodeRoster, Policies.DecodePolicy, DecodeSlots, FromLe32;
  }

  /** The numbers of a draft, where their records pass. */
  predicate NumbersAre(d: H.HeaderDraft, h: H.Header) {
    && d.version == Some(h.version) && d.minReader == Some(h.minReader) && d.chunkSize == Some(h.chunkSize)
    && d.cls == Some(h.cls) && d.footerOffset == h.footerOffset
  }

  lemma {:induction false} NumbersRead(fields: seq<Field>, h: H.Header)
    ensures NumbersMean(fields, h) <==>
            && Fine(fields, h.version, 1) && Fine(fields, h.version, 2) && Fine(fields, h.version, 7)
            && Fine(fields, h.version, 15) && Fine(fields, h.version, 16)
            && OptU16(Lookup(fields, 1)) == Some(h.version) && OptU16(Lookup(fields, 2)) == Some(h.minReader)
            && Content.OptU32(Lookup(fields, 7)) == Some(h.chunkSize) && OptByte(Lookup(fields, 15)) == Some(h.cls)
            && Content.OptU64(Lookup(fields, 16)) == h.footerOffset
  {
    hide Lookup, Little, FromLe16, FromLe32, FromLe64, Layouts.ValidChunkSize, ChunkMeans;
    Word(Lookup(fields, 1), h.version);
    Word(Lookup(fields, 2), h.minReader);
    ChunkIs(h.chunkSize);
    if Lookup(fields, 7).Some? { Number32(Lookup(fields, 7).value, h.chunkSize); }
    if Lookup(fields, 16).Some? && h.footerOffset.Some? { Number64(Lookup(fields, 16).value, h.footerOffset.value); }
    if OptByte(Lookup(fields, 15)) == Some(0) { assert Lookup(fields, 15).value == [0]; }
  }

  lemma {:induction false} Word(v: Option<bytes>, n: u16)
    ensures v == Some(Little(n, 2)) <==> OptU16(v) == Some(n)
  {
    hide Little, Le16, FromLe16;
    WordIs(n);
    Le16RoundTrip(n);
    if v.Some? && |v.value| == 2 { FromLe16RoundTrip(v.value); }
  }

  lemma {:induction false} BlobsRead(fields: seq<Field>, h: H.Header)
    ensures BlobsMean(fields, h) <==>
            && Fine(fields, h.version, 3) && Fine(fields, h.version, 5) && Fine(fields, h.version, 6) && Fine(fields, h.version, 8)
            && Fine(fields, h.version, 13) && Fine(fields, h.version, 17)
            && Lookup(fields, 3).Some? && Content.AsId(Lookup(fields, 3).value) == h.fileId
            && Lookup(fields, 5).Some? && Content.AsDigest(Lookup(fields, 5).value) == h.authorKey
            && Lookup(fields, 6).Some? && Content.AsDigest(Lookup(fields, 6).value) == h.salt
            && Lookup(fields, 8).Some? && Content.AsDigest(Lookup(fields, 8).value) == h.originalRoot
            && Lookup(fields, 12) == Some(h.privateMeta) && Lookup(fields, 14) == Some(h.orgId)
            && Lookup(fields, 17).Some? && H.AsWrapped(Lookup(fields, 17).value) == h.wrappedCek
            && Content.OptDigest(Lookup(fields, 13)) == h.prevHash
  {
    hide Lookup;
  }

  lemma {:induction false} PartsRead(fields: seq<Field>, h: H.Header)
    ensures PartsMean(fields, h) && Fine(fields, h.version, 0x8001) <==>
            && Fine(fields, h.version, 4) && Fine(fields, h.version, 9) && Fine(fields, h.version, 10) && Fine(fields, h.version, 11)
            && Fine(fields, h.version, 0x8001)
            && H.Parsed(Lookup(fields, 4), DecodeSuite) == Some(h.suite)
            && H.ParsedAt(Some(h.version), Lookup(fields, 9), Policies.DecodePolicy) == Some(h.policy)
            && H.ParsedAt(Some(h.version), Lookup(fields, 10), DecodeSlots) == Some(h.keySlots)
            && H.Parsed(Lookup(fields, 11), DecodeAuthority) == Some(h.authority)
            && (if H.HasRoster(Some(h.version)) then H.Parsed(Lookup(fields, 0x8001), DecodeRoster) else None) == h.coauthors
  {
    hide Lookup, DecodeSuite, DecodeAuthority, DecodeRoster, Policies.DecodePolicy, DecodeSlots;
  }

  /** Where a draft has its three places, it finishes as the header that its values are those of. */
  lemma {:induction false} FinishMeans(d: H.HeaderDraft, h: H.Header)
    requires d.policy.Some? ==> d.policyValue.Some?
    requires d.keySlots.Some? ==> d.keySlotsRecord.Some?
    requires d.wrappedCek.Some? ==> d.wrappedCekRecord.Some?
    ensures H.FinishHeader(d).Ok? && H.FinishHeader(d).value.header == h <==>
            && d.version == Some(h.version) && d.minReader == Some(h.minReader) && d.chunkSize == Some(h.chunkSize)
            && d.cls == Some(h.cls) && d.footerOffset == h.footerOffset
            && d.fileId.Some? && Content.AsId(d.fileId.value) == h.fileId
            && d.authorKey.Some? && Content.AsDigest(d.authorKey.value) == h.authorKey
            && d.salt.Some? && Content.AsDigest(d.salt.value) == h.salt
            && d.originalRoot.Some? && Content.AsDigest(d.originalRoot.value) == h.originalRoot
            && d.privateMeta == Some(h.privateMeta) && d.orgId == Some(h.orgId)
            && d.wrappedCek.Some? && H.AsWrapped(d.wrappedCek.value) == h.wrappedCek
            && Content.OptDigest(d.prevHash) == h.prevHash
            && d.suite == Some(h.suite) && d.policy == Some(h.policy) && d.keySlots == Some(h.keySlots)
            && d.authority == Some(h.authority) && d.coauthors == h.coauthors
  {
    hide Content.AsId, Content.AsDigest, H.AsWrapped, Content.OptDigest;
  }

  lemma {:induction false} PlacesPresent(fields: seq<Field>, version: u16)
    requires Increasing(None, fields)
    ensures var d := H.HeaderDraftOf(Some(version), fields);
            && (d.policy.Some? ==> d.policyValue.Some?) && (d.keySlots.Some? ==> d.keySlotsRecord.Some?)
            && (d.wrappedCek.Some? ==> d.wrappedCekRecord.Some?)
  {
    hide Lookup, Increasing, H.Place, Policies.DecodePolicy, DecodeSlots, DecodeSuite, DecodeAuthority, DecodeRoster, OptU16, OptByte,
         Content.OptU32, Content.OptU64;
    if Lookup(fields, 9).Some? { HeaderCore.PlaceOfPresent(fields, 9); }
    if Lookup(fields, 10).Some? { HeaderCore.PlaceOfPresent(fields, 10); }
    if Lookup(fields, 17).Some? { HeaderCore.PlaceOfPresent(fields, 17); }
  }

  /** The draft of accepted records finishes as a header exactly when the records mean it. */
  lemma {:induction false} HeaderFinished(fields: seq<Field>, h: H.Header)
    requires Increasing(None, fields)
    ensures HeaderMeans(fields, h) <==>
            && Passes(fields, H.HeaderCheckAt(Some(h.version)))
            && H.FinishHeader(H.HeaderDraftOf(Some(h.version), fields)).Ok?
            && H.FinishHeader(H.HeaderDraftOf(Some(h.version), fields)).value.header == h
  {
    hide Lookup, Increasing, Passes, H.Place, H.FinishHeader, Fine, NumbersMean, BlobsMean, PartsMean, H.Parsed, H.ParsedAt, OptU16, OptByte,
         Content.OptU32, Content.OptU64, Content.OptDigest, Content.AsDigest, Content.AsId, H.AsWrapped, KnownOrOptional;
    PlacesPresent(fields, h.version);
    FinishMeans(H.HeaderDraftOf(Some(h.version), fields), h);
    PassingIs(fields, h.version);
    NumbersRead(fields, h);
    BlobsRead(fields, h);
    PartsRead(fields, h);
    FineAlways(fields, h);
  }

  lemma {:induction false} FineAlways(fields: seq<Field>, h: H.Header)
    ensures Fine(fields, h.version, 12) && Fine(fields, h.version, 14)
    ensures PartsMean(fields, h) ==> Fine(fields, h.version, 0x8001)
  {
    hide Lookup, DecodeSuite, DecodeAuthority, DecodeRoster, Policies.DecodePolicy, DecodeSlots;
  }

  /** The header reader accepts exactly the records that mean a header, and reads that header. */
  lemma {:induction false} HeaderRead(buf: bytes, h: H.Header)
    ensures H.DecodeHeader(buf).Ok? && H.DecodeHeader(buf).value.header == h <==>
            exists fields: seq<Field> :: Spells(buf, fields) && HeaderMeans(fields, h)
  {
    hide Checked, ReadAll, Emit, Increasing, HeaderMeans, H.HeaderCheckAt, H.FinishHeader, H.HeaderDraftOf, H.FrontVersion, Passes;
    if H.DecodeHeader(buf).Ok? && H.DecodeHeader(buf).value.header == h {
      var fields := Accepted(buf);
      HeaderFinished(fields, h);
    }
    forall fields: seq<Field> | Spells(buf, fields) && HeaderMeans(fields, h)
      ensures H.DecodeHeader(buf).Ok? && H.DecodeHeader(buf).value.header == h
    {
      HeaderFinished(fields, h);
      VersionInFront(fields, h);
      CheckedMeans(buf, H.HeaderCheckAt(Some(h.version)), fields);
      assert ReadAll(buf) == Scan(fields, None) by { ReadIsInverseOfEmit(buf, fields); }
    }
  }

  /** The records of an accepted header pass under the version it states. */
  lemma {:induction false} Accepted(buf: bytes) returns (fields: seq<Field>)
    requires H.DecodeHeader(buf).Ok?
    ensures Spells(buf, fields)
    ensures var version := Some(H.DecodeHeader(buf).value.header.version);
            && Passes(fields, H.HeaderCheckAt(version))
            && H.DecodeHeader(buf) == H.FinishHeader(H.HeaderDraftOf(version, fields))
  {
    hide Emit, Increasing, Lookup, H.FinishHeader, H.HeaderDraftOf, ReadAll, Checked, H.HeaderCheck, H.FrontVersion;
    var version := H.FrontVersion(ReadAll(buf).fields);
    fields := Checked(buf, H.HeaderCheckAt(version)).value;
    CheckedMeans(buf, H.HeaderCheckAt(version), fields);
    assert ReadAll(buf) == Scan(fields, None) by { ReadIsInverseOfEmit(buf, fields); }
    var d := H.HeaderDraftOf(version, fields);
    FinishedVersion(d);
    HeaderCore.DraftVersion(version, fields);
    HeaderCore.FrontIsVersion(fields);
  }

  lemma {:induction false} FinishedVersion(d: H.HeaderDraft)
    requires H.FinishHeader(d).Ok?
    ensures d.version == Some(H.FinishHeader(d).value.header.version)
  {
  }

  lemma {:induction false} VersionInFront(fields: seq<Field>, h: H.Header)
    requires Increasing(None, fields) && HeaderMeans(fields, h)
    ensures H.FrontVersion(fields) == Some(h.version)
  {
    hide Increasing, Lookup, BlobsMean, PartsMean, ChunkMeans, Little, FromLe16;
    LookupPresent(fields, 1);
    var i :| 0 <= i < |fields| && fields[i] == Field(1, Little(h.version, 2));
    assert KnownOrOptional(fields[0], 1, 17);
    if i > 0 { TagsOrdered(fields, 0, i); }
    Word(Some(fields[0].value), h.version);
  }

  /** Which headers can be written. */
  lemma {:induction false} HeaderWritten(h: H.Header)
    ensures H.EncodeHeader(h).Ok? <==>
            && ChunkMeans(h.chunkSize) && |h.keySlots| <= 1024 && h.suite.treeHash == Blake3
            && EncodeAuthority(h.authority).Ok? && EncodeSlots(h.version, h.keySlots).Ok?
            && |EncodeSlots(h.version, h.keySlots).value| <= U32_MAX && |h.privateMeta| <= U32_MAX && |h.orgId| <= U32_MAX
            && (h.version >= 4 && h.coauthors.Some? ==> Enforceable(h.coauthors.value.threshold, h.coauthors.value.keys))
  {
    hide Layouts.ValidChunkSize, ChunkMeans, EncodeAuthority, EncodeSlots, Written, Enforceable, CheckRoster, H.ValueOf;
    ChunkIs(h.chunkSize);
    if h.coauthors.Some? { RosterMeans(h.coauthors.value); }
    if |h.keySlots| <= 1024 {
      var entries := H.HeaderEntries(h);
      if Written(entries).Ok? {
        forall i | 0 <= i < 18
          ensures Fits(entries[i].value)
        {
          WrittenLookup(entries, i);
        }
        HeaderFits(h);
      } else if && h.suite.treeHash == Blake3 && EncodeAuthority(h.authority).Ok? && EncodeSlots(h.version, h.keySlots).Ok?
                && |EncodeSlots(h.version, h.keySlots).value| <= U32_MAX && |h.privateMeta| <= U32_MAX && |h.orgId| <= U32_MAX
                && (h.version >= 4 && h.coauthors.Some? ==> CheckRoster(h.coauthors.value) == None) {
        HeaderFits(h);
        AllFit(entries);
      }
    }
  }

  predicate Fits(v: Result<Option<bytes>, FormatError>) {
    v.Ok? && (v.value.Some? ==> |v.value.value| <= U32_MAX)
  }

  lemma {:induction false} HeaderFits(h: H.Header)
    requires |h.keySlots| <= 1024
    ensures (forall i :: 0 <= i < 18 ==> Fits(H.HeaderEntries(h)[i].value)) <==>
            && h.suite.treeHash == Blake3 && EncodeAuthority(h.authority).Ok? && EncodeSlots(h.version, h.keySlots).Ok?
            && |EncodeSlots(h.version, h.keySlots).value| <= U32_MAX && |h.privateMeta| <= U32_MAX && |h.orgId| <= U32_MAX
            && (h.version >= 4 && h.coauthors.Some? ==> CheckRoster(h.coauthors.value) == None)
  {
    hide EncodeAuthority, EncodeSlots, EncodeSuite, EncodeRoster, CheckRoster, H.ValueOf, Policies.EncodePolicy, Le16, Le32, Le64;
    var e := H.HeaderEntries(h);
    H.FrontValues(h, e);
    H.BackValues(h, e);
    PartsAreSmall(h);
  }

  lemma {:induction false} PartsAreSmall(h: H.Header)
    ensures EncodeAuthority(h.authority).Ok? ==> |EncodeAuthority(h.authority).value| <= U32_MAX
    ensures |Policies.EncodePolicy(h.version, h.policy)| <= U32_MAX
    ensures EncodeSuite(h.suite).Ok? <==> h.suite.treeHash == Blake3
    ensures EncodeSuite(h.suite).Ok? ==> |EncodeSuite(h.suite).value| <= U32_MAX
    ensures H.Roster(h).Some? ==>
              var r := EncodeRoster(H.Roster(h).value);
              && (r.Ok? <==> CheckRoster(H.Roster(h).value) == None)
              && (r.Ok? ==> |r.value| <= U32_MAX)
  {
    hide EncodeAuthority, CheckRoster, Emit, Policies.EncodePolicy, Flat;
    Policies.PolicyIsSmall(h.version, h.policy);
    if EncodeSuite(h.suite).Ok? { Content.EmitIsBounded(SuiteFields(h.suite), 1); }
    AuthorityWritten(h.authority);
    if EncodeAuthority(h.authority).Ok? {
      var urls: seq<Field> :| && |urls| == |h.authority.urls| && (forall i :: 0 <= i < |urls| ==> urls[i] == Field(i, h.authority.urls[i]))
                              && EncodeAuthority(h.authority).value == Emit([Field(1, Emit(urls)), Field(2, h.authority.sealingKid), Field(3, h.authority.leaseVerifyKey)]);
      Content.EmitIsBounded(urls, 2048);
      Content.EmitIsBounded([Field(1, Emit(urls)), Field(2, h.authority.sealingKid), Field(3, h.authority.leaseVerifyKey)], 40000);
    }
    if H.Roster(h).Some? {
      RosterMeans(H.Roster(h).value);
      if EncodeRoster(H.Roster(h).value).Ok? { Content.EmitIsBounded(RosterFields(H.Roster(h).value), 512); }
    }
  }

  /**
    What is written reads back exactly in this build's suite and class when every kept slot parses,
    and then as it was, but for the policy's normal form, kept slots as they parse, and a roster
    below version 4.
   */
  lemma {:induction false} WrittenReadsAs(h: H.Header)
    requires H.EncodeHeader(h).Ok?
    ensures var r := H.DecodeHeader(H.EncodeHeader(h).value);
            && (r.Ok? <==> h.suite.sig == Content.Ed25519 && h.suite.aead == XChaCha20Poly1305 && h.cls == 0
                           && forall i :: 0 <= i < |h.keySlots| && h.keySlots[i].Unknown? ==> DecodeSlot(h.version, h.keySlots[i].raw).Ok?)
            && (r.Ok? ==>
                  var g := r.value.header;
                  && g == h.(policy := Policies.Normal(h.version, h.policy), keySlots := g.keySlots,
                             coauthors := if h.version >= 4 then h.coauthors else None)
                  && |g.keySlots| == |h.keySlots|
                  && forall i :: 0 <= i < |h.keySlots| ==>
                       g.keySlots[i] == if h.keySlots[i].Known? then h.keySlots[i] else DecodeSlot(h.version, h.keySlots[i].raw).value)
  {
    hide H.EncodeHeader, H.DecodeHeader, DecodeSlot, Policies.Normal;
    HeaderCore.HeaderRoundTrip(h);
  }

  /** The parts of the buffer that hashes are taken over: the value of one record and the whole of two others. */
  lemma {:induction false} SpansRead(buf: bytes, fields: seq<Field>)
    requires H.DecodeHeader(buf).Ok? && Spells(buf, fields)
    ensures var s := H.DecodeHeader(buf).value.spans;
            && s.policyValue.start <= s.policyValue.end <= |buf| && Has(fields, 9, buf[s.policyValue.start..s.policyValue.end])
            && s.keySlotsRecord.start <= s.keySlotsRecord.end <= |buf| && RecordOf(fields, 10, buf[s.keySlotsRecord.start..s.keySlotsRecord.end])
            && s.wrappedCekRecord.start <= s.wrappedCekRecord.end <= |buf| && RecordOf(fields, 17, buf[s.wrappedCekRecord.start..s.wrappedCekRecord.end])
  {
    hide Emit, Increasing, Lookup, H.Place, Record, RecordOf, H.DecodeHeader;
    var accepted := HeaderCore.AcceptedFields(buf);
    assert accepted == fields by {
      ReadIsInverseOfEmit(buf, fields);
      ReadIsInverseOfEmit(buf, accepted);
    }
    PlaceRead(fields, 9);
    PlaceRead(fields, 10);
    PlaceRead(fields, 17);
  }

  predicate RecordOf(fields: seq<Field>, tag: u16, record: bytes) {
    Lookup(fields, tag).Some? && record == Little(tag, 2) + Little(|Lookup(fields, tag).value|, 4) + Lookup(fields, tag).value
  }

  lemma {:induction false} PlaceRead(fields: seq<Field>, tag: u16)
    requires Canonical(fields) && H.Place(fields, tag).Some?
    ensures var r := H.Place(fields, tag).value;
            && r.start + 6 <= r.end <= |Emit(fields)|
            && RecordOf(fields, tag, Emit(fields)[r.start..r.end])
            && Has(fields, tag, Emit(fields)[r.start + 6..r.end])
  {
    hide Emit, Increasing, Lookup, Record, Little;
    var i := HeaderCore.PlaceIndex(fields, tag);
    HeaderCore.PlaceIs(fields, i);
    LookupFound(fields, i);
    var a, f, c := fields[..i], fields[i], fields[i + 1..];
    assert fields[..i + 1] == a + [f] && fields == (a + [f]) + c;
    EmitAppend(a, [f]);
    EmitAppend(a + [f], c);
    EmitOfOne(f);
    RecordsAre(f, []);
    LittleLength(f.tag);
    HalfIs(|f.value|);
    var front := Little(f.tag, 2) + Little(|f.value|, 4);
    assert |front| == 6 by { assert |Le32(|f.value|)| == 4; }
    assert Emit([f]) == front + f.value by { assert [f] + [] == [f]; }
    Middle(Emit(a), Emit([f]), Emit(c));
    Middle(Emit(a) + front, f.value, Emit(c));
    assert Emit(a) + front + f.value == Emit(a) + Emit([f]);
  }

  lemma {:induction false} Middle(a: bytes, b: bytes, c: bytes)
    ensures (a + b + c)[|a|..|a + b|] == b
  {
  }
}
