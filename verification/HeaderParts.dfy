/** The nested records of a header: algorithm suite, server coordinates, coauthor roster. */
module HeaderParts {
  import opened Bytes
  import opened Tlv
  import opened Content
  import opened Writing
  import opened Text

  // ---- The algorithm suite --------------------------------------------------------------

  datatype AeadAlg = XChaCha20Poly1305 | Aes256Gcm | Aes256GcmSiv
  datatype TreeHashAlg = Blake3 | Sha256
  datatype Suite = Suite(sig: SigAlg, aead: AeadAlg, treeHash: TreeHashAlg)

  const SUITE_SIG: u16 := 1
  const SUITE_AEAD: u16 := 2
  const SUITE_TREE_HASH: u16 := 3

  function AeadId(alg: AeadAlg): byte {
    match alg case XChaCha20Poly1305 => 1 case Aes256Gcm => 2 case Aes256GcmSiv => 3
  }

  function SuiteFields(s: Suite): seq<Field> {
    [ Field(SUITE_SIG, [SigAlgId(s.sig)]), Field(SUITE_AEAD, [AeadId(s.aead)]), Field(SUITE_TREE_HASH, [1]) ]
  }

  /** Only the tree hash is checked on writing. */
  function EncodeSuite(s: Suite): Result<bytes, FormatError> {
    if s.treeHash != Blake3 then Err(UnknownCriticalField(SUITE_TREE_HASH)) else Ok(Emit(SuiteFields(s)))
  }

  /** On reading each of the three must be the one algorithm that is executed. */
  function SuiteCheck(f: Field): Option<FormatError> {
    if f.tag == SUITE_SIG || f.tag == SUITE_AEAD || f.tag == SUITE_TREE_HASH then
      if |f.value| != 1 then LengthIs(f, 1)
      else if f.value[0] != 1 then Some(UnknownCriticalField(f.tag))
      else None
    else UnknownTag(f.tag)
  }

  function DecodeSuite(v: bytes): Result<Suite, FormatError> {
    match Checked(v, SuiteCheck)
    case Err(e) => Err(e)
    case Ok(fields) =>
      if Lookup(fields, SUITE_SIG).None? then Err(MissingField(SUITE_SIG))
      else if Lookup(fields, SUITE_AEAD).None? then Err(MissingField(SUITE_AEAD))
      else if Lookup(fields, SUITE_TREE_HASH).None? then Err(MissingField(SUITE_TREE_HASH))
      else Ok(Suite(Ed25519, XChaCha20Poly1305, Blake3))
  }

  /** The writer lets through suites its own reader refuses: all but the one that is executed. */
  lemma {:induction false} SuiteRoundTrip(s: Suite)
    requires EncodeSuite(s).Ok?
    ensures DecodeSuite(EncodeSuite(s).value).Ok? <==> s.sig == Ed25519 && s.aead == XChaCha20Poly1305
    ensures DecodeSuite(EncodeSuite(s).value).Ok? ==> DecodeSuite(EncodeSuite(s).value) == Ok(s)
    ensures |EncodeSuite(s).value| == 21
  {
    hide Emit, Checked, Increasing, Lookup;
    var fs := SuiteFields(s);
    IncreasingByNeighbours(fs);
    CheckedOfEmit(fs, SuiteCheck);
    assert fs[0].tag == SUITE_SIG && fs[1].tag == SUITE_AEAD && fs[2].tag == SUITE_TREE_HASH;
    LookupFound(fs, 0);
    LookupFound(fs, 1);
    LookupFound(fs, 2);
    assert |Emit(fs)| == 21 by {
      assert Emit([]) == [] by { EmitOfNone(); }
      assert fs[..0] == [] && fs[..1] == fs[..0] + [fs[0]] && fs[..2] == fs[..1] + [fs[1]] && fs == fs[..2] + [fs[2]];
      EmitLengthAppend(fs[..0], fs[0]);
      EmitLengthAppend(fs[..1], fs[1]);
      EmitLengthAppend(fs[..2], fs[2]);
    }
    if DecodeSuite(Emit(fs)).Ok? { assert SuiteCheck(fs[0]) == None && SuiteCheck(fs[1]) == None; }
  }

  // ---- Server coordinates ---------------------------------------------------------------

  datatype Authority = Authority(urls: seq<text>, sealingKid: digest, leaseVerifyKey: digest)

  const URLS: u16 := 1
  const SEALING_KID: u16 := 2
  const LEASE_VERIFY_KEY: u16 := 3
  const MAX_URL_LEN: nat := 2048
  const MAX_URLS: nat := 16

  /** The first byte outside printable ASCII without the space. */
  function BadAddress(url: bytes): Option<FormatError> {
    if url == [] then None
    else if !(0x21 <= url[0] <= 0x7E) then Some(BadAddressByte(URLS, url[0]))
    else BadAddress(url[1..])
  }

  function EncodeUrl(url: text): Result<bytes, FormatError> {
    if |url| > MAX_URL_LEN then Err(BadFieldLength(URLS, |url|))
    else if BadAddress(url).Some? then Err(BadAddress(url).value)
    else Ok(url)
  }

  function DecodeUrl(v: bytes): Result<text, FormatError> {
    if |v| > MAX_URL_LEN || !Utf8(v) then Err(BadFieldLength(URLS, |v|))
    else if BadAddress(v).Some? then Err(BadAddress(v).value)
    else Ok(v)
  }

  function UrlEntries(urls: seq<text>): (entries: seq<Entry>)
    requires |urls| <= MAX_URLS
    ensures |entries| == |urls| && Ordered(entries)
  {
    seq(|urls|, i requires 0 <= i < |urls| => Nested(i, EncodeUrl(urls[i])))
  }

  function AuthorityFields(a: Authority, urls: seq<Field>): seq<Field> {
    [Field(URLS, Emit(urls)), Field(SEALING_KID, a.sealingKid), Field(LEASE_VERIFY_KEY, a.leaseVerifyKey)]
  }

  function EncodeAuthority(a: Authority): Result<bytes, FormatError> {
    if |a.urls| > MAX_URLS then Err(BadFieldLength(URLS, |a.urls|))
    else
      match Written(UrlEntries(a.urls))
      case Err(e) => Err(e)
      case Ok(urls) =>
        if AllZero(a.leaseVerifyKey) then Err(DegenerateKey(LEASE_VERIFY_KEY))
        else if AllZero(a.sealingKid) then Err(DegenerateKey(SEALING_KID))
        else Ok(Emit(AuthorityFields(a, urls)))
  }

  function DecodeUrls(v: bytes): Result<seq<text>, FormatError> {
    DecodeList(v, MAX_URLS, URLS, DecodeUrl)
  }

  function AuthorityCheck(f: Field): Option<FormatError> {
    if f.tag == URLS then Failure(DecodeUrls(f.value))
    else if f.tag == SEALING_KID || f.tag == LEASE_VERIFY_KEY then LengthIs(f, 32)
    else UnknownTag(f.tag)
  }

  /** An absent address list is an empty one; the keys must be there and not be zero. */
  function DecodeAuthority(v: bytes): Result<Authority, FormatError> {
    match Checked(v, AuthorityCheck)
    case Err(e) => Err(e)
    case Ok(fields) =>
      var urls, kid, key := Lookup(fields, URLS), Lookup(fields, SEALING_KID), Lookup(fields, LEASE_VERIFY_KEY);
      if kid.None? then Err(MissingField(SEALING_KID))
      else if key.None? then Err(MissingField(LEASE_VERIFY_KEY))
      else if AllZero(AsDigest(kid.value)) then Err(DegenerateKey(SEALING_KID))
      else if AllZero(AsDigest(key.value)) then Err(DegenerateKey(LEASE_VERIFY_KEY))
      else Ok(Authority(if urls.Some? && DecodeUrls(urls.value).Ok? then DecodeUrls(urls.value).value else [],
                        AsDigest(kid.value), AsDigest(key.value)))
  }

  /** Each written address is the field of its position, and parses to itself. */
  lemma {:induction false} UrlWritten(urls: seq<text>, i: nat)
    requires |urls| <= MAX_URLS && Written(UrlEntries(urls)).Ok? && i < |urls|
    ensures var fields := Written(UrlEntries(urls)).value;
            |fields| == |urls| && DecodeUrl(fields[i].value) == Ok(urls[i]) && |fields[i].value| <= MAX_URL_LEN
  {
    hide Written, BadAddress, Utf8;
    var entries := UrlEntries(urls);
    WrittenAll(entries);
    assert entries[i] == Nested(i, EncodeUrl(urls[i]));
  }

  lemma {:induction false} UrlsRoundTrip(urls: seq<text>)
    requires |urls| <= MAX_URLS && Written(UrlEntries(urls)).Ok?
    ensures var fields := Written(UrlEntries(urls)).value;
            Canonical(fields) && |Emit(fields)| <= U32_MAX && DecodeUrls(Emit(fields)) == Ok(urls)
  {
    hide Emit, DecodeList, Written, Increasing, DecodeUrl, UrlEntries;
    var fields := Written(UrlEntries(urls)).value;
    WrittenIs(UrlEntries(urls));
    WrittenAll(UrlEntries(urls)) by { NoneAbsent(urls); }
    forall i | 0 <= i < |urls|
      ensures DecodeUrl(fields[i].value) == Ok(urls[i]) && |fields[i].value| <= MAX_URL_LEN
    {
      UrlWritten(urls, i);
    }
    EmitIsBounded(fields, MAX_URL_LEN);
    DecodeListOf(fields, MAX_URLS, URLS, DecodeUrl);
    var back := DecodeUrls(Emit(fields)).value;
    assert forall i :: 0 <= i < |urls| ==> DecodeUrl(fields[i].value) == Ok(back[i]);
    assert back == urls;
  }

  lemma {:induction false} NoneAbsent(urls: seq<text>)
    requires |urls| <= MAX_URLS
    ensures forall i :: 0 <= i < |urls| ==> UrlEntries(urls)[i].value != Ok(None)
  {
  }

  lemma {:induction false} AuthorityRoundTrip(a: Authority)
    requires EncodeAuthority(a).Ok?
    ensures DecodeAuthority(EncodeAuthority(a).value) == Ok(a)
  {
    hide Emit, Checked, Increasing, Lookup, DecodeUrls, Written;
    UrlsRoundTrip(a.urls);
    var fs := AuthorityFields(a, Written(UrlEntries(a.urls)).value);
    IncreasingByNeighbours(fs);
    CheckedIs(Emit(fs), AuthorityCheck, fs);
    assert fs[0].tag == URLS && fs[1].tag == SEALING_KID && fs[2].tag == LEASE_VERIFY_KEY;
    LookupFound(fs, 0);
    LookupFound(fs, 1);
    LookupFound(fs, 2);
  }

  // ---- The coauthor roster ----------------------------------------------------------------

  datatype Coauthors = Coauthors(threshold: byte, keys: seq<digest>)

  const COAUTHORS: u16 := 0x8001
  const MAX_COAUTHORS: nat := 16
  const THRESHOLD: u16 := 1
  const KEYS: u16 := 2

  predicate Repeats(keys: seq<digest>) {
    exists i, j :: 0 <= i < j < |keys| && keys[i] == keys[j]
  }

  /** Whether the roster can be enforced: the one rule of writer, reader and engine. */
  function CheckRoster(c: Coauthors): Option<FormatError> {
    if c.threshold == 0 then if c.keys == [] then None else Some(BadFieldLength(COAUTHORS, |c.keys|))
    else if c.keys == [] || |c.keys| > MAX_COAUTHORS then Some(BadFieldLength(COAUTHORS, |c.keys|))
    else if c.threshold > |c.keys| then Some(BadFieldLength(COAUTHORS, c.threshold))
    else if Repeats(c.keys) then Some(DegenerateKey(COAUTHORS))
    else None
  }

  /** The comparison of every key with those after it. */
  method ValidateRoster(c: Coauthors) returns (bad: Option<FormatError>)
    ensures bad == CheckRoster(c)
  {
    if c.threshold == 0 {
      return if c.keys == [] then None else Some(BadFieldLength(COAUTHORS, |c.keys|));
    }
    if c.keys == [] || |c.keys| > MAX_COAUTHORS {
      return Some(BadFieldLength(COAUTHORS, |c.keys|));
    }
    if c.threshold > |c.keys| {
      return Some(BadFieldLength(COAUTHORS, c.threshold));
    }
    for i := 0 to |c.keys|
      invariant forall a, b :: 0 <= a < i && a < b < |c.keys| ==> c.keys[a] != c.keys[b]
    {
      for j := i + 1 to |c.keys|
        invariant forall b :: i < b < j ==> c.keys[i] != c.keys[b]
      {
        if c.keys[i] == c.keys[j] {
          return Some(DegenerateKey(COAUTHORS));
        }
      }
    }
    return None;
  }

  function Flat(keys: seq<digest>): (flat: bytes)
    ensures |flat| == 32 * |keys|
  {
    if keys == [] then [] else keys[0] + Flat(keys[1..])
  }

  function Chunks(v: bytes): seq<digest> {
    if |v| < 32 then [] else [v[..32]] + Chunks(v[32..])
  }

  lemma {:induction false} ChunksOfFlat(keys: seq<digest>)
    ensures Chunks(Flat(keys)) == keys
  {
    if keys != [] {
      ChunksOfFlat(keys[1..]);
      assert Flat(keys)[..32] == keys[0] && Flat(keys)[32..] == Flat(keys[1..]);
    }
  }

  /** Without a quorum the key field is absent, not empty. */
  function RosterFields(c: Coauthors): seq<Field> {
    [Field(THRESHOLD, [c.threshold])] + if c.threshold != 0 then [Field(KEYS, Flat(c.keys))] else []
  }

  function EncodeRoster(c: Coauthors): Result<bytes, FormatError> {
    match CheckRoster(c)
    case Some(e) => Err(e)
    case None => Ok(Emit(RosterFields(c)))
  }

  /** Unknown tags inside a roster are refused whatever their range. */
  function RosterCheck(f: Field): Option<FormatError> {
    if f.tag == THRESHOLD then LengthIs(f, 1)
    else if f.tag == KEYS then if f.value == [] || |f.value| % 32 != 0 then Some(BadFieldLength(KEYS, |f.value|)) else None
    else Some(UnknownCriticalField(f.tag))
  }

  function DecodeRoster(v: bytes): Result<Coauthors, FormatError> {
    match Checked(v, RosterCheck)
    case Err(e) => Err(e)
    case Ok(fields) =>
      var threshold, keys := Lookup(fields, THRESHOLD), Lookup(fields, KEYS);
      if threshold.None? || |threshold.value| != 1 then Err(MissingField(THRESHOLD))
      else
        var c := Coauthors(threshold.value[0], if keys.Some? then Chunks(keys.value) else []);
        match CheckRoster(c) case Some(e) => Err(e) case None => Ok(c)
  }

  lemma {:induction false} RosterRoundTrip(c: Coauthors)
    requires EncodeRoster(c).Ok?
    ensures DecodeRoster(EncodeRoster(c).value) == Ok(c)
  {
    hide Emit, Checked, Increasing, Lookup, Chunks, Flat, Repeats;
    var fs := RosterFields(c);
    IncreasingByNeighbours(fs);
    assert Sized(fs);
    CheckedIs(Emit(fs), RosterCheck, fs);
    ChunksOfFlat(c.keys);
    assert fs[0].tag == THRESHOLD;
    LookupFound(fs, 0);
    if c.threshold != 0 {
      assert fs[1].tag == KEYS;
      LookupFound(fs, 1);
    } else {
      LookupAbsent(fs, KEYS);
    }
  }

  /** The writer takes a suite that names RSA-PSS, and the reader refuses it. */
  lemma {:induction false} ForeignSuiteIsRefused()
    ensures var s := Suite(RsaPssSha256, XChaCha20Poly1305, Blake3);
            EncodeSuite(s).Ok? && DecodeSuite(EncodeSuite(s).value).Err?
  {
    hide DecodeSuite;
    SuiteRoundTrip(Suite(RsaPssSha256, XChaCha20Poly1305, Blake3));
  }
}
