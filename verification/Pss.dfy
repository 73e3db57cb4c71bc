/**
  EMSA-PSS with SHA-256 over a 2048-bit modulus: the encoder and the verifier of sections
  9.1.1 and 9.1.2 of RFC 8017. The hash and the public RSA operation are parameters.
 */
module Pss {
  import opened Bytes
  import opened Hashing

  type octets = seq<bv8>

  const EM_LEN: nat := 256
  const HLEN: nat := 32
  const SLEN: nat := 32
  const DB_LEN: nat := 223
  const PS_LEN: nat := 190

  /** SHA-256 as far as this module knows it: any function with 32-byte results. */
  ghost predicate IsDigest(hash: octets -> octets) {
    forall x: octets :: |hash(x)| == HLEN
  }

  // ---- The mask --------------------------------------------------------------------

  /** The 32-bit block counter, big-endian, wrapping. */
  function CounterBytes(block: nat): (c: octets)
    ensures |c| == 4
  {
    var v := block % 0x1_0000_0000;
    [(v / 0x100_0000) as bv8, (v / 0x1_0000 % 0x100) as bv8, (v / 0x100 % 0x100) as bv8, (v % 0x100) as bv8]
  }

  /** Byte `j` of the mask generated from `seed` (section B.2.1 of RFC 8017). */
  function MaskByte(hash: octets -> octets, seed: octets, j: nat): bv8
    requires IsDigest(hash)
  {
    hash(seed + CounterBytes(j / HLEN))[j % HLEN]
  }

  /** `mgf1`: hash block after block into the buffer, the last block cut to fit. */
  method Mgf1(hash: octets -> octets, seed: octets, out: array<bv8>)
    requires IsDigest(hash)
    modifies out
    ensures forall j :: 0 <= j < out.Length ==> out[j] == MaskByte(hash, seed, j)
  {
    var block := 0;
    while block * HLEN < out.Length
      invariant forall j :: 0 <= j < out.Length && j < block * HLEN ==> out[j] == MaskByte(hash, seed, j)
      decreases out.Length - block * HLEN
    {
      var digest := hash(seed + CounterBytes(block));
      var from := block * HLEN;
      var room := if out.Length - from < HLEN then out.Length - from else HLEN;
      var k := 0;
      while k < room
        invariant 0 <= k <= room
        invariant forall j :: 0 <= j < from + k ==> out[j] == MaskByte(hash, seed, j)
      {
        assert (from + k) / HLEN == block && (from + k) % HLEN == k;
        out[from + k] := digest[k];
        k := k + 1;
      }
      block := block + 1;
    }
  }

  // ---- The encoding ----------------------------------------------------------------

  function SaltedHash(hash: octets -> octets, message: octets, salt: octets): octets {
    hash([0, 0, 0, 0, 0, 0, 0, 0] + hash(message) + salt)
  }

  /** Byte `j` of the data block: zeros, a one, the salt. */
  function DataByte(salt: octets, j: nat): bv8
    requires |salt| == SLEN && j < DB_LEN
  {
    if j < PS_LEN then 0 else if j == PS_LEN then 1 else salt[j - PS_LEN - 1]
  }

  /** `em` is the encoding of the message under this salt. */
  ghost predicate Encodes(hash: octets -> octets, message: octets, salt: octets, em: octets)
    requires IsDigest(hash)
  {
    && |salt| == SLEN && |em| == EM_LEN
    && em[EM_LEN - 1] == 0xbc
    && em[DB_LEN..EM_LEN - 1] == SaltedHash(hash, message, salt)
    && em[0] == (DataByte(salt, 0) ^ MaskByte(hash, em[DB_LEN..EM_LEN - 1], 0)) & 0x7f
    && forall j :: 1 <= j < DB_LEN ==> em[j] == DataByte(salt, j) ^ MaskByte(hash, em[DB_LEN..EM_LEN - 1], j)
  }

  /** The mask, and a clear top bit in the first byte. */
  function Masked(data: bv8, mask: bv8, j: nat): bv8 {
    if j == 0 then (data ^ mask) & 0x7f else data ^ mask
  }

  /** Byte `j` of an encoding around the salted hash `h`, spelled out (sections 9.1.1 and B.2.1 of RFC 8017). */
  function EncodedByte(hash: octets -> octets, h: octets, salt: octets, j: nat): bv8
    requires IsDigest(hash) && |salt| == 32 && j < 223
  {
    var data := if j < 190 then 0 else if j == 190 then 1 else salt[j - 191];
    var mask := hash(h + [0, 0, 0, (j / 32) as bv8])[j % 32];
    Masked(data, mask, j)
  }

  /** An encoding is the masked data block, the salted hash of the message hash, and the trailer. */
  lemma {:induction false} EncodesMeans(hash: octets -> octets, message: octets, salt: octets, em: octets)
    requires IsDigest(hash)
    ensures Encodes(hash, message, salt, em) <==>
            && |salt| == 32 && |em| == 256 && em[255] == 0xbc
            && em[223..255] == hash([0, 0, 0, 0, 0, 0, 0, 0] + hash(message) + salt)
            && forall j :: 0 <= j < 223 ==> em[j] == EncodedByte(hash, em[223..255], salt, j)
  {
    hide MaskByte, DataByte, EncodedByte;
    if |salt| == 32 && |em| == 256 {
      var h := em[223..255];
      forall j | 0 <= j < 223
        ensures EncodedByte(hash, h, salt, j) == Masked(DataByte(salt, j), MaskByte(hash, h, j), j)
      {
        ByteMeans(hash, h, salt, j);
      }
    }
  }

  lemma {:induction false} ByteMeans(hash: octets -> octets, h: octets, salt: octets, j: nat)
    requires IsDigest(hash) && |salt| == 32 && j < 223
    ensures EncodedByte(hash, h, salt, j) == Masked(DataByte(salt, j), MaskByte(hash, h, j), j)
  {
    hide MaskByte, DataByte, Masked;
    MaskOfFewBlocks(hash, h, j);
    DataMeans(salt, j);
  }

  lemma {:induction false} DataMeans(salt: octets, j: nat)
    requires |salt| == SLEN && j < DB_LEN
    ensures DataByte(salt, j) == if j < 190 then 0 else if j == 190 then 1 else salt[j - 191]
  {
  }

  lemma {:induction false} DigitsOfByte(b: nat)
    requires b < 0x100
    ensures b % 0x1_0000_0000 == b && b / 0x100_0000 == 0 && b / 0x1_0000 % 0x100 == 0 && b / 0x100 % 0x100 == 0 && b % 0x100 == b
  {
  }

  lemma {:induction false} SmallCounter(b: nat)
    requires b < 0x100
    ensures CounterBytes(b) == [0, 0, 0, b as bv8]
  {
    DigitsOfByte(b);
  }

  lemma {:induction false} MaskOfFewBlocks(hash: octets -> octets, seed: octets, j: nat)
    requires IsDigest(hash) && j < 0x2000
    ensures MaskByte(hash, seed, j) == hash(seed + [0, 0, 0, (j / 32) as bv8])[j % 32]
  {
    hide CounterBytes;
    SmallCounter(j / 32);
  }

  /** The counter of a block is four bytes, the most significant first. */
  lemma {:induction false} MaskMeans(hash: octets -> octets, seed: octets, j: nat)
    requires IsDigest(hash) && j / 32 < 0x1_0000_0000
    ensures var b := j / 32;
            MaskByte(hash, seed, j) ==
            hash(seed + [(b / 0x100_0000) as bv8, (b / 0x1_0000 % 0x100) as bv8, (b / 0x100 % 0x100) as bv8, (b % 0x100) as bv8])[j % 32]
  {
  }

  /** What is hashed into an encoding: eight zeros, the hash of the message, the salt. */
  function SaltedInput(hash: octets -> octets, message: octets, salt: octets): octets {
    [0, 0, 0, 0, 0, 0, 0, 0] + hash(message) + salt
  }

  /**
    An encoding binds its message: one encoding of two messages holds a collision of the hash,
    between the messages or between the two inputs built from their hashes and the salts.
   */
  lemma {:induction false} EncodingBindsMessage(hash: octets -> octets, m: octets, s: octets, m': octets, s': octets, em: octets)
    returns (x: octets, y: octets)
    requires IsDigest(hash) && Encodes(hash, m, s, em) && Encodes(hash, m', s', em) && m != m'
    ensures x != y && hash(x) == hash(y)
    ensures (x == m && y == m')
            || (x == [0, 0, 0, 0, 0, 0, 0, 0] + hash(m) + s && y == [0, 0, 0, 0, 0, 0, 0, 0] + hash(m') + s')
  {
    EncodesMeans(hash, m, s, em);
    EncodesMeans(hash, m', s', em);
    hide Encodes;
    if hash(m) == hash(m') {
      x, y := m, m';
    } else {
      x, y := SaltedInput(hash, m, s), SaltedInput(hash, m', s');
      assert x[8..40] == hash(m) && y[8..40] == hash(m');
    }
  }

  /** The encoding is a function of message and salt. */
  lemma {:induction false} EncodingIsUnique(hash: octets -> octets, message: octets, salt: octets, a: octets, b: octets)
    requires IsDigest(hash) && Encodes(hash, message, salt, a) && Encodes(hash, message, salt, b)
    ensures a == b
  {
    forall j | 0 <= j < EM_LEN
      ensures a[j] == b[j]
    {
      if DB_LEN <= j < EM_LEN - 1 {
        assert a[DB_LEN..EM_LEN - 1][j - DB_LEN] == b[DB_LEN..EM_LEN - 1][j - DB_LEN];
      }
    }
  }

  /** The signer's encoder, filling `db`, `mask` and `em` in place. */
  method Encode(hash: octets -> octets, message: octets, salt: octets) returns (em: octets)
    requires IsDigest(hash) && |salt| == SLEN
    ensures Encodes(hash, message, salt, em)
  {
    hide MaskByte;
    var h := SaltedHash(hash, message, salt);
    var db := new bv8[DB_LEN](_ => 0);
    db[PS_LEN] := 1;
    forall j | PS_LEN + 1 <= j < DB_LEN {
      db[j] := salt[j - PS_LEN - 1];
    }
    assert forall j :: 0 <= j < DB_LEN ==> db[j] == DataByte(salt, j);
    var mask := new bv8[DB_LEN];
    Mgf1(hash, h, mask);
    forall j | 0 <= j < DB_LEN {
      db[j] := db[j] ^ mask[j];
    }
    db[0] := db[0] & 0x7f;
    em := db[..] + h + [0xbc];
    assert em[DB_LEN..EM_LEN - 1] == h;
  }

  // ---- The verifier ----------------------------------------------------------------

  lemma {:induction false} XorCancels(m: bv8, d: bv8, x: bv8)
    ensures m ^ x == d <==> x == d ^ m
  {
  }

  lemma {:induction false} TopBitCleared(m: bv8, x: bv8)
    ensures (m ^ x) & 0x7f == 0 && x & 0x80 == 0 <==> x == (0 ^ m) & 0x7f
  {
  }

  /** What the verifier holds after removing the mask. */
  ghost predicate Unmasked(hash: octets -> octets, em: octets, plain: octets)
    requires IsDigest(hash) && |em| == EM_LEN
  {
    && |plain| == DB_LEN
    && var h := em[DB_LEN..EM_LEN - 1];
       && plain[0] == (MaskByte(hash, h, 0) ^ em[0]) & 0x7f
       && forall j :: 1 <= j < DB_LEN ==> plain[j] == MaskByte(hash, h, j) ^ em[j]
  }

  lemma {:induction false} UnmaskedIsData(hash: octets -> octets, message: octets, salt: octets, em: octets, plain: octets)
    requires IsDigest(hash) && Encodes(hash, message, salt, em) && Unmasked(hash, em, plain)
    ensures forall j :: 0 <= j < DB_LEN ==> plain[j] == DataByte(salt, j)
  {
    var h := em[DB_LEN..EM_LEN - 1];
    forall j | 0 <= j < DB_LEN
      ensures plain[j] == DataByte(salt, j)
    {
      XorCancels(MaskByte(hash, h, j), DataByte(salt, j), em[j]);
      TopBitCleared(MaskByte(hash, h, 0), em[0]);
    }
  }

  lemma {:induction false} DataIsMasked(hash: octets -> octets, message: octets, salt: octets, em: octets, plain: octets)
    requires IsDigest(hash) && |em| == EM_LEN && |salt| == SLEN && Unmasked(hash, em, plain)
    requires forall j :: 0 <= j < DB_LEN ==> plain[j] == DataByte(salt, j)
    requires em[EM_LEN - 1] == 0xbc && em[0] & 0x80 == 0
    requires em[DB_LEN..EM_LEN - 1] == SaltedHash(hash, message, salt)
    ensures Encodes(hash, message, salt, em)
  {
    var h := em[DB_LEN..EM_LEN - 1];
    TopBitCleared(MaskByte(hash, h, 0), em[0]);
    forall j | 1 <= j < DB_LEN
      ensures em[j] == DataByte(salt, j) ^ MaskByte(hash, h, j)
    {
      XorCancels(MaskByte(hash, h, j), DataByte(salt, j), em[j]);
    }
  }

  /** The conditions the verifier tests. */
  predicate Checks(hash: octets -> octets, message: octets, em: octets, plain: octets)
    requires |em| == EM_LEN && |plain| == DB_LEN
  {
    && em[EM_LEN - 1] == 0xbc
    && em[0] & 0x80 == 0
    && (forall j :: 0 <= j < PS_LEN ==> plain[j] == 0)
    && plain[PS_LEN] == 1
    && SaltedHash(hash, message, plain[PS_LEN + 1..]) == em[DB_LEN..EM_LEN - 1]
  }

  /** The verifier's conditions single out exactly the image of the encoder. */
  lemma {:induction false} ChecksAreExact(hash: octets -> octets, message: octets, em: octets, plain: octets)
    requires IsDigest(hash) && |em| == EM_LEN && Unmasked(hash, em, plain)
    ensures Checks(hash, message, em, plain) <==> exists salt: octets :: Encodes(hash, message, salt, em)
  {
    hide MaskByte, SaltedHash;
    forall salt: octets | Encodes(hash, message, salt, em)
      ensures Checks(hash, message, em, plain)
    {
      UnmaskedIsData(hash, message, salt, em, plain);
      TopBitCleared(MaskByte(hash, em[DB_LEN..EM_LEN - 1], 0), em[0]);
      assert plain[PS_LEN + 1..] == salt;
    }
    if Checks(hash, message, em, plain) {
      DataIsMasked(hash, message, plain[PS_LEN + 1..], em, plain);
    }
  }

  /** Remove the mask from the first 223 bytes. */
  method Unmask(hash: octets -> octets, em: octets) returns (plain: octets)
    requires IsDigest(hash) && |em| == EM_LEN
    ensures Unmasked(hash, em, plain)
  {
    var maskedDb, h := em[..DB_LEN], em[DB_LEN..EM_LEN - 1];
    var db := new bv8[DB_LEN];
    Mgf1(hash, h, db);
    forall j | 0 <= j < DB_LEN {
      db[j] := db[j] ^ maskedDb[j];
    }
    db[0] := db[0] & 0x7f;
    return db[..];
  }

  /** The checks the verifier makes on an encoded message. */
  method CheckEncoding(hash: octets -> octets, message: octets, em: octets) returns (ok: bool)
    requires IsDigest(hash) && |em| == EM_LEN
    ensures ok <==> exists salt: octets :: Encodes(hash, message, salt, em)
  {
    hide Encodes, Unmasked, SaltedHash;
    var plain := Unmask(hash, em);
    UnmaskedLength(hash, em, plain);
    ChecksAreExact(hash, message, em, plain);
    if em[EM_LEN - 1] != 0xbc || em[0] & 0x80 != 0 {
      return false;
    }
    var i := 0;
    while i < PS_LEN
      invariant 0 <= i <= PS_LEN
      invariant forall j :: 0 <= j < i ==> plain[j] == 0
    {
      if plain[i] != 0 {
        return false;
      }
      i := i + 1;
    }
    if plain[PS_LEN] != 1 {
      return false;
    }
    var salt := plain[PS_LEN + 1..];
    return SaltedHash(hash, message, salt) == em[DB_LEN..EM_LEN - 1];
  }

  lemma {:induction false} UnmaskedLength(hash: octets -> octets, em: octets, plain: octets)
    requires IsDigest(hash) && |em| == EM_LEN && Unmasked(hash, em, plain)
    ensures |plain| == DB_LEN
  {
  }

  /**
    Signature verification around the public operation, which refuses a signature that is not
    below the modulus and an even modulus.
   */
  method VerifyPss(hash: octets -> octets, publicOp: octets -> Result<octets, CryptoError>, message: octets, signature: octets)
    returns (r: Result<(), CryptoError>)
    requires IsDigest(hash)
    ensures r == if |signature| != EM_LEN then Err(BadLength)
                 else match publicOp(signature)
                      case Err(e) => Err(e)
                      case Ok(em) =>
                        if |em| != EM_LEN then Err(BadLength)
                        else if exists salt: octets :: Encodes(hash, message, salt, em) then Ok(())
                        else Err(BadSignature)
  {
    if |signature| != EM_LEN {
      return Err(BadLength);
    }
    var recovered := publicOp(signature);
    if recovered.Err? {
      return Err(recovered.error);
    }
    var em := recovered.value;
    if |em| != EM_LEN {
      return Err(BadLength);
    }
    var ok := CheckEncoding(hash, message, em);
    return if ok then Ok(()) else Err(BadSignature);
  }
}
