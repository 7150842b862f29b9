/**
 * Properties of the codec that relate several operations: the encode/decode round trip and
 * the length condition it needs, the order of decode's checks, prefix isolation between
 * codec names, and the two inputs on which the decoder as written misbehaves.
 */
module CodecProofs {
  import opened Wrappers
  import opened Bytes
  import opened Primitives
  import opened Codec
  import Configuration

  /** A token carries, up to its last `_`, exactly the prefix of the codec that made it. */
  lemma EncodeCarriesPrefix(c: Codec, b: Base62, n: u64)
    requires Valid(c) && LawfulBase62(b)
    ensures ReceivedPrefix(Encode(c, b, n)) == c.prefix
  {
    var token := Encode(c, b, n);
    var digits := token[|c.prefix|..];
    assert token == c.prefix + digits;
    AlphanumericHasNoUnderscore(digits);
    ReceivedPrefixOf(c.prefix, digits);
  }

  /** `decrypt_number` recovers the number from the payload `encrypt_number` made of it. */
  lemma DecryptNumberInverts(c: Codec, n: u64)
    requires Encodable(c)
    ensures DecryptNumber(c, EncryptedPayload(c.ff1, c.hmac, c.hmacLength, c.zeroPadLength, n)) == Ok(n)
  {
    var pt := NumToLeVec(n, c.zeroPadLength);
    assert c.ff1.decrypt(c.ff1.encrypt(pt)) == Some(pt);
  }

  /**
   * Decoding an encoded number gives the number back, for every u64, when either the MAC is
   * shorter than 8 bytes or the zero-pad length is 8.
   */
  lemma {:induction false} RoundTrip(c: Codec, b: Base62, n: u64)
    requires Valid(c) && LawfulBase62(b)
    requires SentinelUnambiguous(c.hmacLength, c.zeroPadLength)
    ensures Decode(c, b, Encode(c, b, n)) == Ok(n)
  {
    var p := EncryptedPayload(c.ff1, c.hmac, c.hmacLength, c.zeroPadLength, n);
    EncodeCarriesPrefix(c, b, n);
    assert Decode(c, b, Encode(c, b, n)) == DecodeBuffer(c, PackedValue(p));
    PackedBufferDecodes(c, n);
  }

  /** The buffer `encode_u128` packs decodes, after the base62 step, to the number. */
  lemma PackedBufferDecodes(c: Codec, n: u64)
    requires Encodable(c)
    requires SentinelUnambiguous(c.hmacLength, c.zeroPadLength)
    ensures DecodeBuffer(c, PackedValue(EncryptedPayload(c.ff1, c.hmac, c.hmacLength, c.zeroPadLength, n))) == Ok(n)
  {
    var p := EncryptedPayload(c.ff1, c.hmac, c.hmacLength, c.zeroPadLength, n);
    var buf := ToLeBytes(PackedValue(p), MAX_BUFFER);
    assert buf == PackedBuffer(p);
    DecryptNumberInverts(c, n);
    if c.hmacLength + c.zeroPadLength < MAX_BUFFER {
      assert |p| < MAX_BUFFER;
      assert buf[..|p|] == p;
    } else {
      assert |p| == MAX_BUFFER;
      assert buf[..MAX_BUFFER] == p;
    }
  }

  /** The round trip for a codec built by `Codec::new` from a configuration. */
  lemma ConfigRoundTrip(name: string, config: Configuration.Config, suite: Suite, b: Base62, n: u64)
    requires Configuration.Valid(config) && LawfulSuite(suite) && LawfulBase62(b)
    requires SentinelUnambiguous(config.hmacLength, config.zeroPadLength)
    ensures var c := New(name, config, suite); Decode(c, b, Encode(c, b, n)) == Ok(n)
  {
    RoundTrip(New(name, config, suite), b, n);
  }

  /**
   * The configurations the tests build (the defaults 4/4, then 0/3 and 8/8 through the
   * setters) are reachable and meet the round trip's length condition.
   */
  lemma TestedConfigurations(key: seq<byte>)
    ensures Configuration.Build(key, []) == Configuration.Ok(Configuration.Config(4, key, 4))
    ensures Configuration.Build(key, [Configuration.SetHmacLength(0), Configuration.SetZeroPadLength(3)])
            == Configuration.Ok(Configuration.Config(0, key, 3))
    ensures Configuration.Build(key, [Configuration.SetHmacLength(8), Configuration.SetZeroPadLength(8)])
            == Configuration.Ok(Configuration.Config(8, key, 8))
    ensures SentinelUnambiguous(4, 4) && SentinelUnambiguous(0, 3) && SentinelUnambiguous(8, 8)
  {
    var s1 := [Configuration.SetHmacLength(0), Configuration.SetZeroPadLength(3)];
    assert s1[..1][..0] == [] && s1[..1] == [s1[0]];
    var s2 := [Configuration.SetHmacLength(8), Configuration.SetZeroPadLength(8)];
    assert s2[..1][..0] == [] && s2[..1] == [s2[0]];
  }

  /**
   * As written, a MAC length of 8 with a zero-pad length below 8 breaks the round trip: a
   * number of 2^56 or more fills all 16 bytes, so no sentinel is written, yet the decoder
   * still looks for one and can then only recover a number of at most 7 bytes (below 2^56).
   */
  lemma MissingSentinelBreaksRoundTrip(c: Codec, b: Base62, n: u64)
    requires Valid(c) && LawfulBase62(b)
    requires c.hmacLength == 8 && c.zeroPadLength < 8
    requires n >= Pow256(7)
    ensures |EncryptedPayload(c.ff1, c.hmac, c.hmacLength, c.zeroPadLength, n)| == MAX_BUFFER
    ensures Decode(c, b, Encode(c, b, n)) != Ok(n)
  {
    NumToLeVecFull(n, c.zeroPadLength);
    var p := EncryptedPayload(c.ff1, c.hmac, c.hmacLength, c.zeroPadLength, n);
    EncodeCarriesPrefix(c, b, n);
    assert Decode(c, b, Encode(c, b, n)) == DecodeBuffer(c, PackedValue(p));
    FullBufferMisdecodes(c, p);
  }

  /** A full 16-byte buffer, read as if it ended in a sentinel, yields less than 2^56. */
  lemma FullBufferMisdecodes(c: Codec, p: seq<byte>)
    requires Encodable(c) && c.hmacLength == 8 && c.zeroPadLength < 8
    requires |p| == MAX_BUFFER
    ensures DecodeBuffer(c, PackedValue(p)).Ok? ==> DecodeBuffer(c, PackedValue(p)).value < Pow256(7)
  {
    var buf := ToLeBytes(PackedValue(p), MAX_BUFFER);
    assert buf == p;
    var length := TopNonzeroIndex(buf);
    if buf[length] == SENTINEL && DecryptNumber(c, buf[..length]).Ok? {
      assert |buf[..length]| >= c.hmacLength;
      Pow256Monotone(length - c.hmacLength, 7);
    }
  }

  /** The setters reach that configuration: `Config::new(key).hmac_length(8)` keeps zero-pad 4. */
  lemma HmacEightAloneIsAmbiguous(key: seq<byte>)
    ensures Configuration.Build(key, [Configuration.SetHmacLength(8)])
            == Configuration.Ok(Configuration.Config(8, key, 4))
    ensures !SentinelUnambiguous(8, 4)
  {
    assert [Configuration.SetHmacLength(8)][..0] == [];
  }

  /** The corrected constructor only builds codecs that round-trip every number. */
  lemma NewCheckedRoundTrip(name: string, config: Configuration.Config, suite: Suite, b: Base62, n: u64)
    requires Configuration.Valid(config) && LawfulSuite(suite) && LawfulBase62(b)
    requires NewChecked(name, config, suite).Some?
    ensures var c := NewChecked(name, config, suite).value; Decode(c, b, Encode(c, b, n)) == Ok(n)
  {
    ConfigRoundTrip(name, config, suite, b, n);
  }

  /**
   * As written, decoding can panic: with no MAC, a base62 token whose buffer holds a 12-byte
   * FF1 ciphertext and then the sentinel passes every check and decrypts to 12 bytes, more than
   * `le_vec_to_num` can copy into its 8-byte array.
   */
  lemma OverlongPayloadPanics(c: Codec, b: Base62)
    requires Valid(c) && LawfulBase62(b) && c.hmacLength == 0
    ensures Decode(c, b, c.prefix + b.encode(PackedValue(c.ff1.encrypt(Zeros(12))))) == Panic
  {
    var ct := c.ff1.encrypt(Zeros(12));
    var digits := b.encode(PackedValue(ct));
    var token := c.prefix + digits;
    AlphanumericHasNoUnderscore(digits);
    ReceivedPrefixOf(c.prefix, digits);
    assert token[|c.prefix|..] == digits;
    var buf := ToLeBytes(PackedValue(ct), MAX_BUFFER);
    assert buf == PackedBuffer(ct);
    assert TopNonzeroIndex(buf) == 12 && buf[12] == SENTINEL;
    assert buf[..12] == ct;
    assert Decode(c, b, token) == DecryptNumber(c, ct);
    assert ct[..12] == ct && ct[12..] == [];
    assert TruncatedMac(c.hmac, ct, 0) == [];
    assert c.ff1.decrypt(ct) == Some(Zeros(12));
  }

  /** The corrected decoder never panics and still round-trips every number. */
  lemma DecodeCheckedRoundTrip(c: Codec, b: Base62, n: u64)
    requires Valid(c) && LawfulBase62(b)
    requires SentinelUnambiguous(c.hmacLength, c.zeroPadLength)
    ensures DecodeChecked(c, b, Encode(c, b, n)) == Ok(n)
  {
    RoundTrip(c, b, n);
  }

  /** A token of a codec named `a` is refused by a same-keyed codec named `b` for its prefix. */
  lemma PrefixIsolation(a: string, bName: string, config: Configuration.Config, suite: Suite, b: Base62, n: u64)
    requires a != bName
    requires Configuration.Valid(config) && LawfulSuite(suite) && LawfulBase62(b)
    ensures Decode(New(bName, config, suite), b, Encode(New(a, config, suite), b, n))
            == Err(InvalidPrefix(a + "_", bName + "_"))
  {
    EncodeCarriesPrefix(New(a, config, suite), b, n);
    assert (a + "_")[..|a|] == a && (bName + "_")[..|bName|] == bName;
  }

  /** Distinct labels: the FF1 and HMAC subkeys never share a label, and each label names one codec. */
  lemma LabelsDistinct(a: string, b: string)
    ensures Ff1Label(a) != HmacLabel(b)
    ensures Ff1Label(a) == Ff1Label(b) ==> a == b
    ensures HmacLabel(a) == HmacLabel(b) ==> a == b
  {
    assert Ff1Label(a)[|Ff1Label(a)| - 1] == '1';
    assert HmacLabel(b)[|HmacLabel(b)| - 1] == 'c';
    if Ff1Label(a) == Ff1Label(b) {
      assert Ff1Label(a)[..|a|] == a && Ff1Label(b)[..|b|] == b;
    }
    if HmacLabel(a) == HmacLabel(b) {
      assert HmacLabel(a)[..|a|] == a && HmacLabel(b)[..|b|] == b;
    }
  }

  /** The received prefixes of the tests' tokens: none, a bare `_`, a wrong name, the right name. */
  lemma ReceivedPrefixNone()
    ensures ReceivedPrefix("hHLBCl4rZ3u") == ""
  {
    assert '_' !in "hHLBCl4rZ3u";
  }

  lemma ReceivedPrefixBare()
    ensures ReceivedPrefix("_hHLBCl4rZ3u") == "_"
  {
    assert '_' !in "hHLBCl4rZ3u";
    ReceivedPrefixOf("_", "hHLBCl4rZ3u");
  }

  lemma ReceivedPrefixWrong()
    ensures ReceivedPrefix("wrong_hHLBCl4rZ3u") == "wrong_"
  {
    assert '_' !in "hHLBCl4rZ3u";
    ReceivedPrefixOf("wrong_", "hHLBCl4rZ3u");
  }

  lemma ReceivedPrefixRight()
    ensures ReceivedPrefix("test_hHLBCl+rZ3u") == "test_"
  {
    assert '_' !in "hHLBCl+rZ3u";
    ReceivedPrefixOf("test_", "hHLBCl+rZ3u");
  }

  /** Decoding the tests' wrongly prefixed tokens reports the received and the expected prefix. */
  lemma PrefixTestVectors(c: Codec, b: Base62)
    requires LawfulMac(c.hmac) && c.hmacLength <= MAC_SIZE && c.prefix == "test_"
    ensures Decode(c, b, "hHLBCl4rZ3u") == Err(InvalidPrefix("", "test_"))
    ensures Decode(c, b, "_hHLBCl4rZ3u") == Err(InvalidPrefix("_", "test_"))
    ensures Decode(c, b, "wrong_hHLBCl4rZ3u") == Err(InvalidPrefix("wrong_", "test_"))
  {
    ReceivedPrefixNone();
    ReceivedPrefixBare();
    ReceivedPrefixWrong();
  }

  /** After the prefix, digits outside the base62 alphabet give `DecodingFailed`. */
  lemma DecodeRejectsNonAlphanumeric(c: Codec, b: Base62, encoded: string)
    requires LawfulMac(c.hmac) && c.hmacLength <= MAC_SIZE && LawfulBase62(b)
    requires ReceivedPrefix(encoded) == c.prefix
    requires !AllAlphanumeric(encoded[|c.prefix|..])
    ensures Decode(c, b, encoded) == Err(DecodingFailed)
  {
  }

  /** The test's token with a `+` in its digits fails to parse. */
  lemma InvalidCharacterTestVector(c: Codec, b: Base62)
    requires LawfulMac(c.hmac) && c.hmacLength <= MAC_SIZE && LawfulBase62(b) && c.prefix == "test_"
    ensures Decode(c, b, "test_hHLBCl+rZ3u") == Err(DecodingFailed)
  {
    ReceivedPrefixRight();
    DigitsOfInvalidToken();
    DecodeRejectsNonAlphanumeric(c, b, "test_hHLBCl+rZ3u");
  }

  lemma DigitsOfInvalidToken()
    ensures !AllAlphanumeric("test_hHLBCl+rZ3u"[5..])
  {
    assert "test_hHLBCl+rZ3u"[5..][6] == '+';
  }

  /**
   * When a sentinel is expected, decoding fails with `SentinelMismatch` carrying the highest
   * non-zero byte exactly when that byte is not the sentinel.
   */
  lemma DecodeSentinelCheck(c: Codec, b: Base62, encoded: string, num: u128)
    requires LawfulMac(c.hmac) && c.hmacLength <= MAC_SIZE
    requires ReceivedPrefix(encoded) == c.prefix
    requires b.decode(encoded[|c.prefix|..]) == Some(num)
    requires c.hmacLength + c.zeroPadLength < MAX_BUFFER
    ensures var buf := ToLeBytes(num, MAX_BUFFER);
      buf[TopNonzeroIndex(buf)] != SENTINEL
      <==> Decode(c, b, encoded) == Err(SentinelMismatch(buf[TopNonzeroIndex(buf)], SENTINEL))
  {
  }

  lemma {:induction false} ToLeBytesOfZero(k: nat)
    ensures ToLeBytes(0, k) == Zeros(k)
  {
    if k > 0 {
      ToLeBytesOfZero(k - 1);
      assert ToLeBytes(0, k) == [0] + Zeros(k - 1);
    }
  }

  /** An all-zero buffer has no sentinel: the mismatch reports the byte 0. */
  lemma DecodeZeroBuffer(c: Codec, b: Base62, encoded: string)
    requires LawfulMac(c.hmac) && c.hmacLength <= MAC_SIZE
    requires ReceivedPrefix(encoded) == c.prefix
    requires b.decode(encoded[|c.prefix|..]) == Some(0)
    requires c.hmacLength + c.zeroPadLength < MAX_BUFFER
    ensures Decode(c, b, encoded) == Err(SentinelMismatch(0, SENTINEL))
  {
    ToLeBytesOfZero(MAX_BUFFER);
  }

  /** The buffer of the u128 value 1 holds only the sentinel, at index 0. */
  lemma SentinelOnlyBuffer()
    ensures TopNonzeroIndex(ToLeBytes(1, MAX_BUFFER)) == 0
    ensures ToLeBytes(1, MAX_BUFFER)[0] == SENTINEL
  {
    ToLeBytesOfZero(MAX_BUFFER - 1);
    assert ToLeBytes(1, MAX_BUFFER) == [1] + Zeros(MAX_BUFFER - 1);
  }

  /**
   * Under the cipher laws decryption is total, so an empty ciphertext decrypts to no bytes:
   * with MAC length 0 and zero-pad length 0, the token whose buffer holds only the sentinel
   * (the u128 value 1) decodes to 0. FF1, which rejects numeral strings below its minimum
   * length, makes the same token fail with `DecryptionFailed`.
   */
  lemma EmptyCiphertextDecodes(c: Codec, b: Base62)
    requires Valid(c) && LawfulBase62(b)
    requires c.hmacLength == 0 && c.zeroPadLength == 0
    ensures Decode(c, b, c.prefix + b.encode(1)) == Ok(0)
  {
    var token := c.prefix + b.encode(1);
    AlphanumericHasNoUnderscore(b.encode(1));
    ReceivedPrefixOf(c.prefix, b.encode(1));
    assert token[|c.prefix|..] == b.encode(1);
    SentinelOnlyBuffer();
    assert |c.ff1.encrypt([])| == 0;
    assert c.ff1.decrypt(c.ff1.encrypt([])) == Some([]);
    assert c.ff1.decrypt([]) == Some([]);
    assert TruncatedMac(c.hmac, [], 0) == [];
  }

  /** The preconditions of the round-trip theorems can all be met at once. */
  lemma RoundTripPreconditionsSatisfiable()
    ensures var c := New("test", Configuration.New([]), IdentitySuite());
      Valid(c) && SentinelUnambiguous(c.hmacLength, c.zeroPadLength)
    ensures LawfulBase62(UnaryBase62())
  {
    IdentitySuiteLawful();
    UnaryBase62Lawful();
  }

  /**
   * After the prefix check, decode's remaining checks are base62 parsing, the sentinel check
   * and then those of `decrypt_number`, applied to the payload bytes below the sentinel (or
   * to all 16 bytes when no sentinel is expected).
   */
  lemma DecodeReachesDecryptNumber(c: Codec, b: Base62, encoded: string)
    requires LawfulMac(c.hmac) && c.hmacLength <= MAC_SIZE
    requires ReceivedPrefix(encoded) == c.prefix
    ensures b.decode(encoded[|c.prefix|..]).None? ==> Decode(c, b, encoded) == Err(DecodingFailed)
    ensures b.decode(encoded[|c.prefix|..]).Some? ==>
      var buf := ToLeBytes(b.decode(encoded[|c.prefix|..]).value, MAX_BUFFER);
      if c.hmacLength + c.zeroPadLength < MAX_BUFFER then
        buf[TopNonzeroIndex(buf)] == SENTINEL ==>
          Decode(c, b, encoded) == DecryptNumber(c, buf[..TopNonzeroIndex(buf)])
      else
        Decode(c, b, encoded) == DecryptNumber(c, buf)
  {
  }
}
