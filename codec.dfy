/**
 * The encoder/decoder of src/codec.rs. A number is written little-endian with trailing zero
 * bytes dropped (but never below the zero-pad length), encrypted with length-preserving FF1,
 * followed by a truncated HMAC of the ciphertext, placed in a 16-byte little-endian buffer
 * with a sentinel byte 1 right after the payload when there is room, and rendered as base62
 * behind the prefix "<name>_". Decoding undoes these steps with ordered, short-circuiting
 * checks.
 */
module Codec {
  import opened Wrappers
  import opened Bytes
  import opened Primitives
  import Configuration

  /** Bytes in the packed buffer: the width of a u128. */
  const MAX_BUFFER: nat := 16
  /** Marks the end of a payload shorter than the buffer. */
  const SENTINEL: byte := 1
  /** Bytes in a u64. */
  const U64_BYTES: nat := 8

  datatype Error =
    | DecodingFailed
    | DecryptionFailed
    | EncryptionFailed
    | IncorrectMAC
    | InvalidDataLength
    | InvalidPrefix(receivedPrefix: string, expectedPrefix: string)
    | SentinelMismatch(receivedByte: byte, expectedByte: byte)

  /**
   * What a call of `decode` does: return a number, return an error, or panic (the slice
   * copy in `le_vec_to_num` when the decrypted bytes are longer than 8).
   */
  datatype Outcome = Ok(value: u64) | Err(error: Error) | Panic

  /** A codec: keyed FF1 and HMAC states, the two lengths and the text prefix. */
  datatype Codec = Codec(ff1: Cipher, hmac: Mac, hmacLength: nat, prefix: string, zeroPadLength: nat)

  /** The library laws hold for the codec's keyed state and its lengths are those a `Config` allows. */
  ghost predicate Encodable(c: Codec) {
    && LawfulCipher(c.ff1)
    && LawfulMac(c.hmac)
    && c.hmacLength <= Configuration.MAX_LENGTH
    && c.zeroPadLength <= Configuration.MAX_LENGTH
  }

  /** Every codec `New` builds from a valid configuration: encodable, and the prefix ends in `_`. */
  ghost predicate Valid(c: Codec) {
    Encodable(c) && |c.prefix| > 0 && c.prefix[|c.prefix| - 1] == '_'
  }

  /** The HKDF labels of the two subkeys of a codec name. */
  function Ff1Label(name: string): string {
    name + "/ff1"
  }

  function HmacLabel(name: string): string {
    name + "/hmac"
  }

  /**
   * `Codec::new`: expands the master key under the two labels and keys FF1 and HMAC with the
   * results; the lengths are copied from the configuration.
   */
  function New(name: string, config: Configuration.Config, suite: Suite): (c: Codec)
    ensures Configuration.Valid(config) && LawfulSuite(suite) ==> Valid(c)
    ensures c.prefix == name + "_"
    ensures c.hmacLength == config.hmacLength && c.zeroPadLength == config.zeroPadLength
  {
    Codec(
      suite.ff1(suite.expand(config.key, Ff1Label(name))),
      suite.hmac(suite.expand(config.key, HmacLabel(name))),
      config.hmacLength,
      name + "_",
      config.zeroPadLength)
  }

  /**
   * The index of the highest non-zero byte, or 0 when every byte is zero: everything above
   * the index is zero, and the byte at the index is zero only when all bytes are.
   */
  function TopNonzeroIndex(s: seq<byte>): (r: nat)
    ensures |s| > 0 ==> r < |s|
    ensures |s| == 0 ==> r == 0
    ensures forall j :: r < j < |s| ==> s[j] == 0
    ensures r < |s| && s[r] == 0 ==> r == 0 && forall j :: 0 <= j < |s| ==> s[j] == 0
  {
    if s == [] then 0
    else if s[|s| - 1] != 0 then |s| - 1
    else TopNonzeroIndex(s[..|s| - 1])
  }

  /** `last_nonzero`: the reverse scan of `rposition`, defaulting to 0. */
  method LastNonzero(bytes: seq<byte>) returns (index: nat)
    ensures index == TopNonzeroIndex(bytes)
  {
    var i := |bytes|;
    assert bytes[..i] == bytes;
    while i > 0 && bytes[i - 1] == 0
      invariant i <= |bytes|
      invariant TopNonzeroIndex(bytes[..i]) == TopNonzeroIndex(bytes)
    {
      assert bytes[..i][..i - 1] == bytes[..i - 1];
      i := i - 1;
    }
    index := if i == 0 then 0 else i - 1;
  }

  function Max(a: nat, b: nat): nat {
    if a >= b then a else b
  }

  /**
   * `num_to_le_vec`: the little-endian bytes of `num` without its high zero bytes, but at
   * least `minLength` of them; they read back as `num`.
   */
  function NumToLeVec(num: u64, minLength: nat): (r: seq<byte>)
    requires minLength <= U64_BYTES
    ensures |r| == Max(TopNonzeroIndex(ToLeBytes(num, U64_BYTES)) + 1, minLength)
    ensures Max(1, minLength) <= |r| <= U64_BYTES
    ensures |r| > Max(1, minLength) ==> r[|r| - 1] != 0
    ensures FromLeBytes(r) == num
  {
    var bytes := ToLeBytes(num, U64_BYTES);
    var prefixLength := Max(TopNonzeroIndex(bytes) + 1, minLength);
    Pow256Values();
    FromToLeBytes(num, U64_BYTES);
    FromLeBytesTrim(bytes, prefixLength);
    bytes[..prefixLength]
  }

  /** A number of 2^56 or more keeps all 8 of its bytes. */
  lemma NumToLeVecFull(num: u64, minLength: nat)
    requires minLength <= U64_BYTES
    requires num >= Pow256(7)
    ensures |NumToLeVec(num, minLength)| == U64_BYTES
  {
    var bytes := ToLeBytes(num, U64_BYTES);
    FromToLeBytes(num, U64_BYTES) by { Pow256Values(); }
    FromLeBytesTopByte(bytes);
  }

  /**
   * The payload `encrypt_number` produces: the FF1 ciphertext of the trimmed number followed
   * by the first `hmacLength` bytes of its HMAC.
   */
  function EncryptedPayload(ff1: Cipher, hmac: Mac, hmacLength: nat, zeroPadLength: nat, num: u64): (r: seq<byte>)
    requires LawfulCipher(ff1) && LawfulMac(hmac)
    requires hmacLength <= MAC_SIZE && zeroPadLength <= U64_BYTES
    ensures |r| == |NumToLeVec(num, zeroPadLength)| + hmacLength
    ensures Max(1, zeroPadLength) + hmacLength <= |r| <= U64_BYTES + hmacLength
    ensures zeroPadLength == U64_BYTES ==> |r| == U64_BYTES + hmacLength
    ensures r[..|r| - hmacLength] == ff1.encrypt(NumToLeVec(num, zeroPadLength))
    ensures r[|r| - hmacLength..] == TruncatedMac(hmac, r[..|r| - hmacLength], hmacLength)
  {
    var encryptedNum := ff1.encrypt(NumToLeVec(num, zeroPadLength));
    encryptedNum + TruncatedMac(hmac, encryptedNum, hmacLength)
  }

  /** `to_vec` then `extend_from_slice`: copies both byte strings into one fresh buffer. */
  method Concat(front: seq<byte>, back: seq<byte>) returns (result: seq<byte>)
    ensures |result| == |front| + |back|
    ensures result[..|front|] == front && result[|front|..] == back
  {
    var buf := new byte[|front| + |back|](_ => 0);
    for i := 0 to |front|
      invariant forall j :: 0 <= j < i ==> buf[j] == front[j]
    {
      buf[i] := front[i];
    }
    for i := 0 to |back|
      invariant forall j :: 0 <= j < |front| ==> buf[j] == front[j]
      invariant forall j :: 0 <= j < i ==> buf[|front| + j] == back[j]
    {
      buf[|front| + i] := back[i];
    }
    result := buf[..];
  }

  /** `encrypt_number`: encrypts, then extends a copy of the ciphertext with the truncated MAC. */
  method EncryptNumber(ff1: Cipher, hmac: Mac, hmacLength: nat, zeroPadLength: nat, num: u64)
    returns (result: seq<byte>)
    requires LawfulCipher(ff1) && LawfulMac(hmac)
    requires hmacLength <= MAC_SIZE && zeroPadLength <= U64_BYTES
    ensures result == EncryptedPayload(ff1, hmac, hmacLength, zeroPadLength, num)
  {
    var pt := NumToLeVec(num, zeroPadLength);
    var encryptedNum := ff1.encrypt(pt);
    var truncatedMac := TruncatedMac(hmac, encryptedNum, hmacLength);
    result := Concat(encryptedNum, truncatedMac);
    assert result == encryptedNum + truncatedMac;
  }

  /**
   * The 16-byte buffer `encode_u128` fills: the payload at offset 0, then, when it is shorter
   * than 16 bytes, the sentinel and zeros, so that the sentinel is the highest non-zero byte.
   */
  function PackedBuffer(payload: seq<byte>): (buf: seq<byte>)
    requires |payload| <= MAX_BUFFER
    ensures |buf| == MAX_BUFFER
    ensures buf[..|payload|] == payload
    ensures |payload| < MAX_BUFFER ==> buf[|payload|] == SENTINEL
    ensures forall j :: |payload| < j < MAX_BUFFER ==> buf[j] == 0
    ensures |payload| < MAX_BUFFER ==> TopNonzeroIndex(buf) == |payload|
  {
    if |payload| < MAX_BUFFER then payload + [SENTINEL] + Zeros(MAX_BUFFER - |payload| - 1)
    else payload
  }

  /** The buffer read as a little-endian u128; its 16 bytes are the buffer again. */
  function PackedValue(payload: seq<byte>): (v: u128)
    requires |payload| <= MAX_BUFFER
    ensures ToLeBytes(v, MAX_BUFFER) == PackedBuffer(payload)
  {
    Pow256Values();
    ToFromLeBytes(PackedBuffer(payload));
    FromLeBytes(PackedBuffer(payload))
  }

  /** `encode_u128`: fills a zeroed 16-byte array with the payload and the sentinel. */
  method EncodeU128(c: Codec, num: u64) returns (v: u128)
    requires Encodable(c)
    ensures v == PackedValue(EncryptedPayload(c.ff1, c.hmac, c.hmacLength, c.zeroPadLength, num))
  {
    var bytes := EncryptNumber(c.ff1, c.hmac, c.hmacLength, c.zeroPadLength, num);
    var numArray := new byte[MAX_BUFFER](_ => 0);
    for i := 0 to |bytes|
      invariant forall j :: 0 <= j < i ==> numArray[j] == bytes[j]
      invariant forall j :: i <= j < MAX_BUFFER ==> numArray[j] == 0
    {
      numArray[i] := bytes[i];
    }
    if |bytes| < numArray.Length {
      numArray[|bytes|] := SENTINEL;
    }
    assert numArray[..] == PackedBuffer(bytes);
    Pow256Values();
    v := FromLeBytes(numArray[..]);
  }

  /** `str::rfind`: the last position of `ch`. */
  function RFind(s: string, ch: char): (r: Option<nat>)
    ensures r.Some? ==> r.value < |s| && s[r.value] == ch
    ensures r.Some? ==> forall j :: r.value < j < |s| ==> s[j] != ch
    ensures r.None? ==> forall j :: 0 <= j < |s| ==> s[j] != ch
  {
    if s == [] then None
    else if s[|s| - 1] == ch then Some(|s| - 1)
    else RFind(s[..|s| - 1], ch)
  }

  /**
   * The prefix `decode` compares: the text up to and including the last `_`, or the empty
   * string when there is no `_`.
   */
  function ReceivedPrefix(encoded: string): (received: string)
    ensures |received| <= |encoded| && received == encoded[..|received|]
    ensures received == [] <==> '_' !in encoded
    ensures received != [] ==> received[|received| - 1] == '_' && '_' !in encoded[|received|..]
  {
    match RFind(encoded, '_')
    case None => ""
    case Some(i) => encoded[..i + 1]
  }

  /** `encode`: the prefix followed by the base62 rendering of the packed buffer. */
  function Encode(c: Codec, base62: Base62, num: u64): (token: string)
    requires Encodable(c)
    ensures |c.prefix| <= |token| && token[..|c.prefix|] == c.prefix
    ensures LawfulBase62(base62) ==>
      base62.decode(token[|c.prefix|..])
      == Some(PackedValue(EncryptedPayload(c.ff1, c.hmac, c.hmacLength, c.zeroPadLength, num)))
    ensures LawfulBase62(base62) ==> AllAlphanumeric(token[|c.prefix|..])
  {
    var digits := base62.encode(PackedValue(EncryptedPayload(c.ff1, c.hmac, c.hmacLength, c.zeroPadLength, num)));
    assert (c.prefix + digits)[|c.prefix|..] == digits;
    c.prefix + digits
  }

  /** The received prefix is the given one when that ends in `_` and the rest contains none. */
  lemma ReceivedPrefixOf(prefix: string, tail: string)
    requires |prefix| > 0 && prefix[|prefix| - 1] == '_'
    requires '_' !in tail
    ensures ReceivedPrefix(prefix + tail) == prefix
  {
    var s := prefix + tail;
    assert s[|prefix|..] == tail;
  }

  /** Base62 digits never contain the `_` that separates them from the prefix. */
  lemma AlphanumericHasNoUnderscore(s: string)
    requires AllAlphanumeric(s)
    ensures '_' !in s
  {
    forall i | 0 <= i < |s| ensures s[i] != '_' {
      assert IsAlphanumeric(s[i]);
    }
  }

  /** `encode_uuid`: the payload with 8 MAC bytes and 8 plaintext bytes fills the 16 bytes exactly. */
  function EncodeUuid(c: Codec, num: u64): (v: u128)
    requires LawfulCipher(c.ff1) && LawfulMac(c.hmac)
    ensures ToLeBytes(v, MAX_BUFFER) == EncryptedPayload(c.ff1, c.hmac, U64_BYTES, U64_BYTES, num)
  {
    var vec := EncryptedPayload(c.ff1, c.hmac, U64_BYTES, U64_BYTES, num);
    Pow256Values();
    ToFromLeBytes(vec);
    FromLeBytes(vec)
  }

  /** `le_vec_to_num`: copies up to 8 bytes into a zeroed 8-byte array and reads it as a u64. */
  method LeVecToNum(bytes: seq<byte>) returns (num: u64)
    requires |bytes| <= U64_BYTES
    ensures num == FromLeBytes(bytes)
  {
    var arr := new byte[U64_BYTES](_ => 0);
    for i := 0 to |bytes|
      invariant forall j :: 0 <= j < i ==> arr[j] == bytes[j]
      invariant forall j :: i <= j < U64_BYTES ==> arr[j] == 0
    {
      arr[i] := bytes[i];
    }
    assert arr[..] == bytes + Zeros(U64_BYTES - |bytes|);
    FromLeBytesZeroExtend(bytes, U64_BYTES - |bytes|);
    Pow256Values();
    num := FromLeBytes(arr[..]);
  }

  /** The ciphertext part of `decrypt_number`'s input: all but the last `hmacLength` bytes. */
  function Ciphertext(c: Codec, encryptedData: seq<byte>): seq<byte>
    requires |encryptedData| >= c.hmacLength
  {
    encryptedData[..|encryptedData| - c.hmacLength]
  }

  /** The input passes `decrypt_number`'s length check and MAC check. */
  predicate PassesChecks(c: Codec, encryptedData: seq<byte>)
    requires LawfulMac(c.hmac) && c.hmacLength <= MAC_SIZE
  {
    && |encryptedData| >= c.hmacLength + c.zeroPadLength
    && TruncatedMac(c.hmac, Ciphertext(c, encryptedData), c.hmacLength)
       == encryptedData[|encryptedData| - c.hmacLength..]
  }

  /**
   * `decrypt_number`: the length check, then the MAC check, then FF1 decryption and
   * zero-extension to 8 bytes. Each check fails exactly when its condition does, a MAC
   * mismatch is reported without decrypting anything, and a decryption longer than 8 bytes
   * overruns `le_vec_to_num`'s array.
   */
  function DecryptNumber(c: Codec, encryptedData: seq<byte>): (r: Outcome)
    requires LawfulMac(c.hmac) && c.hmacLength <= MAC_SIZE
    ensures r.Ok? <==>
      && PassesChecks(c, encryptedData)
      && c.ff1.decrypt(Ciphertext(c, encryptedData)).Some?
      && |c.ff1.decrypt(Ciphertext(c, encryptedData)).value| <= U64_BYTES
    ensures r.Ok? ==> r.value == FromLeBytes(c.ff1.decrypt(Ciphertext(c, encryptedData)).value)
    ensures r == Err(DecryptionFailed) <==>
      PassesChecks(c, encryptedData) && c.ff1.decrypt(Ciphertext(c, encryptedData)).None?
    ensures r.Panic? <==>
      && PassesChecks(c, encryptedData)
      && c.ff1.decrypt(Ciphertext(c, encryptedData)).Some?
      && |c.ff1.decrypt(Ciphertext(c, encryptedData)).value| > U64_BYTES
    ensures r == Err(InvalidDataLength) <==> |encryptedData| < c.hmacLength + c.zeroPadLength
    ensures r == Err(IncorrectMAC) <==>
      && |encryptedData| >= c.hmacLength + c.zeroPadLength
      && TruncatedMac(c.hmac, encryptedData[..|encryptedData| - c.hmacLength], c.hmacLength)
         != encryptedData[|encryptedData| - c.hmacLength..]
    ensures r.Ok? && LawfulCipher(c.ff1) ==>
      |encryptedData| >= c.hmacLength && r.value < Pow256(|encryptedData| - c.hmacLength)
    ensures r.Panic? && LawfulCipher(c.ff1) ==> |encryptedData| > c.hmacLength + U64_BYTES
  {
    if |encryptedData| < c.hmacLength + c.zeroPadLength then Err(InvalidDataLength)
    else
      var split := |encryptedData| - c.hmacLength;
      var encryptedNum := encryptedData[..split];
      var receivedMac := encryptedData[split..];
      if TruncatedMac(c.hmac, encryptedNum, c.hmacLength) != receivedMac then Err(IncorrectMAC)
      else
        match c.ff1.decrypt(encryptedNum)
        case None => Err(DecryptionFailed)
        case Some(decrypted) =>
          if |decrypted| <= U64_BYTES then
            Pow256Monotone(|decrypted|, U64_BYTES);
            Pow256Values();
            Ok(FromLeBytes(decrypted))
          else
            Panic
  }

  /**
   * `decode`: prefix check, base62 parse, then the sentinel check and `decrypt_number` of
   * `DecodeBuffer`.
   */
  function Decode(c: Codec, base62: Base62, encoded: string): (r: Outcome)
    requires LawfulMac(c.hmac) && c.hmacLength <= MAC_SIZE
    ensures r.Err? && r.error.InvalidPrefix? <==> ReceivedPrefix(encoded) != c.prefix
    ensures r.Err? && r.error.InvalidPrefix? ==> r.error == InvalidPrefix(ReceivedPrefix(encoded), c.prefix)
  {
    var received := ReceivedPrefix(encoded);
    if received != c.prefix then Err(InvalidPrefix(received, c.prefix))
    else
      match base62.decode(encoded[|c.prefix|..])
      case None => Err(DecodingFailed)
      case Some(num) => DecodeBuffer(c, num)
  }

  /**
   * The part of `decode` after the base62 parse: the sentinel check (only when hmac length
   * plus zero-pad length is below 16), then `decrypt_number` on the payload.
   */
  function DecodeBuffer(c: Codec, num: u128): (r: Outcome)
    requires LawfulMac(c.hmac) && c.hmacLength <= MAC_SIZE
    ensures var buf := ToLeBytes(num, MAX_BUFFER); var top := TopNonzeroIndex(buf);
      c.hmacLength + c.zeroPadLength < MAX_BUFFER && buf[top] != SENTINEL ==>
        r == Err(SentinelMismatch(buf[top], SENTINEL))
    ensures var buf := ToLeBytes(num, MAX_BUFFER); var top := TopNonzeroIndex(buf);
      c.hmacLength + c.zeroPadLength < MAX_BUFFER && buf[top] == SENTINEL ==>
        r == DecryptNumber(c, buf[..top])
    ensures c.hmacLength + c.zeroPadLength >= MAX_BUFFER ==>
      r == DecryptNumber(c, ToLeBytes(num, MAX_BUFFER))
  {
    var numArray := ToLeBytes(num, MAX_BUFFER);
    if c.hmacLength + c.zeroPadLength < MAX_BUFFER then
      var length := TopNonzeroIndex(numArray);
      if numArray[length] != SENTINEL then Err(SentinelMismatch(numArray[length], SENTINEL))
      else DecryptNumber(c, numArray[..length])
    else
      assert numArray[..MAX_BUFFER] == numArray;
      DecryptNumber(c, numArray[..MAX_BUFFER])
  }

  /** The lengths for which every payload's end can be told from the buffer. */
  predicate SentinelUnambiguous(hmacLength: nat, zeroPadLength: nat) {
    hmacLength < U64_BYTES || zeroPadLength == U64_BYTES
  }

  /**
   * Corrected construction: refuses the configurations (MAC length 8 with a zero-pad length
   * below 8) whose 16-byte payloads carry no sentinel yet are decoded as if they did.
   */
  function NewChecked(name: string, config: Configuration.Config, suite: Suite): (r: Option<Codec>)
    ensures r.Some? <==> SentinelUnambiguous(config.hmacLength, config.zeroPadLength)
    ensures r.Some? ==> r.value == New(name, config, suite)
  {
    if SentinelUnambiguous(config.hmacLength, config.zeroPadLength) then Some(New(name, config, suite))
    else None
  }

  /**
   * Corrected decoding: decrypted bytes longer than 8 are rejected as `InvalidDataLength`
   * instead of overrunning the 8-byte array of `le_vec_to_num`.
   */
  function DecodeChecked(c: Codec, base62: Base62, encoded: string): (r: Outcome)
    requires LawfulMac(c.hmac) && c.hmacLength <= MAC_SIZE
    ensures !r.Panic?
    ensures Decode(c, base62, encoded).Panic? ==> r == Err(InvalidDataLength)
    ensures !Decode(c, base62, encoded).Panic? ==> r == Decode(c, base62, encoded)
  {
    var r := Decode(c, base62, encoded);
    if r.Panic? then Err(InvalidDataLength) else r
  }
}
