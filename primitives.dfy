/**
 * The cryptographic and text libraries the codec calls: FF1 over AES-256 with a binary
 * numeral string, HMAC-SHA256, HKDF-SHA256 expansion and base62. Their internals are not
 * modelled; each is a value of function type, and a ghost predicate states the laws the
 * codec depends on. Every theorem about the codec assumes these laws as a precondition.
 */
module Primitives {
  import opened Wrappers
  import opened Bytes

  /** Size of an HMAC-SHA256 output. */
  const MAC_SIZE: nat := 32

  /** A keyed FF1 instance acting on byte strings (via `BinaryNumeralString`, little-endian). */
  datatype Cipher = Cipher(encrypt: seq<byte> -> seq<byte>, decrypt: seq<byte> -> Option<seq<byte>>)

  /** A keyed HMAC state: the full tag of a message. */
  type Mac = seq<byte> -> seq<byte>

  /** The base62 crate: rendering of a u128, and parsing with failure. */
  datatype Base62 = Base62(encode: u128 -> string, decode: string -> Option<u128>)

  /**
   * What `Codec::new` uses to materialise its keyed state: HKDF expansion of the master key
   * under a label, and the keyed FF1 and HMAC constructors.
   */
  datatype Suite = Suite(
    expand: (seq<byte>, string) -> seq<byte>,
    ff1: seq<byte> -> Cipher,
    hmac: seq<byte> -> Mac)

  /** FF1 preserves length; its decryption inverts encryption; a decryption that succeeds preserves length. */
  ghost predicate LawfulCipher(c: Cipher) {
    && (forall p :: |c.encrypt(p)| == |p|)
    && (forall p :: c.decrypt(c.encrypt(p)) == Some(p))
    && (forall x :: c.decrypt(x).Some? ==> |c.decrypt(x).value| == |x|)
  }

  /** HMAC-SHA256 yields 32 bytes for every message (and, being a function, is deterministic). */
  ghost predicate LawfulMac(m: Mac) {
    forall x :: |m(x)| == MAC_SIZE
  }

  predicate IsAlphanumeric(ch: char) {
    '0' <= ch <= '9' || 'A' <= ch <= 'Z' || 'a' <= ch <= 'z'
  }

  predicate AllAlphanumeric(s: string) {
    forall i :: 0 <= i < |s| ==> IsAlphanumeric(s[i])
  }

  /**
   * Base62 renders every u128 over the alphanumeric alphabet, parsing inverts rendering, and a
   * string with a character outside the alphabet does not parse.
   */
  ghost predicate LawfulBase62(b: Base62) {
    && (forall v: u128 :: AllAlphanumeric(b.encode(v)))
    && (forall v: u128 :: b.decode(b.encode(v)) == Some(v))
    && (forall s :: !AllAlphanumeric(s) ==> b.decode(s) == None)
  }

  /** Every key gives a lawful FF1 instance and a lawful HMAC state. */
  ghost predicate LawfulSuite(s: Suite) {
    forall k :: LawfulCipher(s.ff1(k)) && LawfulMac(s.hmac(k))
  }

  /** The first `length` bytes of the tag of `data`. */
  function TruncatedMac(m: Mac, data: seq<byte>, length: nat): (tag: seq<byte>)
    requires LawfulMac(m) && length <= MAC_SIZE
    ensures |tag| == length
  {
    m(data)[..length]
  }

  /** The laws can all be met at once: the identity cipher is lawful. */
  lemma IdentityCipherLawful()
    ensures LawfulCipher(Cipher(p => p, x => Some(x)))
  {
  }

  /** The laws can all be met at once: a constant 32-byte tag is a lawful MAC. */
  lemma ConstantMacLawful()
    ensures LawfulMac(x => Zeros(MAC_SIZE))
  {
  }

  /** A suite whose every key gives the identity cipher and a constant tag. */
  function IdentitySuite(): Suite {
    Suite((key, info) => key, key => Cipher(p => p, x => Some(x)), key => (x => Zeros(MAC_SIZE)))
  }

  /** The laws can all be met at once: the identity suite is lawful. */
  lemma IdentitySuiteLawful()
    ensures LawfulSuite(IdentitySuite())
  {
    IdentityCipherLawful();
    ConstantMacLawful();
  }

  /** A unary rendering: the value v is v copies of `0`. */
  function UnaryBase62(): Base62 {
    Base62(
      (v: u128) => seq(v, _ => '0'),
      s => if (forall i :: 0 <= i < |s| ==> s[i] == '0') && |s| < 0x1_0000_0000_0000_0000_0000_0000_0000_0000
           then Some(|s|) else None)
  }

  /** The laws can all be met at once: the unary rendering is a lawful base62. */
  lemma UnaryBase62Lawful()
    ensures LawfulBase62(UnaryBase62())
  {
  }
}
