/**
 * Fixed-width unsigned integers and their little-endian byte images, as Rust's
 * `to_le_bytes` / `from_le_bytes` give them.
 */
module Bytes {

  type byte = x: int | 0 <= x < 256
  type u64 = x: int | 0 <= x < 0x1_0000_0000_0000_0000
  type u128 = x: int | 0 <= x < 0x1_0000_0000_0000_0000_0000_0000_0000_0000

  /** 256 to the power k: one more than the largest value k bytes can hold. */
  function Pow256(k: nat): (r: nat)
    ensures r >= 1
  {
    if k == 0 then 1 else 256 * Pow256(k - 1)
  }

  lemma {:induction false} Pow256Monotone(i: nat, j: nat)
    requires i <= j
    ensures Pow256(i) <= Pow256(j)
  {
    if i < j {
      Pow256Monotone(i, j - 1);
    }
  }

  /** The powers the codec relies on: 2^56, 2^64 and 2^128. */
  lemma Pow256Values()
    ensures Pow256(7) == 0x100_0000_0000_0000
    ensures Pow256(8) == 0x1_0000_0000_0000_0000
    ensures Pow256(16) == 0x1_0000_0000_0000_0000_0000_0000_0000_0000
  {
    assert Pow256(2) == 0x1_0000;
    assert Pow256(4) == 0x1_0000_0000;
    assert Pow256(6) == 0x1_0000_0000_0000;
    assert Pow256(7) == 0x100_0000_0000_0000;
    assert Pow256(8) == 0x1_0000_0000_0000_0000;
    assert Pow256(10) == 0x1_0000_0000_0000_0000_0000;
    assert Pow256(12) == 0x1_0000_0000_0000_0000_0000_0000;
    assert Pow256(14) == 0x1_0000_0000_0000_0000_0000_0000_0000;
  }

  function Zeros(k: nat): (r: seq<byte>)
    ensures |r| == k
    ensures forall i :: 0 <= i < k ==> r[i] == 0
  {
    seq(k, _ => 0)
  }

  /** The k least significant bytes of n, least significant first. */
  function ToLeBytes(n: nat, k: nat): (r: seq<byte>)
    ensures |r| == k
  {
    if k == 0 then [] else [n % 256] + ToLeBytes(n / 256, k - 1)
  }

  /** The value of a little-endian byte string; it always fits in |s| bytes. */
  function FromLeBytes(s: seq<byte>): (r: nat)
    ensures r < Pow256(|s|)
  {
    if s == [] then 0 else s[0] + 256 * FromLeBytes(s[1..])
  }

  /** Reading back the bytes of a value that fits gives the value. */
  lemma {:induction false} FromToLeBytes(n: nat, k: nat)
    requires n < Pow256(k)
    ensures FromLeBytes(ToLeBytes(n, k)) == n
  {
    if k > 0 {
      FromToLeBytes(n / 256, k - 1);
      assert ToLeBytes(n, k)[1..] == ToLeBytes(n / 256, k - 1);
    }
  }

  /** Writing out the value of a byte string gives the string back. */
  lemma {:induction false} ToFromLeBytes(s: seq<byte>)
    ensures ToLeBytes(FromLeBytes(s), |s|) == s
  {
    if s != [] {
      ToFromLeBytes(s[1..]);
      var n := FromLeBytes(s);
      assert n % 256 == s[0] && n / 256 == FromLeBytes(s[1..]);
    }
  }

  lemma {:induction false} FromLeBytesZeros(k: nat)
    ensures FromLeBytes(Zeros(k)) == 0
  {
    if k > 0 {
      assert Zeros(k)[1..] == Zeros(k - 1);
      FromLeBytesZeros(k - 1);
    }
  }

  /** Zero-extension (appending high zero bytes) does not change the value. */
  lemma {:induction false} FromLeBytesZeroExtend(s: seq<byte>, k: nat)
    ensures FromLeBytes(s + Zeros(k)) == FromLeBytes(s)
  {
    if s == [] {
      assert s + Zeros(k) == Zeros(k);
      FromLeBytesZeros(k);
    } else {
      assert (s + Zeros(k))[1..] == s[1..] + Zeros(k);
      FromLeBytesZeroExtend(s[1..], k);
    }
  }

  /** Dropping high zero bytes does not change the value. */
  lemma FromLeBytesTrim(s: seq<byte>, k: nat)
    requires k <= |s|
    requires forall j :: k <= j < |s| ==> s[j] == 0
    ensures FromLeBytes(s[..k]) == FromLeBytes(s)
  {
    assert s == s[..k] + Zeros(|s| - k);
    FromLeBytesZeroExtend(s[..k], |s| - k);
  }

  /** The most significant byte of a string weighs 256^(|s|-1). */
  lemma {:induction false} FromLeBytesSplitTop(s: seq<byte>)
    requires |s| > 0
    ensures FromLeBytes(s) == FromLeBytes(s[..|s| - 1]) + Pow256(|s| - 1) * s[|s| - 1]
  {
    if |s| > 1 {
      var t := s[1..];
      FromLeBytesSplitTop(t);
      var low := FromLeBytes(t[..|t| - 1]);
      var top := s[|s| - 1];
      var p := Pow256(|t| - 1);
      assert t[..|t| - 1] == s[..|s| - 1][1..];
      assert FromLeBytes(s[..|s| - 1]) == s[0] + 256 * low;
      assert FromLeBytes(s) == s[0] + 256 * (low + p * top);
      ShiftByte(s[0], low, p, top);
    }
  }

  lemma ShiftByte(b: int, low: int, p: int, top: int)
    ensures b + 256 * (low + p * top) == (b + 256 * low) + (256 * p) * top
  {
  }

  /** A value of at least 256^(k-1) needs its k-th byte. */
  lemma FromLeBytesTopByte(s: seq<byte>)
    requires |s| > 0
    requires FromLeBytes(s) >= Pow256(|s| - 1)
    ensures s[|s| - 1] != 0
  {
    FromLeBytesSplitTop(s);
  }
}
