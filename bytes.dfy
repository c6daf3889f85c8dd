/**
 * Byte-level integer encodings used by the model: Python's
 * int.from_bytes(..., "big") for FSM state names, and struct.pack('<I', ...)
 * for the flash block headers.
 */
module Bytes {

  type Byte = b: int | 0 <= b < 256

  /** The range of struct.pack('<I', x): an unsigned 32-bit integer. */
  type U32 = n: int | 0 <= n < 0x1_0000_0000

  function Pow2(k: nat): (r: nat)
    ensures r >= 1
  {
    if k == 0 then 1 else 2 * Pow2(k - 1)
  }

  function Pow256(k: nat): (r: nat)
    ensures r >= 1
  {
    if k == 0 then 1 else 256 * Pow256(k - 1)
  }

  /** A register of 8 * k bits holds exactly the values below 256^k. */
  lemma {:induction false} Pow2OfBytes(k: nat)
    ensures Pow2(8 * k) == Pow256(k)
  {
    if k > 0 {
      Pow2OfBytes(k - 1);
      assert Pow2(8 * k) == 256 * Pow2(8 * (k - 1)) by {
        var m := 8 * (k - 1);
        assert 8 * k == m + 8;
        assert Pow2(m + 8) == 256 * Pow2(m) by {
          assert Pow2(m + 1) == 2 * Pow2(m);
          assert Pow2(m + 2) == 2 * Pow2(m + 1);
          assert Pow2(m + 3) == 2 * Pow2(m + 2);
          assert Pow2(m + 4) == 2 * Pow2(m + 3);
          assert Pow2(m + 5) == 2 * Pow2(m + 4);
          assert Pow2(m + 6) == 2 * Pow2(m + 5);
          assert Pow2(m + 7) == 2 * Pow2(m + 6);
          assert Pow2(m + 8) == 2 * Pow2(m + 7);
        }
      }
    }
  }

  lemma {:induction false} Pow256Monotonic(j: nat, k: nat)
    requires j <= k
    ensures Pow256(j) <= Pow256(k)
  {
    if j < k {
      Pow256Monotonic(j, k - 1);
    }
  }

  /** int.from_bytes(s, byteorder="big"): the value fits in |s| bytes. */
  function FromBigEndian(s: seq<Byte>): (v: nat)
    ensures v < Pow256(|s|)
  {
    if s == [] then 0
    else
      var high := FromBigEndian(s[..|s| - 1]);
      assert high <= Pow256(|s| - 1) - 1;
      assert high * 256 <= Pow256(|s|) - 256;
      high * 256 + s[|s| - 1]
  }

  /** v.to_bytes(n, byteorder="big"), keeping only the n low-order bytes. */
  function ToBigEndian(v: nat, n: nat): (s: seq<Byte>)
    ensures |s| == n
  {
    if n == 0 then [] else ToBigEndian(v / 256, n - 1) + [v % 256]
  }

  /** The shortest big-endian byte string of v: no leading zero byte. */
  function MinimalBigEndian(v: nat): (s: seq<Byte>)
    ensures s == [] || s[0] != 0
    ensures FromBigEndian(s) == v
  {
    if v == 0 then []
    else
      var s := MinimalBigEndian(v / 256) + [v % 256];
      assert s[..|s| - 1] == MinimalBigEndian(v / 256);
      s
  }

  lemma ByteDivMod(high: nat, low: Byte)
    ensures (high * 256 + low) / 256 == high
    ensures (high * 256 + low) % 256 == low
  {
  }

  /** Encoding n bytes and decoding them back with to_bytes(n) is the identity. */
  lemma {:induction false} BigEndianRoundTrip(s: seq<Byte>)
    ensures ToBigEndian(FromBigEndian(s), |s|) == s
  {
    if s != [] {
      var p := s[..|s| - 1];
      ByteDivMod(FromBigEndian(p), s[|s| - 1]);
      BigEndianRoundTrip(p);
      assert s == p + [s[|s| - 1]];
    }
  }

  /** A non-empty byte string without a leading zero byte encodes a positive value. */
  lemma {:induction false} LeadingByteMakesPositive(s: seq<Byte>)
    requires s != [] && s[0] != 0
    ensures FromBigEndian(s) > 0
  {
    var p := s[..|s| - 1];
    if p != [] {
      LeadingByteMakesPositive(p);
    }
  }

  /**
   * Decoding a value to its shortest byte string gives back the encoded
   * string exactly when that string has no leading zero (NUL) byte.
   */
  lemma {:induction false} MinimalDecodeIff(s: seq<Byte>)
    ensures MinimalBigEndian(FromBigEndian(s)) == s <==> (s == [] || s[0] != 0)
  {
    if s != [] && s[0] != 0 {
      var p := s[..|s| - 1];
      var b := s[|s| - 1];
      LeadingByteMakesPositive(s);
      ByteDivMod(FromBigEndian(p), b);
      if p != [] {
        MinimalDecodeIff(p);
      }
      assert MinimalBigEndian(FromBigEndian(p)) == p;
      assert s == p + [b];
    }
  }

  /** The n low-order bytes of x, least significant first. */
  function ToLittleEndian(x: nat, n: nat): (s: seq<Byte>)
    ensures |s| == n
  {
    if n == 0 then [] else [x % 256] + ToLittleEndian(x / 256, n - 1)
  }

  /** struct.pack('<I', x): four bytes, least significant first. */
  function LittleEndian32(x: U32): (s: seq<Byte>)
    ensures |s| == 4
  {
    ToLittleEndian(x, 4)
  }

  /** struct.unpack('<I', s). */
  function FromLittleEndian32(s: seq<Byte>): U32
    requires |s| == 4
  {
    s[0] as int + 256 * s[1] as int + 65536 * s[2] as int + 16777216 * s[3] as int
  }

  /** The four bytes of LittleEndian32, spelt out as quotients and remainders. */
  lemma LittleEndian32Bytes(x: U32)
    ensures LittleEndian32(x) == [x % 256, (x / 256) % 256, ((x / 256) / 256) % 256, ((x / 256) / 256) / 256]
  {
    var q1 := x / 256;
    var q2 := q1 / 256;
    var q3 := q2 / 256;
    assert q3 < 256;
    assert ToLittleEndian(q3, 1) == [q3 % 256] + ToLittleEndian(q3 / 256, 0);
    assert ToLittleEndian(q3, 1) == [q3];
    assert ToLittleEndian(q2, 2) == [q2 % 256] + ToLittleEndian(q3, 1);
    assert ToLittleEndian(q1, 3) == [q1 % 256] + ToLittleEndian(q2, 2);
    assert ToLittleEndian(x, 4) == [x % 256] + ToLittleEndian(q1, 3);
  }

  /** Packing then unpacking a 32-bit value gives it back. */
  lemma LittleEndian32RoundTrip(x: U32)
    ensures FromLittleEndian32(LittleEndian32(x)) == x
  {
    LittleEndian32Bytes(x);
    var q1 := x / 256;
    var q2 := q1 / 256;
    var q3 := q2 / 256;
    assert x == x % 256 + 256 * q1;
    assert q1 == q1 % 256 + 256 * q2;
    assert q2 == q2 % 256 + 256 * q3;
  }

  /** Every four-byte string is the packing of exactly one 32-bit value. */
  lemma LittleEndian32Decode(s: seq<Byte>)
    requires |s| == 4
    ensures LittleEndian32(FromLittleEndian32(s)) == s
  {
    var x := FromLittleEndian32(s);
    LittleEndian32Bytes(x);
    var hi1 := s[1] as int + 256 * s[2] as int + 65536 * s[3] as int;
    assert x == s[0] as int + 256 * hi1;
    assert x / 256 == hi1 && x % 256 == s[0];
    var hi2 := s[2] as int + 256 * s[3] as int;
    assert hi1 == s[1] as int + 256 * hi2;
    assert hi1 / 256 == hi2 && hi1 % 256 == s[1];
    assert hi2 / 256 == s[3] as int && hi2 % 256 == s[2];
  }
}
