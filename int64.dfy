/** The 8-byte signed integers of the generation file format. The source uses the
    platform's native byte order; this model fixes little-endian for both
    reading and writing. */
module Int64 {
  import opened Types

  const LongBytes: int := 8
  const MinLong: int := -0x8000_0000_0000_0000
  const MaxLong: int := 0x7FFF_FFFF_FFFF_FFFF
  const TwoTo64: int := 0x1_0000_0000_0000_0000

  predicate IsLong(v: int) {
    MinLong <= v <= MaxLong
  }

  function Pow256(n: nat): (p: nat)
    ensures p > 0
  {
    if n == 0 then 1 else 256 * Pow256(n - 1)
  }

  lemma Pow256Of8()
    ensures Pow256(8) == TwoTo64
  {
    assert Pow256(1) == 0x100;
    assert Pow256(2) == 0x1_0000;
    assert Pow256(3) == 0x100_0000;
    assert Pow256(4) == 0x1_0000_0000;
    assert Pow256(5) == 0x100_0000_0000;
    assert Pow256(6) == 0x1_0000_0000_0000;
    assert Pow256(7) == 0x100_0000_0000_0000;
  }

  /** The n least significant base-256 digits of u, least significant first. */
  function ToLittleEndian(u: nat, n: nat): (s: Bytes)
    ensures |s| == n
  {
    if n == 0 then [] else [(u % 256) as byte] + ToLittleEndian(u / 256, n - 1)
  }

  /** The number whose base-256 digits, least significant first, are s. */
  function FromLittleEndian(s: Bytes): (u: nat)
    ensures u < Pow256(|s|)
  {
    if s == [] then 0 else s[0] as int + 256 * FromLittleEndian(s[1..])
  }

  lemma {:induction false} FromToLittleEndian(u: nat, n: nat)
    requires u < Pow256(n)
    ensures FromLittleEndian(ToLittleEndian(u, n)) == u
  {
    if n > 0 {
      var s := ToLittleEndian(u, n);
      var low := u % 256;
      var high := u / 256;
      assert u == low + 256 * high;
      assert high < Pow256(n - 1);
      assert s[0] as int == low;
      assert s[1..] == ToLittleEndian(high, n - 1);
      FromToLittleEndian(high, n - 1);
      assert FromLittleEndian(s) == low + 256 * FromLittleEndian(s[1..]);
    }
  }

  lemma {:induction false} ToFromLittleEndian(s: Bytes)
    ensures ToLittleEndian(FromLittleEndian(s), |s|) == s
  {
    if s != [] {
      var u := FromLittleEndian(s);
      var low := s[0] as int;
      var high := FromLittleEndian(s[1..]);
      assert u == low + 256 * high;
      assert 0 <= low < 256;
      assert u % 256 == low && u / 256 == high;
      assert (low as byte) == s[0];
      ToFromLittleEndian(s[1..]);
      assert ToLittleEndian(u, |s|) == [low as byte] + ToLittleEndian(high, |s| - 1);
    }
  }

  /** MemoryAccess.setLongAtOffset: the two's-complement bytes of a long
      (the value is taken modulo 2^64, as a Java long would hold it). */
  function EncodeLong(v: int): (b: Bytes)
    ensures |b| == LongBytes
  {
    ToLittleEndian(v % 0x1_0000_0000_0000_0000, 8)
  }

  /** MemoryAccess.getLongAtOffset: the long whose two's-complement bytes are b. */
  function DecodeLong(b: Bytes): (v: int)
    requires |b| == LongBytes
    ensures IsLong(v)
  {
    Pow256Of8();
    var u := FromLittleEndian(b);
    if u <= MaxLong then u else u - TwoTo64
  }

  /** Every long read back after being written is the long written. */
  lemma DecodeEncodeLong(v: int)
    requires IsLong(v)
    ensures DecodeLong(EncodeLong(v)) == v
  {
    Pow256Of8();
    FromToLittleEndian(v % 0x1_0000_0000_0000_0000, 8);
  }

  /** Every 8 bytes are the encoding of the long they decode to. */
  lemma EncodeDecodeLong(b: Bytes)
    requires |b| == LongBytes
    ensures EncodeLong(DecodeLong(b)) == b
  {
    ToFromLittleEndian(b);
  }
}
