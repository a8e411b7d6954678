/** Bytes and Python's `int.from_bytes(b, 'big')`. */
module Bytes {

  newtype byte = x: int | 0 <= x < 256

  /** 256 to the power n: one more than the largest value n bytes can hold. */
  function Pow256(n: nat): (r: nat)
    ensures r >= 1
  {
    if n == 0 then 1 else 256 * Pow256(n - 1)
  }

  /** 2^256, the bound of a 32-byte big-endian integer. */
  const TwoTo256: nat := 0x1_0000_0000_0000_0000_0000_0000_0000_0000_0000_0000_0000_0000_0000_0000_0000_0000

  lemma Pow256Of32()
    ensures Pow256(32) == TwoTo256
  {
    assert Pow256(8) == 0x1_0000_0000_0000_0000;
    assert Pow256(16) == 0x1_0000_0000_0000_0000_0000_0000_0000_0000;
    assert Pow256(24) == 0x1_0000_0000_0000_0000_0000_0000_0000_0000_0000_0000_0000_0000;
  }

  /** Thirty-two bytes read as a number below 2^256. */
  lemma ThirtyTwoBytesBound(b: seq<byte>)
    requires |b| == 32
    ensures FromBytesBig(b) < TwoTo256
  {
    Pow256Of32();
  }

  /** `int.from_bytes(b, 'big')`: the first byte is the most significant. The
      result is never negative and fits in |b| bytes. */
  function FromBytesBig(b: seq<byte>): (r: nat)
    ensures r < Pow256(|b|)
  {
    if b == [] then 0
    else
      var high := FromBytesBig(b[..|b| - 1]);
      high * 256 + b[|b| - 1] as int
  }

  /** The inverse of FromBytesBig at a fixed width: the `len`-byte big-endian
      representation of `n`. */
  function ToBytesBig(n: nat, len: nat): (r: seq<byte>)
    requires n < Pow256(len)
    ensures |r| == len
    ensures FromBytesBig(r) == n
  {
    if len == 0 then []
    else
      var high := ToBytesBig(n / 256, len - 1);
      var r := high + [(n % 256) as byte];
      assert r[..len - 1] == high;
      r
  }

  /** Every byte string of one width reads back from its value: FromBytesBig is
      injective at a fixed width, so the two functions are mutually inverse. */
  lemma {:induction false} FromBytesBigInjective(b: seq<byte>)
    ensures ToBytesBig(FromBytesBig(b), |b|) == b
  {
    if b != [] {
      var init, last := b[..|b| - 1], b[|b| - 1];
      var v := FromBytesBig(b);
      assert v == FromBytesBig(init) * 256 + last as int;
      assert v / 256 == FromBytesBig(init) && v % 256 == last as int;
      FromBytesBigInjective(init);
      assert ToBytesBig(v, |b|) == ToBytesBig(v / 256, |b| - 1) + [(v % 256) as byte];
      assert b == init + [last];
    }
  }

  /** A width-k run of 0xFF bytes reads as the largest k-byte value. */
  lemma {:induction false} AllOnesIsMaximal(k: nat)
    ensures FromBytesBig(seq(k, _ => 0xFF)) == Pow256(k) - 1
  {
    if k > 0 {
      var s: seq<byte> := seq(k, _ => 0xFF);
      assert s[..k - 1] == seq(k - 1, _ => 0xFF);
      AllOnesIsMaximal(k - 1);
    }
  }

  /** A width-k run of zero bytes reads as zero. */
  lemma {:induction false} AllZerosIsZero(k: nat)
    ensures FromBytesBig(seq(k, _ => 0)) == 0
  {
    if k > 0 {
      var s: seq<byte> := seq(k, _ => 0);
      assert s[..k - 1] == seq(k - 1, _ => 0);
      AllZerosIsZero(k - 1);
    }
  }
}
