/** Fixed-width byte encodings of unbounded integers: the little-endian
    layout used for the cursor's 8-byte timestamp field and the big-endian
    layout of `UUID.bytes`. */
module Bytes {

  type Byte = x: int | 0 <= x < 256

  function Pow256(n: nat): (r: nat)
    ensures r > 0
  {
    if n == 0 then 1 else 256 * Pow256(n - 1)
  }

  /** `n` bytes of `x`, least significant first. */
  function ToLittleEndian(x: nat, n: nat): (r: seq<Byte>)
    ensures |r| == n
  {
    if n == 0 then [] else [x % 256] + ToLittleEndian(x / 256, n - 1)
  }

  function FromLittleEndian(bs: seq<Byte>): (r: nat)
    ensures r < Pow256(|bs|)
  {
    if bs == [] then 0 else bs[0] + 256 * FromLittleEndian(bs[1..])
  }

  /** `n` bytes of `x`, most significant first. */
  function ToBigEndian(x: nat, n: nat): (r: seq<Byte>)
    ensures |r| == n
  {
    if n == 0 then [] else ToBigEndian(x / 256, n - 1) + [x % 256]
  }

  function FromBigEndian(bs: seq<Byte>): (r: nat)
    ensures r < Pow256(|bs|)
  {
    if bs == [] then 0 else 256 * FromBigEndian(bs[..|bs| - 1]) + bs[|bs| - 1]
  }

  lemma DivideBelowPower(x: nat, n: nat)
    requires 0 < n && x < Pow256(n)
    ensures x / 256 < Pow256(n - 1)
  {
  }

  /** Reading back `n` little-endian bytes gives the number that was written,
      provided it fits in `n` bytes. */
  lemma {:induction false} LittleEndianRoundTrip(x: nat, n: nat)
    requires x < Pow256(n)
    ensures FromLittleEndian(ToLittleEndian(x, n)) == x
  {
    if n > 0 {
      DivideBelowPower(x, n);
      LittleEndianRoundTrip(x / 256, n - 1);
      var bs := ToLittleEndian(x, n);
      assert bs[1..] == ToLittleEndian(x / 256, n - 1);
    }
  }

  /** Every byte string is the little-endian encoding of the number it denotes. */
  lemma {:induction false} LittleEndianOnto(bs: seq<Byte>)
    ensures ToLittleEndian(FromLittleEndian(bs), |bs|) == bs
  {
    if bs != [] {
      var x := FromLittleEndian(bs);
      assert x % 256 == bs[0] && x / 256 == FromLittleEndian(bs[1..]);
      LittleEndianOnto(bs[1..]);
    }
  }

  lemma {:induction false} BigEndianRoundTrip(x: nat, n: nat)
    requires x < Pow256(n)
    ensures FromBigEndian(ToBigEndian(x, n)) == x
  {
    if n > 0 {
      DivideBelowPower(x, n);
      BigEndianRoundTrip(x / 256, n - 1);
      var bs := ToBigEndian(x, n);
      assert bs[..|bs| - 1] == ToBigEndian(x / 256, n - 1);
    }
  }

  lemma {:induction false} BigEndianOnto(bs: seq<Byte>)
    ensures ToBigEndian(FromBigEndian(bs), |bs|) == bs
  {
    if bs != [] {
      var x := FromBigEndian(bs);
      var init := bs[..|bs| - 1];
      assert x % 256 == bs[|bs| - 1] && x / 256 == FromBigEndian(init);
      BigEndianOnto(init);
      assert bs == init + [bs[|bs| - 1]];
    }
  }
}
