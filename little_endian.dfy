/** Rust's `from_le_bytes` / `to_le_bytes` for unsigned integers of any byte width. */
module LittleEndian {
  import opened Primitives

  function Pow256(n: nat): (r: nat)
    ensures r >= 1
  {
    if n == 0 then 1 else 256 * Pow256(n - 1)
  }

  /** The unsigned value whose little-endian encoding is `bs` (least significant byte first). */
  function FromLE(bs: seq<byte>): (r: nat)
    ensures r < Pow256(|bs|)
  {
    if bs == [] then 0 else bs[0] + 256 * FromLE(bs[1..])
  }

  /** The `n` least significant bytes of `v`, least significant first. */
  function ToLE(v: nat, n: nat): (r: seq<byte>)
    ensures |r| == n
  {
    if n == 0 then [] else [v % 256] + ToLE(v / 256, n - 1)
  }

  /** Decoding an encoding gives the value back, provided it fits in `n` bytes. */
  lemma {:induction false} FromToLE(v: nat, n: nat)
    requires v < Pow256(n)
    ensures FromLE(ToLE(v, n)) == v
  {
    if n > 0 {
      var bs := ToLE(v, n);
      assert bs[1..] == ToLE(v / 256, n - 1);
      FromToLE(v / 256, n - 1);
    }
  }

  /** Encoding a decoded byte sequence gives the same bytes back. */
  lemma {:induction false} ToFromLE(bs: seq<byte>)
    ensures ToLE(FromLE(bs), |bs|) == bs
  {
    if bs != [] {
      var v := FromLE(bs);
      assert v % 256 == bs[0] && v / 256 == FromLE(bs[1..]);
      ToFromLE(bs[1..]);
    }
  }

  /** Only the first byte of an encoding survives a reduction modulo 256. */
  lemma FromLELowByte(bs: seq<byte>)
    requires |bs| > 0
    ensures FromLE(bs) % 256 == bs[0]
  {
    ToFromLE(bs);
  }

  lemma Pow256Values()
    ensures Pow256(1) == 0x100 && Pow256(2) == 0x1_0000 && Pow256(4) == 0x1_0000_0000
  {}
}
