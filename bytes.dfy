/** Bytes and the big-endian unsigned integers that `struct.pack('>I', ...)`
    writes and `struct.unpack('>I', ...)` reads. */
module Bytes {

  type byte = b: int | 0 <= b < 256

  /** 256 to the power `n`: one more than the largest `n`-byte unsigned integer. */
  function Pow256(n: nat): (r: nat)
    ensures r > 0
  {
    if n == 0 then 1 else 256 * Pow256(n - 1)
  }

  const U32Limit: nat := 0x1_0000_0000

  lemma Pow256Four()
    ensures Pow256(4) == U32Limit
  {
  }

  /** The `width`-byte big-endian encoding of `x`. */
  function ToBigEndian(x: nat, width: nat): (r: seq<byte>)
    requires x < Pow256(width)
    ensures |r| == width
    decreases width
  {
    if width == 0 then [] else ToBigEndian(x / 256, width - 1) + [x % 256]
  }

  /** The unsigned integer a big-endian byte string denotes. */
  function FromBigEndian(b: seq<byte>): (r: nat)
    ensures r < Pow256(|b|)
  {
    if b == [] then 0 else FromBigEndian(b[..|b| - 1]) * 256 + b[|b| - 1]
  }

  /** Decoding an encoded integer gives it back. */
  lemma {:induction false} FromToBigEndian(x: nat, width: nat)
    requires x < Pow256(width)
    ensures FromBigEndian(ToBigEndian(x, width)) == x
    decreases width
  {
    if width > 0 {
      var b := ToBigEndian(x, width);
      assert b[..width - 1] == ToBigEndian(x / 256, width - 1);
      FromToBigEndian(x / 256, width - 1);
    }
  }

  /** Encoding a decoded byte string at its own width gives it back. */
  lemma {:induction false} ToFromBigEndian(b: seq<byte>)
    ensures ToBigEndian(FromBigEndian(b), |b|) == b
  {
    if b != [] {
      var init := b[..|b| - 1];
      var x := FromBigEndian(b);
      assert x / 256 == FromBigEndian(init);
      assert x % 256 == b[|b| - 1];
      ToFromBigEndian(init);
      assert b == init + [b[|b| - 1]];
    }
  }

  /** `struct.pack('>I', n)`. */
  function PackU32(n: nat): (r: seq<byte>)
    requires n < U32Limit
    ensures |r| == 4
  {
    var n1 := n / 256;
    var n2 := n1 / 256;
    [n2 / 256, n2 % 256, n1 % 256, n % 256]
  }

  /** `struct.unpack('>I', b)[0]`. */
  function UnpackU32(b: seq<byte>): (r: nat)
    requires |b| == 4
    ensures r < U32Limit
  {
    ((b[0] as int * 256 + b[1]) * 256 + b[2]) * 256 + b[3]
  }

  /** Unpacking a packed count gives the count back. */
  lemma UnpackPackU32(n: nat)
    requires n < U32Limit
    ensures UnpackU32(PackU32(n)) == n
  {
    var n1 := n / 256;
    var n2 := n1 / 256;
    assert n2 / 256 * 256 + n2 % 256 == n2;
    assert n2 * 256 + n1 % 256 == n1;
    assert n1 * 256 + n % 256 == n;
  }

  /** Packing an unpacked field gives the field back. */
  lemma PackUnpackU32(b: seq<byte>)
    requires |b| == 4
    ensures PackU32(UnpackU32(b)) == b
  {
    var n2 := b[0] as int * 256 + b[1];
    var n1 := n2 * 256 + b[2];
    var n := n1 * 256 + b[3];
    assert n / 256 == n1 && n % 256 == b[3];
    assert n1 / 256 == n2 && n1 % 256 == b[2];
    assert n2 / 256 == b[0] && n2 % 256 == b[1];
  }

  function Min(a: nat, b: nat): nat { if a <= b then a else b }

  /** `n` zero bytes: the contents of a freshly allocated page. */
  function Zeros(n: nat): (r: seq<byte>)
    ensures |r| == n && forall i :: 0 <= i < n ==> r[i] == 0
  {
    seq(n, _ => 0)
  }
}
