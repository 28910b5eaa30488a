/** Host integer fields as little-endian byte sequences: what
    `memcpy(data, &number, width)` stores and what `*(char*)`, `*(short*)`
    and `*(long*)` read back, on a two's complement target. */
module Bytes {

  type byte = b: int | 0 <= b < 256

  function Pow256(n: nat): (p: nat)
    ensures p > 0
  {
    if n == 0 then 1 else 256 * Pow256(n - 1)
  }

  /** The unsigned little-endian value of `bs`. */
  function Unsigned(bs: seq<byte>): (u: nat)
    ensures u < Pow256(|bs|)
  {
    if |bs| == 0 then 0
    else
      var rest := Unsigned(bs[1..]);
      assert rest <= Pow256(|bs| - 1) - 1;
      bs[0] + 256 * rest
  }

  /** The `n` little-endian bytes of `u`. */
  function Encode(u: nat, n: nat): (bs: seq<byte>)
    requires u < Pow256(n)
    ensures |bs| == n && Unsigned(bs) == u
  {
    if n == 0 then []
    else
      var bs := [(u % 256) as byte] + Encode(u / 256, n - 1);
      assert bs[1..] == Encode(u / 256, n - 1);
      bs
  }

  /** Reading bytes and writing them back changes nothing. */
  lemma {:induction false} EncodeUnsigned(bs: seq<byte>)
    ensures Encode(Unsigned(bs), |bs|) == bs
  {
    if |bs| > 0 {
      var u := Unsigned(bs);
      assert u % 256 == bs[0] && u / 256 == Unsigned(bs[1..]);
      EncodeUnsigned(bs[1..]);
    }
  }

  /** The low `n` bytes of the two's complement representation of `v`:
      what memcpy copies out of a `long` on a little-endian target. */
  function LowBytes(v: int, n: nat): (bs: seq<byte>)
    ensures |bs| == n
    ensures Unsigned(bs) == v % Pow256(n)
  {
    Encode(v % Pow256(n), n)
  }

  /** The signed value of `bs` in two's complement: the unsigned value,
      less 256^n when the top bit is set. */
  function Signed(bs: seq<byte>): (v: int)
    requires |bs| > 0
    ensures -128 * Pow256(|bs| - 1) <= v < 128 * Pow256(|bs| - 1)
    ensures v % Pow256(|bs|) == Unsigned(bs)
  {
    var half := 128 * Pow256(|bs| - 1);
    var p := Pow256(|bs|);
    assert p == 2 * half;
    var u := Unsigned(bs);
    ModBelow(u, p);
    if u >= half then u - p else u
  }

  lemma ModBelow(u: int, p: int)
    requires 0 <= u < p
    ensures (u - p) % p == u
    ensures u % p == u
  {
    assert u - p == -1 * p + u;
    assert u == 0 * p + u;
  }

  /** Storing the low bytes of a field's own signed value gives the field
      back: a value read through the signed type survives the store. */
  lemma LowBytesSigned(bs: seq<byte>)
    requires |bs| > 0
    ensures LowBytes(Signed(bs), |bs|) == bs
  {
    EncodeUnsigned(bs);
  }

  /** Values that agree modulo 256^n store the same bytes. */
  lemma LowBytesModular(v: int, w: int, n: nat)
    requires v % Pow256(n) == w % Pow256(n)
    ensures LowBytes(v, n) == LowBytes(w, n)
  {
  }
}
