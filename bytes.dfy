/** Bytes and the big-endian reading of a byte sequence as an unsigned number. */
module Bytes {

  /** One element of a `Uint8Array`. */
  type byte = x: int | 0 <= x < 0x100

  function Pow256(n: nat): (r: nat)
    ensures r >= 1
  {
    if n == 0 then 1 else 0x100 * Pow256(n - 1)
  }

  lemma Pow256Values()
    ensures Pow256(1) == 0x100 && Pow256(2) == 0x1_0000 && Pow256(4) == 0x1_0000_0000
  {
    assert Pow256(3) == 0x100_0000;
  }

  /** The unsigned number whose base-256 digits, most significant first, are `bs`. */
  function FromBigEndian(bs: seq<byte>): nat
  {
    if bs == [] then 0 else FromBigEndian(bs[..|bs| - 1]) * 0x100 + bs[|bs| - 1]
  }

  /** The `n` low base-256 digits of `x`, most significant first. */
  function ToBigEndian(x: nat, n: nat): (bs: seq<byte>)
    ensures |bs| == n
  {
    if n == 0 then [] else ToBigEndian(x / 0x100, n - 1) + [x % 0x100]
  }

  function Reverse<T>(s: seq<T>): (r: seq<T>)
    ensures |r| == |s|
    ensures forall i :: 0 <= i < |s| ==> r[i] == s[|s| - 1 - i]
  {
    if s == [] then [] else Reverse(s[1..]) + [s[0]]
  }

  lemma ReverseReverse<T>(s: seq<T>)
    ensures Reverse(Reverse(s)) == s
  {
    assert forall i :: 0 <= i < |s| ==> Reverse(Reverse(s))[i] == s[i];
  }

  /** Reading back the digits of a number that fits in `n` bytes gives the number. */
  lemma {:induction false} FromToBigEndian(x: nat, n: nat)
    requires x < Pow256(n)
    ensures FromBigEndian(ToBigEndian(x, n)) == x
  {
    if n > 0 {
      var bs := ToBigEndian(x, n);
      var q, r := x / 0x100, x % 0x100;
      assert q < Pow256(n - 1) by { DropLowDigit(x, Pow256(n - 1)); }
      FromToBigEndian(q, n - 1);
      assert bs[..n - 1] == ToBigEndian(q, n - 1) && bs[n - 1] == r;
      assert x == q * 0x100 + r;
    }
  }

  lemma DropLowDigit(x: nat, p: nat)
    requires x < 0x100 * p
    ensures x / 0x100 < p
  {
    assert 0x100 * (x / 0x100) <= x;
  }

  /** Any `n` bytes read as a number fit in `n` bytes and are written back unchanged. */
  lemma {:induction false} ToFromBigEndian(bs: seq<byte>)
    ensures FromBigEndian(bs) < Pow256(|bs|)
    ensures ToBigEndian(FromBigEndian(bs), |bs|) == bs
  {
    if bs != [] {
      var init := bs[..|bs| - 1];
      ToFromBigEndian(init);
      var x := FromBigEndian(bs);
      assert x / 0x100 == FromBigEndian(init) && x % 0x100 == bs[|bs| - 1];
    }
  }
}
