/**
 * Fixed-width unsigned integers and their little-endian byte encoding.
 * The K3 Arm cores run little-endian, so a multi-byte field of a packed
 * TI-SCI struct sits in memory least significant byte first.
 */
module LittleEndian {

  type uint8 = x: int | 0 <= x < 0x100
  type uint16 = x: int | 0 <= x < 0x1_0000
  type uint32 = x: int | 0 <= x < 0x1_0000_0000

  /** 256 to the power n: the number of values n bytes can hold. */
  function Pow256(n: nat): (r: nat)
    ensures r >= 1
  {
    if n == 0 then 1 else 256 * Pow256(n - 1)
  }

  /** The n-byte little-endian representation of x. */
  function ToLe(x: nat, n: nat): (r: seq<uint8>)
    requires x < Pow256(n)
    ensures |r| == n
    decreases n
  {
    if n == 0 then []
    else
      assert x / 256 < Pow256(n - 1);
      [x % 256] + ToLe(x / 256, n - 1)
  }

  /** The value of a little-endian byte string. */
  function FromLe(bs: seq<uint8>): (r: nat)
    ensures r < Pow256(|bs|)
  {
    if bs == [] then 0
    else
      var rest := FromLe(bs[1..]);
      assert rest <= Pow256(|bs| - 1) - 1;
      assert 256 * rest <= 256 * Pow256(|bs| - 1) - 256;
      bs[0] + 256 * rest
  }

  /** Reading back an encoded value gives the value. */
  lemma {:induction false} FromLeToLe(x: nat, n: nat)
    requires x < Pow256(n)
    ensures FromLe(ToLe(x, n)) == x
    decreases n
  {
    if n > 0 {
      assert x / 256 < Pow256(n - 1);
      FromLeToLe(x / 256, n - 1);
      var bs := ToLe(x, n);
      assert bs[1..] == ToLe(x / 256, n - 1);
    }
  }

  /** Encoding the value of a byte string gives the byte string back. */
  lemma {:induction false} ToLeFromLe(bs: seq<uint8>)
    ensures ToLe(FromLe(bs), |bs|) == bs
  {
    if bs != [] {
      ToLeFromLe(bs[1..]);
      var v := FromLe(bs);
      assert v % 256 == bs[0] && v / 256 == FromLe(bs[1..]);
    }
  }

  /** The little-endian encoding is one-to-one. */
  lemma ToLeInjective(x: nat, y: nat, n: nat)
    requires x < Pow256(n) && y < Pow256(n)
    requires ToLe(x, n) == ToLe(y, n)
    ensures x == y
  {
    FromLeToLe(x, n);
    FromLeToLe(y, n);
  }
}
