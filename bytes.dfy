/**
 * Unsigned integers as big-endian byte strings: what struct.pack writes for the
 * formats '>H' (2 bytes), '>f' once the float is a 32-bit pattern (4 bytes) and
 * '>Q' (8 bytes), and the inverse reading of such strings.
 */
module Bytes {

  type byte = b: int | 0 <= b < 256

  /** 256^n, the number of values n bytes can hold. */
  function Pow256(n: nat): (r: nat)
    ensures r > 0
  {
    if n == 0 then 1 else 256 * Pow256(n - 1)
  }

  /** The capacities of the 2-, 4- and 8-byte fields ('>H', '>f', '>Q'). */
  lemma Pow256Constants()
    ensures Pow256(2) == 0x1_0000
    ensures Pow256(4) == 0x1_0000_0000
    ensures Pow256(8) == 0x1_0000_0000_0000_0000
  {
    assert Pow256(4) == 0x1_0000_0000;
    assert Pow256(8) == 256 * 256 * 256 * 256 * Pow256(4);
  }

  /** The n-byte big-endian (network order) encoding of v, most significant byte first. */
  function BigEndian(v: nat, n: nat): (r: seq<byte>)
    requires v < Pow256(n)
    ensures |r| == n
  {
    if n == 0 then [] else BigEndian(v / 256, n - 1) + [v % 256]
  }

  /** The unsigned value of a big-endian byte string. */
  function FromBigEndian(s: seq<byte>): (v: nat)
    ensures v < Pow256(|s|)
  {
    if s == [] then 0 else FromBigEndian(s[..|s| - 1]) * 256 + s[|s| - 1]
  }

  /** Reading back an n-byte big-endian encoding gives the encoded value. */
  lemma {:induction false} FromBigEndianInverse(v: nat, n: nat)
    requires v < Pow256(n)
    ensures FromBigEndian(BigEndian(v, n)) == v
  {
    if n > 0 {
      var s := BigEndian(v, n);
      assert s[..n - 1] == BigEndian(v / 256, n - 1);
      FromBigEndianInverse(v / 256, n - 1);
    }
  }

  /** Every byte string is the big-endian encoding of its own value. */
  lemma {:induction false} BigEndianInverse(s: seq<byte>)
    ensures BigEndian(FromBigEndian(s), |s|) == s
  {
    if s != [] {
      var init := s[..|s| - 1];
      BigEndianInverse(init);
      var v := FromBigEndian(s);
      assert v / 256 == FromBigEndian(init);
      assert v % 256 == s[|s| - 1];
      assert s == init + [s[|s| - 1]];
    }
  }

  /** The two bytes of a 16-bit value: high byte, then low byte. */
  lemma TwoBytes(v: nat)
    requires v < 0x1_0000
    ensures BigEndian(v, 2) == [v / 256, v % 256]
  {
    assert Pow256(1) == 256;
    assert BigEndian(v / 256, 1) == BigEndian(v / 256 / 256, 0) + [v / 256 % 256];
  }

  /** The four bytes of a 32-bit value, most significant first. */
  lemma FourBytes(v: nat)
    requires v < 0x1_0000_0000
    ensures BigEndian(v, 4) == [v / 0x100_0000, v / 0x1_0000 % 256, v / 256 % 256, v % 256]
  {
    Pow256Constants();
    var q1 := v / 256;
    var q2 := q1 / 256;
    assert q2 == v / 0x1_0000;
    assert q2 / 256 == v / 0x100_0000;
    assert BigEndian(v, 4) == BigEndian(q1, 3) + [v % 256];
    assert BigEndian(q1, 3) == BigEndian(q2, 2) + [q1 % 256];
    TwoBytes(q2);
  }

  /** A slice of a concatenation that lies wholly in its second part. */
  lemma SliceOfConcat<T>(a: seq<T>, c: seq<T>, i: nat, j: nat)
    requires i <= j <= |c|
    ensures (a + c)[|a| + i..|a| + j] == c[i..j]
  {
  }

  /** A slice of a slice is a slice of the whole. */
  lemma SliceOfSlice<T>(s: seq<T>, o: nat, n: nat, i: nat, j: nat)
    requires o + n <= |s| && i <= j <= n
    ensures s[o..o + n][i..j] == s[o + i..o + j]
  {
    var a, c := s[o..o + n][i..j], s[o + i..o + j];
    forall k | 0 <= k < |a|
      ensures a[k] == c[k]
    {
    }
  }
}
