/** Bytes, options and the fixed-width integer encodings shared by the codecs. */
module Bytes {

  type Byte = b: int | 0 <= b < 256

  type Octets = seq<Byte>

  datatype Option<+T> = None | Some(value: T)

  /** The number whose base-256 digits, most significant first, are `s`. */
  function BigEndian(s: Octets): nat {
    if s == [] then 0 else BigEndian(s[..|s| - 1]) * 256 + s[|s| - 1]
  }

  /** The number whose base-256 digits, least significant first, are `s`. */
  function LittleEndian(s: Octets): nat {
    if s == [] then 0 else s[0] + 256 * LittleEndian(s[1..])
  }

  /** The `k` low base-256 digits of `v`, most significant first. */
  function ToBigEndian(v: nat, k: nat): (s: Octets)
    ensures |s| == k
  {
    if k == 0 then [] else ToBigEndian(v / 256, k - 1) + [v % 256]
  }

  /** The `k` low base-256 digits of `v`, least significant first. */
  function ToLittleEndian(v: nat, k: nat): (s: Octets)
    ensures |s| == k
  {
    if k == 0 then [] else [v % 256] + ToLittleEndian(v / 256, k - 1)
  }

  function Pow256(k: nat): (p: nat)
    ensures p >= 1
  {
    if k == 0 then 1 else 256 * Pow256(k - 1)
  }

  lemma {:induction false} BigEndianRoundTrip(v: nat, k: nat)
    requires v < Pow256(k)
    ensures BigEndian(ToBigEndian(v, k)) == v
  {
    if k > 0 {
      BigEndianRoundTrip(v / 256, k - 1);
      var s := ToBigEndian(v, k);
      assert s[..k - 1] == ToBigEndian(v / 256, k - 1);
    }
  }

  /** The least significant byte comes first. */
  lemma {:induction false} LittleEndianFront(b: Byte, s: Octets)
    ensures LittleEndian([b] + s) == b as int + 0x100 * LittleEndian(s)
  {
    assert ([b] + s)[1..] == s;
  }

  lemma {:induction false} LittleEndianJoins(s: Octets, t: Octets)
    requires |s| == 4
    ensures LittleEndian(s + t)
         == s[0] as int + 0x100 * s[1] as int + 0x1_0000 * s[2] as int + 0x100_0000 * s[3] as int
            + 0x1_0000_0000 * LittleEndian(t)
  {
    LittleEndianFront(s[3], t);
    LittleEndianFront(s[2], [s[3]] + t);
    LittleEndianFront(s[1], [s[2]] + ([s[3]] + t));
    LittleEndianFront(s[0], [s[1]] + ([s[2]] + ([s[3]] + t)));
    assert s + t == [s[0]] + ([s[1]] + ([s[2]] + ([s[3]] + t)));
  }

  /** The weights of four bytes, spelled out. */
  lemma {:induction false} LittleEndianFour(s: Octets)
    requires |s| == 4
    ensures LittleEndian(s) == s[0] as int + 0x100 * s[1] as int + 0x1_0000 * s[2] as int + 0x100_0000 * s[3] as int
  {
    LittleEndianJoins(s, []);
    assert s + [] == s && LittleEndian([]) == 0;
  }

  /** The most significant byte comes first. */
  lemma {:induction false} BigEndianFront(s: Octets, b: Byte)
    ensures BigEndian(s + [b]) == BigEndian(s) * 256 + b
  {
    assert (s + [b])[..|s|] == s;
  }

  lemma {:induction false} BigEndianTwo(a: Byte, b: Byte)
    ensures BigEndian([a, b]) == 0x100 * a as int + b as int
  {
    BigEndianFront([], a);
    BigEndianFront([a], b);
    assert [] + [a] == [a] && [a] + [b] == [a, b];
  }

  lemma {:induction false} BigEndianJoins(s: Octets, a: Byte, b: Byte)
    ensures BigEndian(s + [a, b]) == BigEndian(s) * 0x1_0000 + 0x100 * a as int + b as int
  {
    BigEndianFront(s, a);
    BigEndianFront(s + [a], b);
    assert s + [a] + [b] == s + [a, b];
  }

  lemma {:induction false} BigEndianFour(a: Byte, b: Byte, c: Byte, d: Byte)
    ensures BigEndian([a, b, c, d]) == 0x100_0000 * a as int + 0x1_0000 * b as int + 0x100 * c as int + d as int
  {
    BigEndianTwo(a, b);
    BigEndianJoins([a, b], c, d);
    assert [a, b] + [c, d] == [a, b, c, d];
  }

  lemma {:induction false} BigEndianHalves(s: Octets, t: Octets)
    requires |t| == 4
    ensures BigEndian(s + t) == BigEndian(s) * 0x1_0000_0000 + BigEndian(t)
  {
    BigEndianJoins(s, t[0], t[1]);
    BigEndianJoins(s + [t[0], t[1]], t[2], t[3]);
    BigEndianFour(t[0], t[1], t[2], t[3]);
    assert t == [t[0], t[1], t[2], t[3]];
    assert s + [t[0], t[1]] + [t[2], t[3]] == s + t;
  }

  lemma {:induction false} LittleEndianRoundTrip(v: nat, k: nat)
    requires v < Pow256(k)
    ensures LittleEndian(ToLittleEndian(v, k)) == v
  {
    if k > 0 {
      LittleEndianRoundTrip(v / 256, k - 1);
      assert ToLittleEndian(v, k)[1..] == ToLittleEndian(v / 256, k - 1);
    }
  }

  lemma {:induction false} ToBigEndianInverse(s: Octets)
    ensures ToBigEndian(BigEndian(s), |s|) == s
  {
    if s != [] {
      ToBigEndianInverse(s[..|s| - 1]);
    }
  }

  lemma {:induction false} QuotientOf(x: nat, p: nat, q: nat, r: nat)
    requires r < p && x == p * q + r
    ensures x / p == q && x % p == r
  {
    var d := x / p;
    assert p * (d - q) == r - x % p;
    if d > q {
      AtLeast(p, d - q);
    } else if d < q {
      AtLeast(p, q - d);
    }
  }

  lemma {:induction false} AtLeast(p: nat, k: nat)
    requires k >= 1
    ensures p * k >= p
  {
  }

  function Pow2(k: nat): (p: nat)
    ensures p >= 1
  {
    if k == 0 then 1 else 2 * Pow2(k - 1)
  }

  /** Bitwise exclusive or of the `k` low bits. */
  function XorBits(a: nat, b: nat, k: nat): (r: nat)
    ensures r < Pow2(k)
  {
    if k == 0 then 0 else (if a % 2 == b % 2 then 0 else 1) + 2 * XorBits(a / 2, b / 2, k - 1)
  }

  /** Bitwise exclusive or of two bytes. */
  function Xor(a: Byte, b: Byte): Byte {
    assert Pow2(8) == 256;
    XorBits(a, b, 8)
  }

  lemma {:induction false} XorBitsInvolution(a: nat, b: nat, k: nat)
    requires a < Pow2(k)
    ensures XorBits(XorBits(a, b, k), b, k) == a
  {
    if k > 0 {
      XorBitsInvolution(a / 2, b / 2, k - 1);
      var x := XorBits(a, b, k);
      assert x / 2 == XorBits(a / 2, b / 2, k - 1);
      assert x % 2 == if a % 2 == b % 2 then 0 else 1;
    }
  }

  /** Bit `j` of a number, the lowest being bit 0. */
  function Bit(n: nat, j: nat): nat {
    if j == 0 then n % 2 else Bit(n / 2, j - 1)
  }

  lemma {:induction false} XorBitsAt(a: nat, b: nat, k: nat, j: nat)
    requires j < k
    ensures Bit(XorBits(a, b, k), j) == (Bit(a, j) + Bit(b, j)) % 2
  {
    var low := if a % 2 == b % 2 then 0 else 1;
    QuotientOf(low + 2 * XorBits(a / 2, b / 2, k - 1), 2, XorBits(a / 2, b / 2, k - 1), low);
    if j > 0 {
      XorBitsAt(a / 2, b / 2, k - 1, j - 1);
    }
  }

  lemma {:induction false} XorInvolution(a: Byte, b: Byte)
    ensures Xor(Xor(a, b), b) == a
  {
    assert Pow2(8) == 256;
    XorBitsInvolution(a, b, 8);
  }
}
