/** Base64 with padding (RFC 4648, section 4), in which pkg/grpc/proto_decoder.go shows raw bytes. */
module Base64 {
  import opened Bytes

  const PADDING: Byte := 61

  /** The character of a six-bit value. */
  function Sextet(n: nat): (c: Byte)
    requires n < 64
    ensures 43 <= c <= 122 && c != PADDING
  {
    if n < 26 then 65 + n
    else if n < 52 then 71 + n
    else if n < 62 then n - 4
    else if n == 62 then 43
    else 47
  }

  function SextetValue(c: Byte): (n: nat)
    ensures n < 64
  {
    if 65 <= c <= 90 then c - 65
    else if 97 <= c <= 122 then c - 71
    else if 48 <= c <= 57 then c + 4
    else if c == 43 then 62
    else 63
  }

  lemma {:induction false} SextetReadsBack(n: nat)
    requires n < 64
    ensures SextetValue(Sextet(n)) == n
  {
  }

  /** The bytes of four six-bit values. */
  function Joined(v0: nat, v1: nat, v2: nat, v3: nat): (b: Octets)
    requires v0 < 64 && v1 < 64 && v2 < 64 && v3 < 64
    ensures |b| == 3
  {
    [v0 * 4 + v1 / 16, v1 % 16 * 16 + v2 / 4, v2 % 4 * 64 + v3]
  }

  lemma {:induction false} SplitJoins(b0: Byte, b1: Byte, b2: Byte)
    ensures Joined(b0 / 4, b0 % 4 * 16 + b1 / 16, b1 % 16 * 4 + b2 / 64, b2 % 64) == [b0, b1, b2]
  {
    QuotientOf(b0 % 4 * 16 + b1 / 16, 16, b0 % 4, b1 / 16);
    QuotientOf(b1 % 16 * 4 + b2 / 64, 4, b1 % 16, b2 / 64);
  }

  lemma {:induction false} SplitJoinsTwo(b0: Byte, b1: Byte, v3: nat)
    requires v3 < 64
    ensures Joined(b0 / 4, b0 % 4 * 16 + b1 / 16, b1 % 16 * 4, v3)[..2] == [b0, b1]
  {
    QuotientOf(b0 % 4 * 16 + b1 / 16, 16, b0 % 4, b1 / 16);
    QuotientOf(b1 % 16 * 4, 4, b1 % 16, 0);
  }

  /** The four characters of one, two or three bytes. */
  function Quad(b: Octets): (t: Octets)
    requires 1 <= |b| <= 3
    ensures |t| == 4
  {
    if |b| == 1 then [Sextet(b[0] / 4), Sextet(b[0] % 4 * 16), PADDING, PADDING]
    else if |b| == 2 then
      [Sextet(b[0] / 4), Sextet(b[0] % 4 * 16 + b[1] / 16), Sextet(b[1] % 16 * 4), PADDING]
    else
      [ Sextet(b[0] / 4), Sextet(b[0] % 4 * 16 + b[1] / 16),
        Sextet(b[1] % 16 * 4 + b[2] / 64), Sextet(b[2] % 64)]
  }

  /** The bytes of four characters. */
  function FromQuad(t: Octets): Octets
    requires |t| == 4
  {
    var b := Joined(SextetValue(t[0]), SextetValue(t[1]), SextetValue(t[2]), SextetValue(t[3]));
    if t[2] == PADDING then b[..1] else if t[3] == PADDING then b[..2] else b
  }

  lemma {:induction false} OneReadsBack(b: Octets)
    requires |b| == 1
    ensures FromQuad(Quad(b)) == b
  {
    SextetReadsBack(b[0] / 4);
    SextetReadsBack(b[0] % 4 * 16);
    assert FromQuad(Quad(b)) == [b[0]];
  }

  lemma {:induction false} TwoReadBack(b: Octets)
    requires |b| == 2
    ensures FromQuad(Quad(b)) == b
  {
    SextetReadsBack(b[0] / 4);
    SextetReadsBack(b[0] % 4 * 16 + b[1] / 16);
    SextetReadsBack(b[1] % 16 * 4);
    SplitJoinsTwo(b[0], b[1], SextetValue(PADDING));
    assert FromQuad(Quad(b)) == [b[0], b[1]];
  }

  lemma {:induction false} ThreeReadBack(b: Octets)
    requires |b| == 3
    ensures FromQuad(Quad(b)) == b
  {
    SextetReadsBack(b[0] / 4);
    SextetReadsBack(b[0] % 4 * 16 + b[1] / 16);
    SextetReadsBack(b[1] % 16 * 4 + b[2] / 64);
    SextetReadsBack(b[2] % 64);
    SplitJoins(b[0], b[1], b[2]);
    assert FromQuad(Quad(b)) == [b[0], b[1], b[2]];
  }

  lemma {:induction false} QuadReadsBack(b: Octets)
    requires 1 <= |b| <= 3
    ensures FromQuad(Quad(b)) == b
  {
    match |b| {
      case 1 => OneReadsBack(b);
      case 2 => TwoReadBack(b);
      case _ => ThreeReadBack(b);
    }
  }

  /** `base64.StdEncoding.EncodeToString`. */
  function Encoded(b: Octets): (t: Octets) {
    if b == [] then [] else if |b| <= 3 then Quad(b) else Quad(b[..3]) + Encoded(b[3..])
  }

  function Decoded(t: Octets): Octets {
    if |t| < 4 then [] else FromQuad(t[..4]) + Decoded(t[4..])
  }

  lemma {:induction false} EncodedReadsBack(b: Octets)
    ensures Decoded(Encoded(b)) == b
  {
    if 0 < |b| <= 3 {
      QuadReadsBack(b);
      assert Quad(b)[..4] == Quad(b) && Quad(b)[4..] == [];
    } else if b != [] {
      var t := Encoded(b);
      QuadReadsBack(b[..3]);
      EncodedReadsBack(b[3..]);
      assert t[..4] == Quad(b[..3]) && t[4..] == Encoded(b[3..]);
      assert b == b[..3] + b[3..];
    }
  }

  /** Different bytes are shown differently. */
  lemma {:induction false} EncodedInjective(a: Octets, b: Octets)
    requires Encoded(a) == Encoded(b)
    ensures a == b
  {
    EncodedReadsBack(a);
    EncodedReadsBack(b);
  }

  /** What is shown is longer than what it shows, and made of printable ASCII characters. */
  lemma {:induction false} EncodedIsLonger(b: Octets)
    ensures b != [] ==> |Encoded(b)| > |b|
    ensures forall c :: c in Encoded(b) ==> 43 <= c <= 122
  {
    if |b| > 3 {
      EncodedIsLonger(b[3..]);
    }
  }

  /** The alphabet: upper case, lower case, digits, plus and slash. */
  lemma {:induction false} SextetIsLetter(n: nat)
    requires n < 64
    ensures n < 26 ==> Sextet(n) == 'A' as int + n
    ensures 26 <= n < 52 ==> Sextet(n) == 'a' as int + (n - 26)
    ensures 52 <= n < 62 ==> Sextet(n) == '0' as int + (n - 52)
    ensures n == 62 ==> Sextet(n) == '+' as int
    ensures n == 63 ==> Sextet(n) == '/' as int
  {
  }

  /** The number that up to four sextets, filled up with zeros, make. */
  function Bits(t: Octets): nat
    requires |t| == 4
  {
    var v2, v3 := if t[2] == PADDING then 0 else SextetValue(t[2]), if t[3] == PADDING then 0 else SextetValue(t[3]);
    SextetValue(t[0]) * 262144 + SextetValue(t[1]) * 4096 + v2 * 64 + v3
  }

  /**
   Four characters hold the bits of up to three bytes, most significant first and filled up with zeros;
   two signs at the end stand for one byte, one sign for two.
   */
  lemma {:induction false} QuadHoldsBits(b: Octets)
    requires 1 <= |b| <= 3
    ensures Bits(Quad(b)) == b[0] as int * 65536
                             + (if |b| > 1 then b[1] as int else 0) * 256 + (if |b| > 2 then b[2] as int else 0)
    ensures (Quad(b)[3] == '=' as int <==> |b| < 3) && (Quad(b)[2] == '=' as int <==> |b| == 1)
  {
    if |b| == 1 {
      SextetReadsBack(b[0] / 4);
      SextetReadsBack(b[0] % 4 * 16);
    } else if |b| == 2 {
      SextetReadsBack(b[0] / 4);
      SextetReadsBack(b[0] % 4 * 16 + b[1] / 16);
      SextetReadsBack(b[1] % 16 * 4);
    } else {
      SextetReadsBack(b[0] / 4);
      SextetReadsBack(b[0] % 4 * 16 + b[1] / 16);
      SextetReadsBack(b[1] % 16 * 4 + b[2] / 64);
      SextetReadsBack(b[2] % 64);
    }
  }

  lemma {:induction false} EncodedUnfolds(b: Octets)
    requires |b| >= 3
    ensures Encoded(b) == Quad(b[..3]) + Encoded(b[3..])
  {
    if |b| == 3 {
      assert b[..3] == b;
    }
  }

  /** Three bytes in front add their four characters in front; up to three bytes are their own group. */
  lemma {:induction false} EncodedByGroups(first: Octets, rest: Octets)
    requires 1 <= |first| <= 3 && (|first| < 3 ==> rest == [])
    ensures Encoded(first + rest) == Quad(first) + Encoded(rest)
  {
    var b := first + rest;
    if |first| == 3 {
      EncodedUnfolds(b);
      assert b[..3] == first && b[3..] == rest;
    } else {
      assert b == first;
    }
  }
}
