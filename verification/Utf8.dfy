/** UTF-8 (RFC 3629): the check of `utf8.Valid`, and the encoding it is measured against. */
module Utf8 {
  import opened Bytes

  // ---------------------------------------------------------------- the check

  predicate Continuation(b: Byte) {
    128 <= b < 192
  }

  /** Size of the sequence at the front of `s` (section 4), or 0 when there is none. */
  function Utf8Size(s: Octets): (n: nat)
    ensures n <= |s| && n <= 4
  {
    if s == [] then 0
    else if s[0] < 0x80 then 1
    else if 0xC2 <= s[0] <= 0xDF then
      if |s| >= 2 && Continuation(s[1]) then 2 else 0
    else if 0xE0 <= s[0] <= 0xEF then
      if |s| >= 3 && Continuation(s[1]) && Continuation(s[2])
         && (s[0] == 0xE0 ==> s[1] >= 0xA0) && (s[0] == 0xED ==> s[1] < 0xA0) then 3 else 0
    else if 0xF0 <= s[0] <= 0xF4 then
      if |s| >= 4 && Continuation(s[1]) && Continuation(s[2]) && Continuation(s[3])
         && (s[0] == 0xF0 ==> s[1] >= 0x90) && (s[0] == 0xF4 ==> s[1] < 0x90) then 4 else 0
    else 0
  }

  predicate ValidUtf8(s: Octets) {
    s == [] || (Utf8Size(s) > 0 && ValidUtf8(s[Utf8Size(s)..]))
  }

  // ---------------------------------------------------------------- the encoding

  /** The characters: all code points but the surrogates. */
  predicate Scalar(c: nat) {
    c < 0xD800 || 0xE000 <= c <= 0x10FFFF
  }

  /** One character (section 3). */
  function EncodeScalar(c: nat): (s: Octets)
    requires Scalar(c)
    ensures 1 <= |s| <= 4
  {
    if c < 0x80 then [c]
    else if c < 0x800 then [0xC0 + c / 64, 0x80 + c % 64]
    else if c < 0x10000 then [0xE0 + c / 4096, 0x80 + c / 64 % 64, 0x80 + c % 64]
    else [0xF0 + c / 262144, 0x80 + c / 4096 % 64, 0x80 + c / 64 % 64, 0x80 + c % 64]
  }

  predicate AllScalars(cs: seq<nat>) {
    forall c :: c in cs ==> Scalar(c)
  }

  function EncodeAll(cs: seq<nat>): Octets
    requires AllScalars(cs)
  {
    if cs == [] then [] else EncodeScalar(cs[0]) + EncodeAll(cs[1..])
  }

  // ---------------------------------------------------------------- they agree

  lemma {:induction false} EncodedSizeThree(c: nat, rest: Octets)
    requires Scalar(c) && 0x800 <= c < 0x10000
    ensures Utf8Size(EncodeScalar(c) + rest) == 3
  {
    var s := EncodeScalar(c) + rest;
    assert s[0] == 0xE0 + c / 4096 && s[1] == 0x80 + c / 64 % 64 && s[2] == 0x80 + c % 64;
    assert c / 64 == c / 4096 * 64 + c / 64 % 64;
  }

  lemma {:induction false} EncodedSizeFour(c: nat, rest: Octets)
    requires Scalar(c) && c >= 0x10000
    ensures Utf8Size(EncodeScalar(c) + rest) == 4
  {
    var s := EncodeScalar(c) + rest;
    assert s[0] == 0xF0 + c / 262144 && s[1] == 0x80 + c / 4096 % 64 && s[2] == 0x80 + c / 64 % 64 && s[3] == 0x80 + c % 64;
    assert c / 4096 == c / 262144 * 64 + c / 4096 % 64;
  }

  lemma {:induction false} EncodedSizeTwo(c: nat, rest: Octets)
    requires c < 0x800
    ensures Utf8Size(EncodeScalar(c) + rest) == |EncodeScalar(c)|
  {
    var s := EncodeScalar(c) + rest;
    assert s[0] == EncodeScalar(c)[0];
    assert c >= 0x80 ==> s[1] == 0x80 + c % 64;
  }

  lemma {:induction false} EncodedSize(c: nat, rest: Octets)
    requires Scalar(c)
    ensures Utf8Size(EncodeScalar(c) + rest) == |EncodeScalar(c)|
    ensures (EncodeScalar(c) + rest)[|EncodeScalar(c)|..] == rest
  {
    if c < 0x800 {
      EncodedSizeTwo(c, rest);
    } else if c < 0x10000 {
      EncodedSizeThree(c, rest);
    } else {
      EncodedSizeFour(c, rest);
    }
  }

  /** The character at the front of `s`. */
  function FrontScalar(s: Octets): nat
    requires Utf8Size(s) > 0
  {
    match Utf8Size(s)
    case 1 => s[0]
    case 2 => (s[0] as int - 0xC0) * 64 + (s[1] as int - 0x80)
    case 3 => (s[0] as int - 0xE0) * 4096 + (s[1] as int - 0x80) * 64 + (s[2] as int - 0x80)
    case _ => (s[0] as int - 0xF0) * 262144 + (s[1] as int - 0x80) * 4096 + (s[2] as int - 0x80) * 64 + (s[3] as int - 0x80)
  }

  /** Six-bit digits are taken apart again. */
  lemma {:induction false} TwoDigits(a: nat, b: nat)
    requires b < 64
    ensures (a * 64 + b) / 64 == a && (a * 64 + b) % 64 == b
  {
    QuotientOf(a * 64 + b, 64, a, b);
  }

  lemma {:induction false} ThreeDigits(a: nat, b: nat, c: nat)
    requires b < 64 && c < 64
    ensures var v := a * 4096 + b * 64 + c; v / 4096 == a && v / 64 % 64 == b && v % 64 == c
  {
    TwoDigits(a * 64 + b, c);
    TwoDigits(a, b);
  }

  lemma {:induction false} FourDigits(a: nat, b: nat, c: nat, d: nat)
    requires b < 64 && c < 64 && d < 64
    ensures var v := a * 262144 + b * 4096 + c * 64 + d;
            v / 262144 == a && v / 4096 % 64 == b && v / 64 % 64 == c && v % 64 == d
  {
    TwoDigits(a * 4096 + b * 64 + c, d);
    ThreeDigits(a, b, c);
  }

  lemma {:induction false} FrontOfTwo(s: Octets)
    requires Utf8Size(s) == 2
    ensures Scalar(FrontScalar(s)) && EncodeScalar(FrontScalar(s)) == [s[0], s[1]]
  {
    TwoDigits(s[0] as int - 0xC0, s[1] as int - 0x80);
  }

  lemma {:induction false} FrontOfThree(s: Octets)
    requires Utf8Size(s) == 3
    ensures Scalar(FrontScalar(s)) && EncodeScalar(FrontScalar(s)) == [s[0], s[1], s[2]]
  {
    ThreeDigits(s[0] as int - 0xE0, s[1] as int - 0x80, s[2] as int - 0x80);
  }

  lemma {:induction false} FrontOfFour(s: Octets)
    requires Utf8Size(s) == 4
    ensures Scalar(FrontScalar(s)) && EncodeScalar(FrontScalar(s)) == [s[0], s[1], s[2], s[3]]
  {
    FourDigits(s[0] as int - 0xF0, s[1] as int - 0x80, s[2] as int - 0x80, s[3] as int - 0x80);
  }

  lemma {:induction false} FrontIsEncoded(s: Octets)
    requires Utf8Size(s) > 0
    ensures Scalar(FrontScalar(s)) && s[..Utf8Size(s)] == EncodeScalar(FrontScalar(s))
  {
    if Utf8Size(s) == 2 {
      FrontOfTwo(s);
    } else if Utf8Size(s) == 3 {
      FrontOfThree(s);
    } else if Utf8Size(s) == 4 {
      FrontOfFour(s);
    }
  }

  lemma {:induction false} EncodedIsValid(cs: seq<nat>)
    requires AllScalars(cs)
    ensures ValidUtf8(EncodeAll(cs))
  {
    if cs != [] {
      EncodedIsValid(cs[1..]);
      EncodedSize(cs[0], EncodeAll(cs[1..]));
    }
  }

  lemma {:induction false} ValidIsEncoded(s: Octets) returns (cs: seq<nat>)
    requires ValidUtf8(s)
    ensures AllScalars(cs) && EncodeAll(cs) == s
  {
    if s == [] {
      cs := [];
    } else {
      var n := Utf8Size(s);
      var more := ValidIsEncoded(s[n..]);
      FrontIsEncoded(s);
      cs := [FrontScalar(s)] + more;
      assert cs[1..] == more;
      assert s == s[..n] + s[n..];
    }
  }

  /** The check accepts just the encodings of characters. */
  lemma {:induction false} ValidExactly(s: Octets)
    ensures ValidUtf8(s) <==> exists cs :: AllScalars(cs) && EncodeAll(cs) == s
  {
    if ValidUtf8(s) {
      var cs := ValidIsEncoded(s);
    }
    if cs :| AllScalars(cs) && EncodeAll(cs) == s {
      EncodedIsValid(cs);
    }
  }
}
