/**
 AES in ECB mode with PKCS#7 padding (NIST SP 800-38A, section 6.1; RFC 5652, section 6.3): the
 encrypting toolbox of app_toolbox.go against the decrypting interceptor of pkg/interceptor/crypto.go.

 The cipher is a parameter: for each key, a permutation of 16-byte blocks. Ciphertexts are bytes; the
 Base64 or hexadecimal text around them is not part of this model.
 */
module EcbPadding {
  import opened Bytes

  const BLOCK: nat := 16

  /** Encryption and decryption of one block under a key. */
  datatype Cipher = Cipher(encrypt: (Octets, Octets) -> Octets, decrypt: (Octets, Octets) -> Octets)

  ghost predicate Permutes(c: Cipher, key: Octets) {
    forall b: Octets :: |b| == BLOCK ==>
      |c.encrypt(key, b)| == BLOCK && |c.decrypt(key, b)| == BLOCK && c.decrypt(key, c.encrypt(key, b)) == b
  }

  datatype Result = Ok(data: Octets) | BadKeySize | BadLength | NoData | BadPadding

  // ---------------------------------------------------------------- blocks

  /** `f` on every whole block of `s`. */
  function MapBlocks(s: Octets, f: Octets -> Octets): Octets {
    if |s| < BLOCK then [] else f(s[..BLOCK]) + MapBlocks(s[BLOCK..], f)
  }

  /** `f` keeps the size of blocks and `g` undoes it. */
  ghost predicate Undoes(g: Octets -> Octets, f: Octets -> Octets) {
    forall b: Octets :: |b| == BLOCK ==> |f(b)| == BLOCK && g(f(b)) == b
  }

  lemma {:induction false} MapBlocksInverse(s: Octets, f: Octets -> Octets, g: Octets -> Octets)
    requires |s| % BLOCK == 0 && Undoes(g, f)
    ensures |MapBlocks(s, f)| == |s| && MapBlocks(MapBlocks(s, f), g) == s
  {
    if s != [] {
      var first, rest := s[..BLOCK], s[BLOCK..];
      MapBlocksInverse(rest, f, g);
      InverseFirst(first, MapBlocks(rest, f), rest, f, g);
      assert first + rest == s;
    }
  }

  lemma {:induction false} InverseFirst(first: Octets, mapped: Octets, rest: Octets, f: Octets -> Octets, g: Octets -> Octets)
    requires |first| == BLOCK && Undoes(g, f)
    requires MapBlocks(mapped, g) == rest
    ensures |f(first)| == BLOCK && MapBlocks(f(first) + mapped, g) == first + rest
  {
    assert |f(first)| == BLOCK && g(f(first)) == first;
    MapBlocksFirst(f(first), mapped, g);
  }

  lemma {:induction false} MapBlocksFirst(b: Octets, rest: Octets, g: Octets -> Octets)
    requires |b| == BLOCK
    ensures MapBlocks(b + rest, g) == g(b) + MapBlocks(rest, g)
  {
    assert (b + rest)[..BLOCK] == b && (b + rest)[BLOCK..] == rest;
  }

  lemma {:induction false} MapBlocksAppend(s: Octets, b: Octets, f: Octets -> Octets)
    requires |s| % BLOCK == 0 && |b| == BLOCK
    ensures MapBlocks(s + b, f) == MapBlocks(s, f) + f(b)
  {
    if s == [] {
      assert s + b == b && b[..BLOCK] == b && b[BLOCK..] == [];
    } else {
      assert (s + b)[..BLOCK] == s[..BLOCK] && (s + b)[BLOCK..] == s[BLOCK..] + b;
      MapBlocksAppend(s[BLOCK..], b, f);
    }
  }

  /** One block written into the buffer. */
  method WriteBlock(out: array<Byte>, at: nat, block: Octets)
    requires at + |block| <= out.Length
    modifies out
    ensures out[..at] == old(out[..at]) && out[at..at + |block|] == block
  {
    for i := 0 to |block|
      invariant out[..at] == old(out[..at])
      invariant out[at..at + i] == block[..i]
    {
      out[at + i] := block[i];
    }
  }

  lemma {:induction false} PrefixGrows(s: Octets, at: nat, n: nat)
    requires at + n <= |s|
    ensures s[..at + n] == s[..at] + s[at..at + n]
  {
  }

  lemma {:induction false} MapBlocksGrows(s: Octets, bs: nat, f: Octets -> Octets)
    requires bs % BLOCK == 0 && bs + BLOCK <= |s|
    ensures MapBlocks(s[..bs + BLOCK], f) == MapBlocks(s[..bs], f) + f(s[bs..bs + BLOCK])
  {
    MapBlocksAppend(s[..bs], s[bs..bs + BLOCK], f);
    PrefixGrows(s, bs, BLOCK);
  }

  /** The block loop, filling a buffer of the same size. */
  method CryptBlocks(s: Octets, f: Octets -> Octets) returns (t: Octets)
    requires |s| % BLOCK == 0 && forall b: Octets :: |b| == BLOCK ==> |f(b)| == BLOCK
    ensures t == MapBlocks(s, f)
  {
    var out := new Byte[|s|](_ => 0);
    var bs := 0;
    assert s[..0] == [];
    while bs < |s|
      invariant bs % BLOCK == 0 && bs <= |s|
      invariant out[..bs] == MapBlocks(s[..bs], f)
      decreases |s| - bs
    {
      var block := f(s[bs..bs + BLOCK]);
      MapBlocksGrows(s, bs, f);
      WriteBlock(out, bs, block);
      PrefixGrows(out[..], bs, BLOCK);
      bs := bs + BLOCK;
    }
    assert s[..|s|] == s && out[..|s|] == out[..];
    t := out[..];
  }

  // ---------------------------------------------------------------- padding

  function Repeat(b: Byte, n: nat): (s: Octets)
    ensures |s| == n
  {
    seq(n, _ => b)
  }

  function PadSize(n: nat): (p: nat)
    ensures 1 <= p <= BLOCK && (n + p) % BLOCK == 0
  {
    BLOCK - n % BLOCK
  }

  /** PKCS#7: between one and sixteen bytes, each holding their number. */
  function Pad(s: Octets): (t: Octets)
    ensures |t| % BLOCK == 0 && s < t
  {
    s + Repeat(PadSize(|s|), PadSize(|s|))
  }

  /** `data` is `plain` followed by `n` bytes that each hold `n`. */
  predicate PaddedWith(data: Octets, plain: Octets, n: nat) {
    1 <= n <= BLOCK && data == plain + Repeat(n, n)
  }

  /** `pkcs7Unpad`. */
  method Pkcs7Unpad(data: Octets) returns (r: Result)
    ensures r.Ok? || r == if data == [] then NoData else BadPadding
    ensures r.Ok? <==> exists plain, n :: PaddedWith(data, plain, n)
    ensures forall plain, n :: PaddedWith(data, plain, n) ==> r == Ok(plain)
    ensures r == Unpadded(data)
  {
    UnpaddedIsStrict(data);
    var length := |data|;
    if length == 0 {
      return NoData;
    }
    var unpadding := data[length - 1];
    if unpadding == 0 || unpadding > BLOCK || unpadding > length {
      return BadPadding;
    }
    for i := length - unpadding to length
      invariant forall j :: length - unpadding <= j < i ==> data[j] == unpadding
    {
      if data[i] != unpadding {
        return BadPadding;
      }
    }
    assert data[length - unpadding..] == Repeat(unpadding, unpadding);
    assert data == data[..length - unpadding] + Repeat(unpadding, unpadding);
    return Ok(data[..length - unpadding]);
  }

  /** What unpadding gives, as a function of the data. */
  function Unpadded(data: Octets): Result {
    if data == [] then NoData
    else
      var n := data[|data| - 1];
      if 1 <= n <= BLOCK && n <= |data| && data[|data| - n..] == Repeat(n, n) then Ok(data[..|data| - n])
      else BadPadding
  }

  lemma {:induction false} UnpaddedWith(data: Octets, plain: Octets, n: nat)
    requires PaddedWith(data, plain, n)
    ensures Unpadded(data) == Ok(plain)
  {
    assert data[|data| - 1] == n;
    assert data[|data| - n..] == Repeat(n, n) && data[..|data| - n] == plain;
  }

  lemma {:induction false} UnpaddedIsStrict(data: Octets)
    ensures Unpadded(data).Ok? <==> exists plain, n :: PaddedWith(data, plain, n)
    ensures forall plain, n :: PaddedWith(data, plain, n) ==> Unpadded(data) == Ok(plain)
  {
    forall plain, n | PaddedWith(data, plain, n)
      ensures Unpadded(data) == Ok(plain)
    {
      UnpaddedWith(data, plain, n);
    }
    if Unpadded(data).Ok? {
      var n := data[|data| - 1];
      assert data == data[..|data| - n] + data[|data| - n..];
      assert PaddedWith(data, data[..|data| - n], n);
    }
  }

  /** On whole blocks unpadding succeeds exactly on what padding makes, and undoes it. */
  lemma {:induction false} UnpadInvertsPad(data: Octets, plain: Octets)
    requires |data| % BLOCK == 0
    ensures Unpadded(data) == Ok(plain) <==> data == Pad(plain)
  {
    if data == Pad(plain) {
      UnpaddedWith(data, plain, PadSize(|plain|));
    }
    if Unpadded(data) == Ok(plain) {
      var n := data[|data| - 1];
      assert data == plain + data[|data| - n..];
      assert n == PadSize(|plain|);
    }
  }

  /** The toolbox's own unpadding: it looks at the last byte only, and keeps data it cannot unpad. */
  function LenientUnpadded(data: Octets): Octets {
    if data == [] then data
    else
      var n := data[|data| - 1];
      if 0 < n <= BLOCK && |data| >= n then data[..|data| - n] else data
  }

  /**
   Where strict unpadding succeeds the lenient one gives the same; and where the strict one refuses,
   the lenient one still returns something, cut short exactly when the last byte could be a length.
   */
  lemma {:induction false} LenientAgreesWithStrict(data: Octets)
    ensures Unpadded(data).Ok? ==> LenientUnpadded(data) == Unpadded(data).data
    ensures LenientUnpadded(data) != data <==> data != [] && 1 <= data[|data| - 1] <= BLOCK && data[|data| - 1] <= |data|
  {
  }

  // ---------------------------------------------------------------- both ends

  /** The key sizes `aes.NewCipher` takes. */
  predicate AesKey(key: Octets) {
    |key| == 16 || |key| == 24 || |key| == 32
  }

  /** ECB encryption in the toolbox. */
  method ToolboxEncrypt(plaintext: Octets, key: Octets, c: Cipher) returns (r: Result)
    requires AesKey(key) ==> Permutes(c, key)
    ensures r == Encrypted(plaintext, key, c)
  {
    if |key| != 16 && |key| != 24 && |key| != 32 {
      return BadKeySize;
    }
    var padding := BLOCK - |plaintext| % BLOCK;
    var padded := plaintext + Repeat(padding, padding);
    assert padded == Pad(plaintext);
    CipherKeepsSize(key, c);
    var ciphertext := CryptBlocks(padded, EncryptWith(c, key));
    return Ok(ciphertext);
  }

  function EncryptWith(c: Cipher, key: Octets): Octets -> Octets {
    b => c.encrypt(key, b)
  }

  function DecryptWith(c: Cipher, key: Octets): Octets -> Octets {
    b => c.decrypt(key, b)
  }

  lemma {:induction false} CipherKeepsSize(key: Octets, c: Cipher)
    requires Permutes(c, key)
    ensures forall b: Octets :: |b| == BLOCK ==> |EncryptWith(c, key)(b)| == BLOCK && |DecryptWith(c, key)(b)| == BLOCK
  {
  }

  lemma {:induction false} BlocksRoundTrip(s: Octets, key: Octets, c: Cipher)
    requires Permutes(c, key) && |s| % BLOCK == 0
    ensures |MapBlocks(s, EncryptWith(c, key))| == |s|
    ensures MapBlocks(MapBlocks(s, EncryptWith(c, key)), DecryptWith(c, key)) == s
  {
    var f, g := EncryptWith(c, key), DecryptWith(c, key);
    assert forall b: Octets :: |b| == BLOCK ==> |f(b)| == BLOCK && g(f(b)) == b;
    MapBlocksInverse(s, f, g);
  }

  function Encrypted(plaintext: Octets, key: Octets, c: Cipher): Result {
    if !AesKey(key) then BadKeySize else Ok(MapBlocks(Pad(plaintext), EncryptWith(c, key)))
  }

  /**
   ECB decryption in the interceptor. Its own check admits keys of 16, 32 and 48 bytes; 48 is then
   refused by the cipher, and 24 never gets that far.
   */
  method DecryptData(ciphertext: Octets, key: Octets, c: Cipher) returns (r: Result)
    requires AesKey(key) ==> Permutes(c, key)
    ensures r == Decrypted(ciphertext, key, c)
  {
    if |key| != BLOCK && |key| != 2 * BLOCK && |key| != 3 * BLOCK {
      return BadKeySize;
    }
    if |key| != 16 && |key| != 24 && |key| != 32 {
      return BadKeySize;
    }
    if |ciphertext| % BLOCK != 0 {
      return BadLength;
    }
    CipherKeepsSize(key, c);
    var plain := CryptBlocks(ciphertext, DecryptWith(c, key));
    r := Pkcs7Unpad(plain);
  }

  function Decrypted(ciphertext: Octets, key: Octets, c: Cipher): Result {
    if |key| != 16 && |key| != 32 then BadKeySize
    else if |ciphertext| % BLOCK != 0 then BadLength
    else Unpadded(MapBlocks(ciphertext, DecryptWith(c, key)))
  }

  /**
   What the toolbox encrypts under any key it accepts, the interceptor decrypts to the same plaintext
   if and only if the key is not 24 bytes long.
   */
  lemma {:induction false} DecryptInvertsEncrypt(plaintext: Octets, key: Octets, c: Cipher)
    requires AesKey(key) && Permutes(c, key)
    ensures Encrypted(plaintext, key, c).Ok?
    ensures Decrypted(Encrypted(plaintext, key, c).data, key, c) == Ok(plaintext) <==> |key| != 24
  {
    BlocksRoundTrip(Pad(plaintext), key, c);
    UnpadInvertsPad(Pad(plaintext), plaintext);
  }

  // ---------------------------------------------------------------- the toolbox's own decryption

  /** ECB decryption in the toolbox. */
  method ToolboxDecrypt(ciphertext: Octets, key: Octets, c: Cipher) returns (r: Result)
    requires AesKey(key) ==> Permutes(c, key)
    ensures r == ToolboxDecrypted(ciphertext, key, c)
  {
    if |key| != 16 && |key| != 24 && |key| != 32 {
      return BadKeySize;
    }
    if |ciphertext| % BLOCK != 0 {
      return BadLength;
    }
    CipherKeepsSize(key, c);
    var plaintext := CryptBlocks(ciphertext, DecryptWith(c, key));
    if |plaintext| > 0 {
      var padding := plaintext[|plaintext| - 1];
      if padding > 0 && padding <= BLOCK && |plaintext| >= padding {
        plaintext := plaintext[..|plaintext| - padding];
      }
    }
    return Ok(plaintext);
  }

  function ToolboxDecrypted(ciphertext: Octets, key: Octets, c: Cipher): Result {
    if !AesKey(key) then BadKeySize
    else if |ciphertext| % BLOCK != 0 then BadLength
    else Ok(LenientUnpadded(MapBlocks(ciphertext, DecryptWith(c, key))))
  }

  /**
   The toolbox undoes its own encryption under every key it accepts, 24 bytes included; and whatever
   the interceptor decrypts, the toolbox decrypts to the same.
   */
  lemma {:induction false} ToolboxUndoesItself(plaintext: Octets, ciphertext: Octets, key: Octets, c: Cipher)
    requires AesKey(key) && Permutes(c, key)
    ensures ToolboxDecrypted(Encrypted(plaintext, key, c).data, key, c) == Ok(plaintext)
    ensures Decrypted(ciphertext, key, c).Ok? ==> ToolboxDecrypted(ciphertext, key, c) == Decrypted(ciphertext, key, c)
  {
    BlocksRoundTrip(Pad(plaintext), key, c);
    UnpadInvertsPad(Pad(plaintext), plaintext);
    LenientAgreesWithStrict(Pad(plaintext));
    LenientAgreesWithStrict(MapBlocks(ciphertext, DecryptWith(c, key)));
  }

  // ---------------------------------------------------------------- block by block, size by size

  lemma {:induction false} SliceAfter(first: Octets, rest: Octets, a: nat, b: nat)
    requires |first| == BLOCK && a <= b <= |rest|
    ensures (first + rest)[BLOCK + a..BLOCK + b] == rest[a..b]
  {
  }

  /** Every block becomes what the cipher makes of it, in its own place. */
  lemma {:induction false} MapBlocksAt(s: Octets, f: Octets -> Octets, at: nat)
    requires |s| % BLOCK == 0 && at % BLOCK == 0 && at + BLOCK <= |s|
    requires forall b: Octets :: |b| == BLOCK ==> |f(b)| == BLOCK
    ensures at + BLOCK <= |MapBlocks(s, f)| && MapBlocks(s, f)[at..at + BLOCK] == f(s[at..at + BLOCK])
  {
    var block, tail := s[..BLOCK], s[BLOCK..];
    var first, rest := f(block), MapBlocks(tail, f);
    if at > 0 {
      var before := at - BLOCK;
      MapBlocksAt(tail, f, before);
      SliceAfter(first, rest, before, at);
      assert block + tail == s;
      SliceAfter(block, tail, before, at);
    } else {
      assert (first + rest)[0..BLOCK] == first && s[0..BLOCK] == block;
    }
  }

  /** The toolbox encrypts under keys of 16, 24 and 32 bytes, and no others. */
  lemma {:induction false} EncryptedExactly(plaintext: Octets, key: Octets, c: Cipher)
    ensures Encrypted(plaintext, key, c).Ok? <==> |key| in {16, 24, 32}
    ensures |key| !in {16, 24, 32} ==> Encrypted(plaintext, key, c) == BadKeySize
  {
  }

  /** The ciphertext is each block of the plaintext and its padding, encrypted, in its own place. */
  lemma {:induction false} EncryptedBlocks(plaintext: Octets, key: Octets, c: Cipher, padded: Octets, n: nat, at: nat)
    requires AesKey(key) && Permutes(c, key)
    requires PaddedWith(padded, plaintext, n) && |padded| % 16 == 0 && at % 16 == 0 && at < |padded|
    ensures var data := Encrypted(plaintext, key, c).data;
            |data| == |padded| && data[at..at + 16] == c.encrypt(key, padded[at..at + 16])
  {
    OnlyPadding(padded, plaintext, n);
    WholeBlockFits(at, |padded|);
    EncryptedAt(padded, key, c, at);
  }

  lemma {:induction false} EncryptedAt(s: Octets, key: Octets, c: Cipher, at: nat)
    requires Permutes(c, key) && |s| % BLOCK == 0 && at % BLOCK == 0 && at + BLOCK <= |s|
    ensures var data := MapBlocks(s, EncryptWith(c, key));
            |data| == |s| && data[at..at + BLOCK] == c.encrypt(key, s[at..at + BLOCK])
  {
    CipherKeepsSize(key, c);
    BlocksRoundTrip(s, key, c);
    MapBlocksAt(s, EncryptWith(c, key), at);
  }

  lemma {:induction false} OnlyPadding(padded: Octets, plain: Octets, n: nat)
    requires PaddedWith(padded, plain, n) && |padded| % BLOCK == 0
    ensures padded == Pad(plain)
  {
    assert n == PadSize(|plain|);
  }

  lemma {:induction false} WholeBlockFits(at: nat, size: nat)
    requires at % BLOCK == 0 && size % BLOCK == 0 && at < size
    ensures at + BLOCK <= size
  {
  }

  /** Padding is n bytes that each hold n, for n from 1 to 16. */
  lemma {:induction false} PaddedExactly(data: Octets, plain: Octets, n: nat)
    ensures PaddedWith(data, plain, n) <==>
            1 <= n <= 16 && |data| == |plain| + n && plain <= data && forall i :: |plain| <= i < |data| ==> data[i] == n
  {
    if 1 <= n <= 16 && |data| == |plain| + n && plain <= data && forall i :: |plain| <= i < |data| ==> data[i] == n {
      assert data[|plain|..] == Repeat(n, n);
      assert data == plain + data[|plain|..];
    }
  }

  /** The interceptor's answers: the key first, then the length, then the padding of what it decrypts. */
  lemma {:induction false} DecryptedExactly(ciphertext: Octets, key: Octets, c: Cipher, data: Octets, plain: Octets)
    requires data == MapBlocks(ciphertext, DecryptWith(c, key))
    ensures var r := Decrypted(ciphertext, key, c);
            && (r == BadKeySize <==> |key| != 16 && |key| != 32)
            && (r == BadLength <==> (|key| == 16 || |key| == 32) && |ciphertext| % 16 != 0)
            && (r == Ok(plain) <==>
                  (|key| == 16 || |key| == 32) && |ciphertext| % 16 == 0
                  && exists n: nat :: PaddedWith(data, plain, n))
  {
    UnpaddedExactly(data, plain);
  }

  lemma {:induction false} UnpaddedExactly(data: Octets, plain: Octets)
    ensures Unpadded(data) == Ok(plain) <==> exists n: nat :: PaddedWith(data, plain, n)
  {
    UnpaddedIsStrict(data);
    if Unpadded(data) == Ok(plain) {
      var p, n: nat :| PaddedWith(data, p, n);
      assert PaddedWith(data, plain, n);
    }
  }

  /** The toolbox refuses the same lengths and takes every key the cipher takes; it never refuses a padding. */
  lemma {:induction false} ToolboxDecryptedExactly(ciphertext: Octets, key: Octets, c: Cipher)
    ensures var r := ToolboxDecrypted(ciphertext, key, c);
            && (r == BadKeySize <==> |key| !in {16, 24, 32})
            && (r == BadLength <==> |key| in {16, 24, 32} && |ciphertext| % 16 != 0)
            && (r.Ok? <==> |key| in {16, 24, 32} && |ciphertext| % 16 == 0)
  {
  }
}
