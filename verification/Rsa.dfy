/**
 RSAES-PKCS1-v1_5 encryption in blocks (section 7.2.1 of RFC 8017), and the decryption that
 undoes it (section 7.2.2). Modular exponentiation is the program's `pow`; the inverse of it
 that a private key gives is an assumption of the round trip. Random octets come from a supply.
 */
module Rsa {
  import opened Wrappers
  import opened Bytes

  // ----- integers and octet strings

  function Power(b: nat, k: nat): (p: nat)
    ensures b > 0 ==> p > 0
  {
    if k == 0 then 1 else b * Power(b, k - 1)
  }

  /** `int.from_bytes(…, "big")`. */
  function FromBytes(s: bytes): nat {
    if s == [] then 0 else FromBytes(s[..|s| - 1]) * 0x100 + s[|s| - 1] as nat
  }

  /** The `k` octets of a number. */
  function ToBytes(n: nat, k: nat): (s: bytes)
    ensures |s| == k
  {
    if k == 0 then [] else ToBytes(n / 0x100, k - 1) + [n % 0x100]
  }

  lemma {:induction false} ToFromBytes(s: bytes)
    ensures FromBytes(s) < Power(0x100, |s|)
    ensures ToBytes(FromBytes(s), |s|) == s
  {
    if s != [] {
      var init := s[..|s| - 1];
      ToFromBytes(init);
      assert FromBytes(s) / 0x100 == FromBytes(init) && FromBytes(s) % 0x100 == s[|s| - 1];
      assert s == init + [s[|s| - 1]];
    }
  }

  lemma {:induction false} LeadingZero(s: bytes)
    requires s != [] && s[0] == 0
    ensures FromBytes(s) < Power(0x100, |s| - 1)
  {
    if |s| > 1 {
      LeadingZero(s[..|s| - 1]);
    } else {
      assert s[..0] == [];
    }
  }

  // ----- the size of the modulus

  /** `int(math.log2(n))`, exact. */
  function FloorLog2(n: nat): nat
    requires n > 0
  {
    if n == 1 then 0 else 1 + FloorLog2(n / 2)
  }

  function BlockSize(n: nat): nat
    requires n > 0
  {
    (FloorLog2(n) + 8) / 8
  }

  lemma {:induction false} FloorLog2Bounds(n: nat)
    requires n > 0
    ensures Power(2, FloorLog2(n)) <= n < Power(2, FloorLog2(n) + 1)
  {
    if n > 1 {
      FloorLog2Bounds(n / 2);
    }
  }

  lemma {:induction false} PowerOfBytes(k: nat)
    ensures Power(0x100, k) == Power(2, 8 * k)
  {
    if k > 0 {
      PowerOfBytes(k - 1);
      var p := 8 * k;
      assert Power(2, p) == 2 * Power(2, p - 1) == 4 * Power(2, p - 2) == 8 * Power(2, p - 3) == 16 * Power(2, p - 4);
      assert Power(2, p - 4) == 2 * Power(2, p - 5) == 4 * Power(2, p - 6) == 8 * Power(2, p - 7);
      assert 8 * Power(2, p - 7) == 16 * Power(2, p - 8);
    }
  }

  lemma {:induction false} PowerMonotone(b: nat, j: nat, k: nat)
    requires b >= 1 && j <= k
    ensures Power(b, j) <= Power(b, k)
    decreases k
  {
    if j < k {
      PowerMonotone(b, j, k - 1);
      assert Power(b, k) >= Power(b, k - 1) by {
        assert (b - 1) * Power(b, k - 1) >= 0;
      }
    }
  }

  /** The block size is exactly the length of the modulus in octets. */
  lemma BlockSizeExact(n: nat)
    requires n > 0
    ensures var k := BlockSize(n); k > 0 && Power(0x100, k - 1) <= n < Power(0x100, k)
  {
    var k, l := BlockSize(n), FloorLog2(n);
    FloorLog2Bounds(n);
    PowerOfBytes(k - 1);
    PowerOfBytes(k);
    PowerMonotone(2, 8 * (k - 1), l);
    PowerMonotone(2, l + 1, 8 * k);
  }

  // ----- hexadecimal

  const DIGITS: string := "0123456789abcdef"

  function DigitValue(c: char): nat {
    if '0' <= c <= '9' then c as int - '0' as int
    else if 'a' <= c <= 'f' then c as int - 'a' as int + 10
    else 0
  }

  function Zeros(width: nat): (d: string)
    ensures |d| == width
  {
    if width == 0 then "" else Zeros(width - 1) + ['0']
  }

  /** `format(n, "0…x")`: at least `width` hexadecimal digits. */
  function Hex(n: nat, width: nat): (d: string)
    ensures |d| >= width
    decreases n, width
  {
    if n == 0 then Zeros(width)
    else Hex(n / 16, if width > 0 then width - 1 else 0) + [DIGITS[n % 16]]
  }

  function FromHex(d: string): nat {
    if d == [] then 0 else FromHex(d[..|d| - 1]) * 16 + DigitValue(d[|d| - 1])
  }

  lemma DigitBack(v: nat)
    requires v < 16
    ensures DigitValue(DIGITS[v]) == v
  {
    assert DIGITS[0] == '0' && DIGITS[1] == '1' && DIGITS[2] == '2' && DIGITS[3] == '3';
    assert DIGITS[4] == '4' && DIGITS[5] == '5' && DIGITS[6] == '6' && DIGITS[7] == '7';
    assert DIGITS[8] == '8' && DIGITS[9] == '9' && DIGITS[10] == 'a' && DIGITS[11] == 'b';
    assert DIGITS[12] == 'c' && DIGITS[13] == 'd' && DIGITS[14] == 'e' && DIGITS[15] == 'f';
  }

  lemma {:induction false} FromHexZeros(width: nat)
    ensures FromHex(Zeros(width)) == 0
  {
    if width > 0 {
      assert Zeros(width)[..width - 1] == Zeros(width - 1);
      FromHexZeros(width - 1);
    }
  }

  /** A number below `16^width` takes exactly `width` digits, and they give it back. */
  lemma {:induction false} HexExact(n: nat, width: nat)
    requires n < Power(16, width)
    ensures |Hex(n, width)| == width && FromHex(Hex(n, width)) == n
    decreases n, width
  {
    if n == 0 {
      FromHexZeros(width);
    } else {
      HexExact(n / 16, width - 1);
      DigitBack(n % 16);
      assert Hex(n, width)[..width - 1] == Hex(n / 16, width - 1);
    }
  }

  lemma {:induction false} PowerOfHex(k: nat)
    ensures Power(16, 2 * k) == Power(0x100, k)
  {
    if k > 0 {
      PowerOfHex(k - 1);
      assert Power(16, 2 * k) == 16 * Power(16, 2 * k - 1) == 256 * Power(16, 2 * k - 2);
    }
  }

  // ----- one block

  /** `pow(m, e, n)`. */
  function PowMod(m: nat, e: nat, n: nat): (c: nat)
    requires n > 0
    ensures c < n
  {
    Power(m, e) % n
  }

  /** The padded block. */
  function Encoded(pad: bytes, block: bytes): bytes {
    [0, 2] + pad + [0] + block
  }

  function CipherBlock(n: nat, e: nat, k: nat, pad: bytes, block: bytes): string
    requires n > 0
  {
    Hex(PowMod(FromBytes(Encoded(pad, block)), e, n), 2 * k)
  }

  /** A pad that fills a block of `k` octets. */
  predicate IsPad(pad: bytes, k: nat, block: bytes) {
    |pad| + |block| + 3 == k && 0 !in pad
  }

  function NonZeros(supply: bytes): bytes {
    if supply == [] then []
    else (if supply[0] != 0 then [supply[0]] else []) + NonZeros(supply[1..])
  }

  lemma {:induction false} NoZeros(supply: bytes)
    ensures 0 !in NonZeros(supply)
  {
    if supply != [] {
      NoZeros(supply[1..]);
    }
  }

  /** `_encrypt_block`, drawing its pad from `supply`. */
  method EncryptBlock(n: nat, e: nat, k: nat, block: bytes, supply: bytes)
    returns (r: Option<string>, rest: bytes, ghost pad: bytes)
    requires n > 0
    requires |NonZeros(supply)| >= k
    ensures r.None? <==> |block| + 11 > k
    ensures r.Some? ==> IsPad(pad, k, block) && |pad| >= 8 && r.value == CipherBlock(n, e, k, pad, block)
    ensures r.Some? ==> pad + NonZeros(rest) == NonZeros(supply)
    ensures r.None? ==> rest == supply
  {
    if |block| > k - 11 {
      return None, supply, [];
    }
    var padLen := k - |block| - 3;
    var filler: bytes := [];
    rest := supply;
    while |filler| < padLen
      invariant |filler| <= padLen && 0 !in filler
      invariant filler + NonZeros(rest) == NonZeros(supply)
      decreases |rest|
    {
      assert rest != [];
      var octet := rest[0];
      rest := rest[1..];
      if octet != 0 {
        filler := filler + [octet];
      }
    }
    var em := [0, 2] + filler + [0] + block;
    assert em == Encoded(filler, block);
    return Some(Hex(PowMod(FromBytes(em), e, n), 2 * k)), rest, filler;
  }

  /** A padded block has `k` octets and is numerically below the modulus; its ciphertext is exactly `2k` digits. */
  lemma BlockFits(n: nat, e: nat, pad: bytes, block: bytes)
    requires n > 0 && IsPad(pad, BlockSize(n), block)
    ensures var k := BlockSize(n);
            && |Encoded(pad, block)| == k
            && FromBytes(Encoded(pad, block)) < n
            && |CipherBlock(n, e, k, pad, block)| == 2 * k
            && FromHex(CipherBlock(n, e, k, pad, block)) == PowMod(FromBytes(Encoded(pad, block)), e, n)
  {
    hide BlockSize;
    var k := BlockSize(n);
    BlockSizeExact(n);
    LeadingZero(Encoded(pad, block));
    PowerOfHex(k);
    HexExact(PowMod(FromBytes(Encoded(pad, block)), e, n), 2 * k);
  }

  // ----- decryption

  /** The first zero octet at or after `i`. */
  function ZeroFrom(s: bytes, i: nat): (z: nat)
    requires i <= |s|
    ensures i <= z <= |s|
    decreases |s| - i
  {
    if i == |s| || s[i] == 0 then i else ZeroFrom(s, i + 1)
  }

  /** EME-PKCS1-v1_5 decoding, step 3 of section 7.2.2. */
  function Unpad(em: bytes): Option<bytes> {
    if |em| < 11 || em[0] != 0 || em[1] != 2 then None
    else
      var z := ZeroFrom(em, 2);
      if z == |em| || z < 10 then None else Some(em[z + 1..])
  }

  lemma {:induction false} ZeroAfterPad(s: bytes, i: nat, z: nat)
    requires i <= z < |s| && s[z] == 0 && forall j :: i <= j < z ==> s[j] != 0
    ensures ZeroFrom(s, i) == z
    decreases z - i
  {
    if i < z {
      ZeroAfterPad(s, i + 1, z);
    }
  }

  lemma UnpadEncoded(pad: bytes, block: bytes)
    requires |pad| >= 8 && 0 !in pad
    ensures Unpad(Encoded(pad, block)) == Some(block)
  {
    var em := Encoded(pad, block);
    forall j | 2 <= j < 2 + |pad|
      ensures em[j] != 0
    {
      assert em[j] == pad[j - 2] && pad[j - 2] in pad;
    }
    ZeroAfterPad(em, 2, 2 + |pad|);
    assert em[2 + |pad| + 1..] == block;
  }

  ghost predicate Inverts(inverse: nat -> nat, e: nat, n: nat)
    requires n > 0
  {
    forall m :: 0 <= m < n ==> inverse(PowMod(m, e, n)) == m
  }

  function DecryptBlock(inverse: nat -> nat, k: nat, cipher: string): Option<bytes> {
    Unpad(ToBytes(inverse(FromHex(cipher)), k))
  }

  /** Cuts the ciphertext into blocks of `2k` digits, decrypts each and joins the results. */
  function Decrypt(inverse: nat -> nat, k: nat, cipher: string): Option<bytes>
    decreases |cipher|
  {
    if cipher == "" then Some([])
    else if k == 0 || |cipher| < 2 * k then None
    else
      var head := DecryptBlock(inverse, k, cipher[..2 * k]);
      var tail := Decrypt(inverse, k, cipher[2 * k..]);
      if head.None? || tail.None? then None else Some(head.value + tail.value)
  }

  lemma BlockRoundTrip(inverse: nat -> nat, n: nat, e: nat, pad: bytes, block: bytes)
    requires n > 0 && Inverts(inverse, e, n)
    requires IsPad(pad, BlockSize(n), block) && |pad| >= 8
    ensures DecryptBlock(inverse, BlockSize(n), CipherBlock(n, e, BlockSize(n), pad, block)) == Some(block)
  {
    hide BlockSize, PowMod, Unpad, CipherBlock;
    var em := Encoded(pad, block);
    BlockFits(n, e, pad, block);
    ToFromBytes(em);
    UnpadEncoded(pad, block);
  }

  // ----- the whole message

  datatype Outcome = Ciphertext(hex: string) | ValueError

  function Minimum(a: nat, b: nat): nat {
    if a < b then a else b
  }

  /** The ciphertext of `plaintext` in blocks of `size` octets under the given pads. */
  function CipherText(n: nat, e: nat, k: nat, size: nat, plaintext: bytes, pads: seq<bytes>): string
    requires n > 0 && size > 0
    decreases |plaintext|
  {
    if plaintext == [] || pads == [] then ""
    else
      var cut := Minimum(size, |plaintext|);
      CipherBlock(n, e, k, pads[0], plaintext[..cut]) + CipherText(n, e, k, size, plaintext[cut..], pads[1..])
  }

  /** One pad for each block, filling it. */
  predicate Pads(k: nat, size: nat, plaintext: bytes, pads: seq<bytes>)
    requires size > 0
    decreases |plaintext|
  {
    if plaintext == [] then pads == []
    else
      var cut := Minimum(size, |plaintext|);
      && pads != [] && IsPad(pads[0], k, plaintext[..cut]) && |pads[0]| >= 8
      && Pads(k, size, plaintext[cut..], pads[1..])
  }

  ghost predicate EncryptsUnder(n: nat, e: nat, plaintext: bytes, o: Outcome, pads: seq<bytes>)
    requires n > 0 && BlockSize(n) > 11
  {
    var k := BlockSize(n);
    Pads(k, k - 11, plaintext, pads) && o == Ciphertext(CipherText(n, e, k, k - 11, plaintext, pads))
  }

  /** What `rsa_encrypt` comes to; a step of zero is an error and a negative one makes the loop empty. */
  ghost predicate Encrypts(n: int, e: nat, plaintext: bytes, o: Outcome) {
    if n <= 0 || BlockSize(n) == 11 then o == ValueError
    else if BlockSize(n) < 11 then o == Ciphertext("")
    else exists pads :: EncryptsUnder(n, e, plaintext, o, pads)
  }

  lemma Times(d: nat, size: nat)
    requires d > 0
    ensures d * size == (d - 1) * size + size && (d - 1) * size >= 0
  {}

  /** The first block, with its pad, and the rest. */
  lemma CipherTextStep(n: nat, e: nat, k: nat, size: nat, plaintext: bytes, pads: seq<bytes>)
    requires n > 0 && size > 0 && plaintext != [] && pads != []
    ensures var cut := Minimum(size, |plaintext|);
            && CipherText(n, e, k, size, plaintext, pads)
               == CipherBlock(n, e, k, pads[0], plaintext[..cut])
                  + CipherText(n, e, k, size, plaintext[cut..], pads[1..])
            && (Pads(k, size, plaintext, pads)
                <==> && IsPad(pads[0], k, plaintext[..cut]) && |pads[0]| >= 8
                     && Pads(k, size, plaintext[cut..], pads[1..]))
  {
    hide CipherBlock, IsPad;
  }

  lemma SomePads(k: nat, size: nat, plaintext: bytes, pads: seq<bytes>)
    requires size > 0 && Pads(k, size, plaintext, pads)
    ensures plaintext == [] <==> pads == []
  {
    hide IsPad;
  }

  lemma LastBlock(n: nat, e: nat, k: nat, size: nat, q: bytes, pad: bytes)
    requires n > 0 && 0 < |q| <= size
    requires IsPad(pad, k, q) && |pad| >= 8
    ensures Pads(k, size, q, [pad]) && CipherText(n, e, k, size, q, [pad]) == CipherBlock(n, e, k, pad, q)
  {
    hide CipherBlock, IsPad, CipherText, Pads;
    CipherTextStep(n, e, k, size, q, [pad]);
    assert q[..|q|] == q && q[|q|..] == [] && [pad][1..] == [];
    NoBlocks(n, e, k, size);
  }

  /** Appending one more block to `d` whole ones. */
  lemma {:induction false} CipherTextConcat(n: nat, e: nat, k: nat, size: nat, d: nat, p: bytes, q: bytes,
                                            pads: seq<bytes>, pad: bytes)
    requires n > 0 && size > 0 && |p| == d * size && 0 < |q| <= size
    requires Pads(k, size, p, pads) && IsPad(pad, k, q) && |pad| >= 8
    ensures Pads(k, size, p + q, pads + [pad])
    ensures CipherText(n, e, k, size, p + q, pads + [pad])
         == CipherText(n, e, k, size, p, pads) + CipherBlock(n, e, k, pad, q)
    decreases d
  {
    hide CipherBlock, IsPad, CipherText, Pads;
    if d == 0 {
      SomePads(k, size, p, pads);
      NoBlocks(n, e, k, size);
      assert p + q == q && pads + [pad] == [pad];
      LastBlock(n, e, k, size, q, pad);
    } else {
      Times(d, size);
      SomePads(k, size, p, pads);
      var head, tail := p[..size], p[size..];
      assert (p + q)[..size] == head && (p + q)[size..] == tail + q;
      assert (pads + [pad])[1..] == pads[1..] + [pad] && (pads + [pad])[0] == pads[0];
      CipherTextStep(n, e, k, size, p, pads);
      CipherTextStep(n, e, k, size, p + q, pads + [pad]);
      CipherTextConcat(n, e, k, size, d - 1, tail, q, pads[1..], pad);
    }
  }

  /** The octets a run may still draw, one block for each octet of plaintext at most. */
  function Need(k: nat, left: nat): nat {
    if left == 0 then k else k + Need(k, left - 1)
  }

  lemma {:induction false} NeedMonotone(k: nat, i: nat, j: nat)
    requires i <= j
    ensures k <= Need(k, i) <= Need(k, j)
    decreases j
  {
    if i < j {
      NeedMonotone(k, i, j - 1);
    } else if i > 0 {
      NeedMonotone(k, i - 1, i - 1);
    }
  }

  function Joined(pads: seq<bytes>): bytes {
    if pads == [] then [] else Joined(pads[..|pads| - 1]) + pads[|pads| - 1]
  }

  /** `rsa_encrypt`; the pads together are the next non-zero octets of the supply, each used once. */
  method RsaEncrypt(n: int, e: nat, plaintext: bytes, supply: bytes) returns (o: Outcome, ghost pads: seq<bytes>)
    requires n > 0 ==> |NonZeros(supply)| >= Need(BlockSize(n), |plaintext|)
    ensures Encrypts(n, e, plaintext, o)
    ensures n > 0 && BlockSize(n) > 11 ==> EncryptsUnder(n, e, plaintext, o, pads)
    ensures Joined(pads) <= NonZeros(supply)
  {
    pads := [];
    hide BlockSize, CipherBlock, CipherText, Pads, NonZeros, IsPad, Need;
    if n <= 0 {
      return ValueError, pads;
    }
    var blockSize := BlockSize(n);
    if blockSize == 11 {
      return ValueError, pads;
    }
    var result := "";
    if blockSize < 11 {
      return Ciphertext(result), pads;
    }
    var bytesPerBlock := blockSize - 11;
    var i, rest := 0, supply;
    ghost var d: nat := 0;
    NoBlocks(n, e, blockSize, bytesPerBlock);
    while i < |plaintext|
      invariant i < |plaintext| ==> i == d * bytesPerBlock
      invariant Done(n, e, blockSize, bytesPerBlock, plaintext, i, pads, result)
      invariant Joined(pads) + NonZeros(rest) == NonZeros(supply)
      invariant |NonZeros(rest)| >= Need(blockSize, |plaintext| - Minimum(i, |plaintext|))
      decreases |plaintext| - i
    {
      ghost var left := |plaintext| - i;
      NeedStep(blockSize, left);
      var cut := Minimum(i + bytesPerBlock, |plaintext|);
      var block := plaintext[i..cut];
      var cipher, more;
      ghost var pad;
      cipher, more, pad := EncryptBlock(n, e, blockSize, block, rest);
      result := result + cipher.value;
      CipherTextConcat(n, e, blockSize, bytesPerBlock, d, plaintext[..i], block, pads, pad);
      assert plaintext[..i] + block == plaintext[..cut];
      assert (pads + [pad])[..|pads|] == pads;
      pads, d := pads + [pad], d + 1;
      Times(d, bytesPerBlock);
      rest, i := more, i + bytesPerBlock;
      PadShort(blockSize, block, pad);
      NeedMonotone(blockSize, |plaintext| - Minimum(i, |plaintext|), left - 1);
    }
    assert plaintext[..|plaintext|] == plaintext;
    o := Ciphertext(result);
    assert EncryptsUnder(n, e, plaintext, o, pads);
  }

  /** The blocks of the first `i` octets are encrypted. */
  ghost predicate Done(n: nat, e: nat, k: nat, size: nat, plaintext: bytes, i: nat, pads: seq<bytes>, result: string)
    requires n > 0 && size > 0
  {
    var p := plaintext[..Minimum(i, |plaintext|)];
    Pads(k, size, p, pads) && result == CipherText(n, e, k, size, p, pads)
  }

  lemma NoBlocks(n: nat, e: nat, k: nat, size: nat)
    requires n > 0 && size > 0
    ensures Pads(k, size, [], []) && CipherText(n, e, k, size, [], []) == ""
  {}

  lemma NeedStep(k: nat, left: nat)
    requires left > 0
    ensures Need(k, left) == k + Need(k, left - 1)
  {}

  lemma PadShort(k: nat, block: bytes, pad: bytes)
    requires IsPad(pad, k, block)
    ensures |pad| <= k
  {}

  // ----- decryption undoes it

  lemma {:induction false} CipherTextRoundTrip(inverse: nat -> nat, n: nat, e: nat, plaintext: bytes, pads: seq<bytes>)
    requires n > 0 && Inverts(inverse, e, n) && BlockSize(n) > 11
    requires Pads(BlockSize(n), BlockSize(n) - 11, plaintext, pads)
    ensures var k := BlockSize(n);
            Decrypt(inverse, k, CipherText(n, e, k, k - 11, plaintext, pads)) == Some(plaintext)
    decreases |plaintext|
  {
    hide BlockSize, CipherBlock, DecryptBlock, Inverts;
    if plaintext != [] {
      var k := BlockSize(n);
      var cut := Minimum(k - 11, |plaintext|);
      var head := CipherBlock(n, e, k, pads[0], plaintext[..cut]);
      var tail := CipherText(n, e, k, k - 11, plaintext[cut..], pads[1..]);
      BlockFits(n, e, pads[0], plaintext[..cut]);
      BlockRoundTrip(inverse, n, e, pads[0], plaintext[..cut]);
      CipherTextRoundTrip(inverse, n, e, plaintext[cut..], pads[1..]);
      assert (head + tail)[..2 * k] == head && (head + tail)[2 * k..] == tail;
      assert plaintext == plaintext[..cut] + plaintext[cut..];
    }
  }

  /**
   What is encrypted decrypts to the plaintext exactly when the modulus has more than eleven
   octets, or nothing was to be encrypted under a shorter one: with fewer octets the
   ciphertext is empty whatever the plaintext, and with eleven there is none.
   */
  lemma RoundTrip(inverse: nat -> nat, n: nat, e: nat, plaintext: bytes, o: Outcome)
    requires n > 0 && Inverts(inverse, e, n) && Encrypts(n, e, plaintext, o)
    ensures (o.Ciphertext? && Decrypt(inverse, BlockSize(n), o.hex) == Some(plaintext))
       <==> (BlockSize(n) > 11 || (BlockSize(n) < 11 && plaintext == []))
  {
    hide BlockSize, Inverts, CipherText, Pads;
    if BlockSize(n) > 11 {
      var pads :| EncryptsUnder(n, e, plaintext, o, pads);
      CipherTextRoundTrip(inverse, n, e, plaintext, pads);
    }
  }

  // ----- what the exponentiation is

  /** `x` and `y` differ by a multiple of `n`. */
  ghost predicate Congruent(x: int, y: int, n: nat) {
    exists q: int :: x == TimesOf(q, n) + y
  }

  function TimesOf(q: int, n: nat): int {
    q * n
  }

  /**
   `pow` starts from one and multiplies by the message once for each unit of the exponent,
   modulo the modulus, below which it stays.
   */
  lemma PowModStep(m: nat, e: nat, n: nat)
    requires n > 0
    ensures Congruent(1, PowMod(m, 0, n), n)
    ensures Congruent(m * PowMod(m, e, n), PowMod(m, e + 1, n), n)
    ensures PowMod(m, e, n) < n
  {
    Divided(1, n);
    assert 1 == TimesOf(1 / n, n) + PowMod(m, 0, n);
    ProductReduced(m, Power(m, e), n);
  }

  lemma Divided(x: nat, n: nat)
    requires n > 0
    ensures x == TimesOf(x / n, n) + x % n
  {}

  lemma ProductReduced(m: nat, p: nat, n: nat)
    requires n > 0
    ensures Congruent(m * (p % n), (m * p) % n, n)
  {
    var q, q' := p / n, (m * p) / n;
    Divided(p, n);
    Divided(m * p, n);
    Regroup(m, q, n, p % n);
    Difference(q', m * q, n);
    assert m * (p % n) == TimesOf(q' - m * q, n) + (m * p) % n;
  }

  lemma Regroup(m: nat, q: nat, n: nat, r: nat)
    ensures m * (q * n + r) == (m * q) * n + m * r
  {}

  lemma Difference(a: int, b: int, n: int)
    ensures (a - b) * n == a * n - b * n
  {}
}
