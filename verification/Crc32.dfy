/**
 The CRC-32 of section 8 of RFC 1952, computed one bit at a time.
 A word is its 32 bits, least significant first, which is also the order in which
 octets enter the register.
 */
module Crc32 {
  import opened Bytes

  // ----- integers as bit strings

  function Weight(bit: bool): nat {
    if bit then 1 else 0
  }

  function Bits(n: nat, k: nat): (bits: seq<bool>)
    ensures |bits| == k
  {
    if k == 0 then [] else [n % 2 == 1] + Bits(n / 2, k - 1)
  }

  function Value(bits: seq<bool>): nat {
    if bits == [] then 0 else Weight(bits[0]) + 2 * Value(bits[1..])
  }

  function Power2(k: nat): (n: nat)
    ensures n > 0
  {
    if k == 0 then 1 else 2 * Power2(k - 1)
  }

  lemma {:induction false} ValueOfBits(n: nat, k: nat)
    requires n < Power2(k)
    ensures Value(Bits(n, k)) == n
  {
    if k > 0 {
      ValueOfBits(n / 2, k - 1);
      assert Bits(n, k)[1..] == Bits(n / 2, k - 1);
    }
  }

  lemma {:induction false} BitsOfValue(bits: seq<bool>)
    ensures Value(bits) < Power2(|bits|)
    ensures Bits(Value(bits), |bits|) == bits
  {
    if bits != [] {
      BitsOfValue(bits[1..]);
    }
  }

  // ----- the register

  type word = w: seq<bool> | |w| == 32 witness Bits(0, 32)

  /** 0xEDB88320, one hexadecimal digit at a time from the low end. */
  const POLYNOMIAL: word := [
    false, false, false, false, false, true, false, false, true, true, false, false, false, false, false, true,
    false, false, false, true, true, true, false, true, true, false, true, true, false, true, true, true]

  const ONES: word := Bits(0xFFFF_FFFF, 32)

  function Xor(v: word, w: word): (x: word) {
    seq(32, i requires 0 <= i < 32 => v[i] != w[i])
  }

  /** Shifts one message bit through the register. */
  function Step(c: word, bit: bool): word {
    var shifted := c[1..] + [false];
    if c[0] != bit then Xor(shifted, POLYNOMIAL) else shifted
  }

  function FeedBits(c: word, bits: seq<bool>): word
    decreases bits
  {
    if bits == [] then c else FeedBits(Step(c, bits[0]), bits[1..])
  }

  function Stream(data: bytes): seq<bool> {
    if data == [] then [] else Bits(data[0], 8) + Stream(data[1..])
  }

  lemma WordLimit()
    ensures Power2(8) == 0x100
    ensures Power2(32) == U32
  {
    assert Power2(4) == 0x10;
    assert Power2(8) == 0x100;
    assert Power2(12) == 0x1000;
    assert Power2(16) == 0x1_0000;
    assert Power2(20) == 0x10_0000;
    assert Power2(24) == 0x100_0000;
    assert Power2(28) == 0x1000_0000;
  }

  /** `zlib.crc32`. */
  function Checksum(data: bytes): (n: nat)
    ensures n < U32
  {
    var w := Xor(FeedBits(ONES, Stream(data)), ONES);
    BitsOfValue(w);
    WordLimit();
    Value(w)
  }

  // ----- error detection

  lemma TopOfPolynomial()
    ensures POLYNOMIAL[31]
  {}

  /** The top bit after a step tells whether the polynomial was applied. */
  lemma TopAfterStep(c: word, bit: bool)
    ensures Step(c, bit)[31] == (c[0] != bit)
  {
    TopOfPolynomial();
  }

  lemma XorCancels(v: word, w: word, m: word, i: nat)
    requires i < 32
    ensures (Xor(v, m)[i] == Xor(w, m)[i]) == (v[i] == w[i])
  {}

  lemma StepInjective(a: word, b: word, bit: bool)
    requires Step(a, bit) == Step(b, bit)
    ensures a == b
  {
    TopAfterStep(a, bit);
    TopAfterStep(b, bit);
    forall i | 1 <= i < 32
      ensures a[i] == b[i]
    {
      XorCancels(a[1..] + [false], b[1..] + [false], POLYNOMIAL, i - 1);
      assert Step(a, bit)[i - 1] == Step(b, bit)[i - 1];
    }
    assert a[1..] == b[1..];
    assert a == [a[0]] + a[1..] && b == [b[0]] + b[1..];
  }

  lemma {:induction false} FeedBitsInjective(a: word, b: word, bits: seq<bool>)
    requires FeedBits(a, bits) == FeedBits(b, bits)
    ensures a == b
    decreases bits
  {
    if bits != [] {
      FeedBitsInjective(Step(a, bits[0]), Step(b, bits[0]), bits[1..]);
      StepInjective(a, b, bits[0]);
    }
  }

  lemma {:induction false} FeedBitsConcat(c: word, s: seq<bool>, t: seq<bool>)
    ensures FeedBits(c, s + t) == FeedBits(FeedBits(c, s), t)
    decreases s
  {
    if s == [] {
      assert s + t == t;
    } else {
      assert (s + t)[1..] == s[1..] + t;
      FeedBitsConcat(Step(c, s[0]), s[1..], t);
    }
  }

  /** A difference at position `i` moves down one place, or the top bits come to differ. */
  lemma DifferenceMoves(a: word, b: word, x: bool, y: bool, i: nat) returns (j: nat)
    requires 0 < i < 32 && a[i] != b[i]
    ensures i - 1 <= j < 32 && Step(a, x)[j] != Step(b, y)[j]
  {
    TopAfterStep(a, x);
    TopAfterStep(b, y);
    j := if (a[0] != x) == (b[0] != y) then i - 1 else 31;
    XorCancels(a[1..] + [false], b[1..] + [false], POLYNOMIAL, i - 1);
  }

  lemma {:induction false} DifferenceSurvives(a: word, b: word, s: seq<bool>, t: seq<bool>, i: nat)
    requires |s| == |t| <= i < 32
    requires a[i] != b[i]
    ensures FeedBits(a, s) != FeedBits(b, t)
    decreases s
  {
    if s != [] {
      var j := DifferenceMoves(a, b, s[0], t[0], i);
      DifferenceSurvives(Step(a, s[0]), Step(b, t[0]), s[1..], t[1..], j);
    }
  }

  /** Fed from the same register, two different strings of at most 32 bits leave different registers. */
  lemma {:induction false} ShortStringsDiffer(c: word, s: seq<bool>, t: seq<bool>)
    requires |s| == |t| <= 32
    requires s != t
    ensures FeedBits(c, s) != FeedBits(c, t)
    decreases s
  {
    if s[0] == t[0] {
      ShortStringsDiffer(Step(c, s[0]), s[1..], t[1..]);
    } else {
      TopAfterStep(c, s[0]);
      TopAfterStep(c, t[0]);
      DifferenceSurvives(Step(c, s[0]), Step(c, t[0]), s[1..], t[1..], 31);
    }
  }

  lemma {:induction false} StreamConcat(s: bytes, t: bytes)
    ensures Stream(s + t) == Stream(s) + Stream(t)
  {
    if s == [] {
      assert s + t == t;
    } else {
      assert (s + t)[1..] == s[1..] + t;
      StreamConcat(s[1..], t);
    }
  }

  lemma {:induction false} StreamInjective(s: bytes, t: bytes)
    requires |s| == |t| && s != t
    ensures |Stream(s)| == |Stream(t)| == 8 * |s|
    ensures Stream(s) != Stream(t)
  {
    StreamLength(s);
    StreamLength(t);
    var i, j := Bits(s[0], 8), Bits(t[0], 8);
    assert Stream(s)[..8] == i && Stream(t)[..8] == j;
    assert Stream(s)[8..] == Stream(s[1..]) && Stream(t)[8..] == Stream(t[1..]);
    if s[0] == t[0] {
      StreamInjective(s[1..], t[1..]);
    } else {
      WordLimit();
      ValueOfBits(s[0], 8);
      ValueOfBits(t[0], 8);
    }
  }

  lemma {:induction false} StreamLength(s: bytes)
    ensures |Stream(s)| == 8 * |s|
  {
    if s != [] {
      StreamLength(s[1..]);
    }
  }

  /** Every alteration confined to four consecutive octets changes the checksum. */
  lemma BurstDetected(before: bytes, burst: bytes, burst': bytes, after: bytes)
    requires |burst| == |burst'| <= 4
    requires burst != burst'
    ensures Checksum(before + burst + after) != Checksum(before + burst' + after)
  {
    hide FeedBits, Stream, Bits;
    var c := FeedBits(ONES, Stream(before));
    var d, d' := FeedBits(c, Stream(burst)), FeedBits(c, Stream(burst'));
    var r, r' := FeedBits(d, Stream(after)), FeedBits(d', Stream(after));
    FeedSplit(before, burst, after);
    FeedSplit(before, burst', after);
    StreamInjective(burst, burst');
    ShortStringsDiffer(c, Stream(burst), Stream(burst'));
    if r == r' {
      FeedBitsInjective(d, d', Stream(after));
    }
    BitsOfValue(Xor(r, ONES));
    BitsOfValue(Xor(r', ONES));
    var i :| 0 <= i < 32 && r[i] != r'[i];
    XorCancels(r, r', ONES, i);
  }

  lemma FeedSplit(before: bytes, burst: bytes, after: bytes)
    ensures FeedBits(ONES, Stream(before + burst + after))
         == FeedBits(FeedBits(FeedBits(ONES, Stream(before)), Stream(burst)), Stream(after))
  {
    StreamConcat(before + burst, after);
    StreamConcat(before, burst);
    FeedBitsConcat(ONES, Stream(before) + Stream(burst), Stream(after));
    FeedBitsConcat(ONES, Stream(before), Stream(burst));
  }

  lemma ChecksumOfNothing()
    ensures Checksum([]) == 0
  {
    assert Xor(ONES, ONES) == seq(32, _ => false);
    ZeroValue(Xor(ONES, ONES));
  }

  lemma {:induction false} ZeroValue(bits: seq<bool>)
    requires forall i :: 0 <= i < |bits| ==> !bits[i]
    ensures Value(bits) == 0
  {
    if bits != [] {
      ZeroValue(bits[1..]);
    }
  }
}
