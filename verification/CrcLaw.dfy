/**
 Which CRC it is: the checksum is the remainder of the message, as a polynomial over the
 field of two elements, by the generator of section 8 of RFC 1952. Octets enter with their
 least significant bit first; message and result are complemented at their ends.
 A polynomial is given by its coefficient at every exponent.
 */
module CrcLaw {
  import opened Bytes
  import opened Crc32

  // ----- polynomials

  /** The exponents of the generator. */
  const GENERATOR: set<nat> := {32, 26, 23, 22, 16, 12, 11, 10, 8, 7, 5, 4, 2, 1, 0}

  predicate GeneratorAt(e: int) {
    0 <= e && e in GENERATOR
  }

  /** The generator times the polynomial whose coefficients are listed from the highest exponent down. */
  predicate ProductAt(quotient: seq<bool>, e: nat) {
    quotient != []
    && (quotient[0] && GeneratorAt(e - (|quotient| - 1))) != ProductAt(quotient[1..], e)
  }

  /** Bit `i` of a number. */
  predicate BitSet(n: nat, i: nat) {
    if i == 0 then n % 2 == 1 else BitSet(n / 2, i - 1)
  }

  /** The message, first octet first and least significant bit first. */
  predicate MessageAt(data: bytes, e: nat) {
    e < 8 * |data| && BitSet(data[|data| - 1 - e / 8], 7 - e % 8)
  }

  /**
   The message moved up by 32 places, with its first 32 places complemented, and a remainder
   that is the complement of `n`, least significant bit first.
   */
  predicate BalanceAt(data: bytes, n: nat, e: nat) {
    ((e >= 32 && MessageAt(data, e - 32)) != (8 * |data| <= e < 8 * |data| + 32))
    != (e < 32 && !BitSet(n, 31 - e))
  }

  /** The balance is a multiple of the generator. */
  ghost predicate Balanced(data: bytes, n: nat) {
    exists quotient: seq<bool> :: IsQuotient(quotient, data, n)
  }

  ghost predicate IsQuotient(quotient: seq<bool>, data: bytes, n: nat) {
    forall e: nat :: ProductAt(quotient, e) == BalanceAt(data, n, e)
  }

  // ----- the register

  predicate WordAt(w: word, e: int) {
    0 <= e < 32 && w[31 - e]
  }

  predicate BitsAt(bits: seq<bool>, e: int) {
    0 <= e < |bits| && bits[|bits| - 1 - e]
  }

  lemma PolynomialIsGenerator(e: nat)
    requires e < 32
    ensures POLYNOMIAL[31 - e] <==> GeneratorAt(e)
  {}

  /** One step multiplies by the indeterminate, adds the message bit, and takes off the generator if it must. */
  lemma StepDivides(c: word, bit: bool, e: int)
    ensures ((WordAt(c, e - 1) != (bit && e == 32)) != WordAt(Step(c, bit), e)) == ((c[0] != bit) && GeneratorAt(e))
  {
    hide POLYNOMIAL;
    if 0 <= e < 32 {
      PolynomialIsGenerator(e);
      var shifted := c[1..] + [false];
      assert Step(c, bit)[31 - e] == (shifted[31 - e] != ((c[0] != bit) && POLYNOMIAL[31 - e]));
    }
  }

  /** The quotient of the division, one coefficient a step. */
  function Quotient(c: word, bits: seq<bool>): (q: seq<bool>)
    ensures |q| == |bits|
    decreases bits
  {
    if bits == [] then [] else [c[0] != bits[0]] + Quotient(Step(c, bits[0]), bits[1..])
  }

  lemma QuotientStep(c: word, bits: seq<bool>, e: nat)
    requires bits != []
    ensures ProductAt(Quotient(c, bits), e)
         == (((c[0] != bits[0]) && GeneratorAt(e - (|bits| - 1)))
             != ProductAt(Quotient(Step(c, bits[0]), bits[1..]), e))
  {
    hide Step, GeneratorAt;
    assert Quotient(c, bits)[1..] == Quotient(Step(c, bits[0]), bits[1..]);
  }

  lemma FirstBit(bits: seq<bool>, e: int)
    requires bits != []
    ensures BitsAt(bits, e) == ((bits[0] && e == |bits| - 1) != BitsAt(bits[1..], e))
  {}

  lemma {:induction false} FeedDivides(c: word, bits: seq<bool>, e: nat)
    ensures ((WordAt(c, e - |bits|) != BitsAt(bits, e - 32)) != WordAt(FeedBits(c, bits), e))
         == ProductAt(Quotient(c, bits), e)
    decreases bits
  {
    hide Step, WordAt, GeneratorAt;
    if bits != [] {
      var next, tail := Step(c, bits[0]), bits[1..];
      StepDivides(c, bits[0], e - |tail|);
      FeedDivides(next, tail, e);
      QuotientStep(c, bits, e);
      FirstBit(bits, e - 32);
    }
  }

  // ----- octets and numbers as bits

  lemma {:induction false} BitOfBits(n: nat, k: nat, i: nat)
    requires i < k
    ensures Bits(n, k)[i] == BitSet(n, i)
  {
    if i > 0 {
      BitOfBits(n / 2, k - 1, i - 1);
    }
  }

  lemma {:induction false} StreamIsMessage(data: bytes, e: nat)
    ensures BitsAt(Stream(data), e) == MessageAt(data, e)
  {
    StreamLength(data);
    if data != [] {
      var tail := data[1..];
      StreamLength(tail);
      StreamIsMessage(tail, e);
      if e < 8 * |tail| {
        assert data[|data| - 1 - e / 8] == tail[|tail| - 1 - e / 8];
      } else if e < 8 * |data| {
        assert e / 8 == |tail| && 7 - e % 8 == 8 * |data| - 1 - e;
        BitOfBits(data[0], 8, 7 - e % 8);
      }
    }
  }

  lemma {:induction false} OnesAreSet(k: nat, i: nat)
    requires i < k
    ensures Bits(Power2(k) - 1, k)[i]
  {
    if i > 0 {
      assert (Power2(k) - 1) / 2 == Power2(k - 1) - 1;
      OnesAreSet(k - 1, i - 1);
    }
  }

  lemma AllOnes(e: int)
    ensures WordAt(ONES, e) == (0 <= e < 32)
  {
    WordLimit();
    if 0 <= e < 32 {
      OnesAreSet(32, 31 - e);
    }
  }

  /** The checksum's bits are those of the register, complemented. */
  lemma ChecksumBits(data: bytes, i: nat)
    requires i < 32
    ensures BitSet(Checksum(data), i) == !FeedBits(ONES, Stream(data))[i]
  {
    hide FeedBits, Stream, Bits;
    var c := FeedBits(ONES, Stream(data));
    var w := Xor(c, ONES);
    BitsOfValue(w);
    BitOfBits(Checksum(data), 32, i);
    AllOnes(31 - i);
    assert w[i] == (c[i] != ONES[i]);
  }

  lemma ChecksumBalancesAt(data: bytes, e: nat)
    ensures ProductAt(Quotient(ONES, Stream(data)), e) == BalanceAt(data, Checksum(data), e)
  {
    hide FeedBits, Stream, ProductAt, Checksum, MessageAt, BitSet, Quotient, WordAt;
    FeedDivides(ONES, Stream(data), e);
    StreamLength(data);
    AllOnes(e - 8 * |data|);
    RegisterAt(data, e);
    if e >= 32 {
      StreamIsMessage(data, e - 32);
    } else {
      BeforeMessage(data, e);
    }
  }

  lemma RegisterAt(data: bytes, e: nat)
    ensures WordAt(FeedBits(ONES, Stream(data)), e) == (e < 32 && !BitSet(Checksum(data), 31 - e))
  {
    hide FeedBits, Stream, Checksum, BitSet;
    if e < 32 {
      ChecksumBits(data, 31 - e);
    }
  }

  lemma BeforeMessage(data: bytes, e: nat)
    requires e < 32
    ensures !BitsAt(Stream(data), e - 32)
  {}

  /** For every message the checksum is the one that balances it. */
  lemma ChecksumBalances(data: bytes)
    ensures Balanced(data, Checksum(data))
  {
    hide Stream, ProductAt, Checksum, BalanceAt, Quotient;
    var quotient := Quotient(ONES, Stream(data));
    forall e: nat
      ensures ProductAt(quotient, e) == BalanceAt(data, Checksum(data), e)
    {
      ChecksumBalancesAt(data, e);
    }
    assert IsQuotient(quotient, data, Checksum(data));
  }

  // ----- no other number does

  lemma {:induction false} ProductDegree(quotient: seq<bool>, e: nat)
    requires e >= 32 + |quotient|
    ensures !ProductAt(quotient, e)
  {
    if quotient != [] {
      ProductDegree(quotient[1..], e);
    }
  }

  /** A multiple of the generator without a term from 32 up is zero. */
  lemma {:induction false} ShortProduct(quotient: seq<bool>, e: nat)
    requires forall f: nat :: f >= 32 ==> !ProductAt(quotient, f)
    ensures !ProductAt(quotient, e)
  {
    if quotient != [] {
      var tail := quotient[1..];
      ProductDegree(tail, 32 + |tail|);
      assert !quotient[0] by {
        assert !ProductAt(quotient, 32 + |tail|);
      }
      forall f: nat | f >= 32
        ensures !ProductAt(tail, f)
      {
        assert !ProductAt(quotient, f);
      }
      ShortProduct(tail, e);
    }
  }

  function Padded(quotient: seq<bool>, k: nat): (r: seq<bool>)
    ensures |r| == |quotient| + k
  {
    if k == 0 then quotient else [false] + Padded(quotient, k - 1)
  }

  lemma {:induction false} PaddedProduct(quotient: seq<bool>, k: nat, e: nat)
    ensures ProductAt(Padded(quotient, k), e) == ProductAt(quotient, e)
  {
    if k > 0 {
      PaddedProduct(quotient, k - 1, e);
      assert Padded(quotient, k)[1..] == Padded(quotient, k - 1);
    }
  }

  function Added(p: seq<bool>, q: seq<bool>): (r: seq<bool>)
    requires |p| == |q|
    ensures |r| == |p|
  {
    if p == [] then [] else [p[0] != q[0]] + Added(p[1..], q[1..])
  }

  lemma {:induction false} AddedProduct(p: seq<bool>, q: seq<bool>, e: nat)
    requires |p| == |q|
    ensures ProductAt(Added(p, q), e) == (ProductAt(p, e) != ProductAt(q, e))
  {
    hide GeneratorAt;
    if p != [] {
      AddedProduct(p[1..], q[1..], e);
      assert Added(p, q)[1..] == Added(p[1..], q[1..]);
    }
  }

  lemma {:induction false} SameBits(m: nat, n: nat, k: nat)
    requires m < Power2(k) && n < Power2(k)
    requires forall i :: 0 <= i < k ==> BitSet(m, i) == BitSet(n, i)
    ensures m == n
  {
    if k > 0 {
      assert BitSet(m, 0) == BitSet(n, 0);
      forall i | 0 <= i < k - 1
        ensures BitSet(m / 2, i) == BitSet(n / 2, i)
      {
        assert BitSet(m, i + 1) == BitSet(n, i + 1);
      }
      SameBits(m / 2, n / 2, k - 1);
    }
  }

  /** Two numbers that balance one message are the same. */
  lemma BalancedOnce(data: bytes, m: nat, n: nat, p: seq<bool>, q: seq<bool>)
    requires m < U32 && n < U32 && IsQuotient(p, data, m) && IsQuotient(q, data, n)
    ensures m == n
  {
    hide ProductAt, MessageAt, BitSet;
    var longer := if |p| > |q| then |p| else |q|;
    var p', q' := Padded(p, longer - |p|), Padded(q, longer - |q|);
    var both := Added(p', q');
    forall e: nat
      ensures ProductAt(both, e) == (e < 32 && BitSet(m, 31 - e) != BitSet(n, 31 - e))
    {
      PaddedProduct(p, longer - |p|, e);
      PaddedProduct(q, longer - |q|, e);
      AddedProduct(p', q', e);
    }
    forall i | 0 <= i < 32
      ensures BitSet(m, i) == BitSet(n, i)
    {
      ShortProduct(both, 31 - i);
    }
    WordLimit();
    SameBits(m, n, 32);
  }

  /** The checksum of a message is the one number below 2 to the 32 that balances it. */
  lemma ChecksumExactly(data: bytes, n: nat)
    requires n < U32
    ensures n == Checksum(data) <==> Balanced(data, n)
  {
    hide IsQuotient, Checksum;
    ChecksumBalances(data);
    if Balanced(data, n) {
      var p :| IsQuotient(p, data, Checksum(data));
      var q :| IsQuotient(q, data, n);
      BalancedOnce(data, Checksum(data), n, p, q);
    }
  }
}
