/** What the CRC is: the remainder of the message on division by the generator polynomial. */
module CrcDivision {
  import opened Octets
  import opened Crc
  import opened CrcBursts

  // ---- Polynomials over two elements ----

  /** The coefficient of x^k stands at place k. */
  type Poly = seq<bool>

  function Coef(p: Poly, k: int): bool { 0 <= k < |p| && p[k] }

  /** The coefficient of x^k in p times the sum of the powers listed. */
  function ProductCoef(p: Poly, powers: seq<nat>, k: int): bool {
    if powers == [] then false else Coef(p, k - powers[0]) != ProductCoef(p, powers[1..], k)
  }

  /** x^16 + x^13 + x^12 + x^11 + x^10 + x^8 + x^6 + x^5 + x^2 + 1. */
  const GENERATOR: seq<nat> := [16, 13, 12, 11, 10, 8, 6, 5, 2, 0]

  /** d times x^16 is q times the generator, plus r, whose degree is below 16. */
  ghost predicate Division(d: Poly, q: Poly, r: Poly) {
    |r| == 16 && forall k: int :: Coef(d, k - 16) == (ProductCoef(q, GENERATOR, k) != Coef(r, k))
  }

  /** The bit sent first is the coefficient of the highest power. */
  function Message(bits: seq<bool>): Poly {
    if bits == [] then [] else Message(bits[1..]) + [bits[0]]
  }

  /** A register holds the coefficient of x^15 in its lowest bit. */
  function Reflected(c: bv16): Poly { Message(WordBits(c, 16)) }

  // ---- One step of the division ----

  ghost predicate Distinct(powers: seq<nat>) {
    forall i, j :: 0 <= i < j < |powers| ==> powers[i] != powers[j]
  }

  lemma {:induction false} ProductShift(f: bool, q: Poly, powers: seq<nat>, k: int)
    requires Distinct(powers)
    ensures ProductCoef([f] + q, powers, k) == (ProductCoef(q, powers, k - 1) != (f && 0 <= k && k in powers))
    decreases |powers|
  {
    if powers != [] {
      ProductShift(f, q, powers[1..], k);
      assert powers == [powers[0]] + powers[1..];
      assert Coef([f] + q, k - powers[0]) == if k == powers[0] then f else Coef(q, k - 1 - powers[0]);
    }
  }

  lemma {:induction false} MessageAt(bits: seq<bool>)
    ensures |Message(bits)| == |bits| && forall k :: 0 <= k < |bits| ==> Message(bits)[k] == bits[|bits| - 1 - k]
    decreases |bits|
  {
    if bits != [] { MessageAt(bits[1..]); }
  }

  // The lowest bit and the rest of a word, named so that proofs need not look at bits.
  function Low(c: bv16): bool { c & 1 == 1 }

  function Half(c: bv16): bv16 { c >> 1 }

  lemma WordBitsHead(c: bv16, n: nat)
    requires 0 < n
    ensures WordBits(c, n) == [Low(c)] + WordBits(Half(c), n - 1)
  {
  }

  lemma XorLow(c: bv16, d: bv16)
    ensures Low(Xor(c, d)) == (Low(c) != Low(d))
  {
  }

  lemma XorHalf(c: bv16, d: bv16)
    ensures Half(Xor(c, d)) == Xor(Half(c), Half(d))
  {
  }

  lemma {:induction false} WordBitsFlip(c: bv16, d: bv16, n: nat)
    ensures |WordBits(c, n)| == |WordBits(d, n)| == |WordBits(Xor(c, d), n)| == n
    ensures forall k :: 0 <= k < n ==> WordBits(Xor(c, d), n)[k] == (WordBits(c, n)[k] != WordBits(d, n)[k])
    decreases n
  {
    hide Low, Half, Xor;
    if n > 0 {
      hide WordBits;
      XorLow(c, d);
      XorHalf(c, d);
      WordBitsHead(c, n);
      WordBitsHead(d, n);
      WordBitsHead(Xor(c, d), n);
      WordBitsFlip(Half(c), Half(d), n - 1);
    }
  }

  lemma {:induction false} WordBitsZero(c: bv16, n: nat)
    requires Meet(c, Above(n)) == 0
    ensures WordBits(c, n + 1) == WordBits(c, n) + [false]
    decreases n
  {
    hide Meet, Double;
    if n == 0 {
      MeetsAll(c);
      assert WordBits(0, 1) == [false];
    } else {
      HalfFits(c, Above(n - 1));
      WordBitsZero(c >> 1, n - 1);
    }
  }

  lemma TopGone(c: bv16)
    ensures Meet(Half(c), 0x8000) == 0
  {
  }

  /** Shifting moves every coefficient one power up; that of x^15 is lost. */
  lemma ShiftReflected(c: bv16)
    ensures |Reflected(c)| == 16 && Reflected(Half(c)) == [false] + Reflected(c)[..15]
  {
    hide Meet, Above, WordBits, Half, Low, Message;
    AboveFifteen();
    TopGone(c);
    WordBitsZero(Half(c), 15);
    WordBitsHead(c, 16);
    WordBitsFlip(c, c, 16);
    MessageAt(WordBits(Half(c), 16));
    MessageAt(WordBits(c, 16));
  }

  lemma AboveFifteen()
    ensures Above(15) == 0x8000
  {
    assert Above(4) == 0xFFF0 && Above(8) == 0xFF00 && Above(12) == 0xF000;
  }

  lemma FlipReflected(c: bv16, d: bv16)
    ensures |Reflected(c)| == |Reflected(d)| == |Reflected(Xor(c, d))| == 16
    ensures forall k :: 0 <= k < 16 ==> Reflected(Xor(c, d))[k] == (Reflected(c)[k] != Reflected(d)[k])
  {
    hide WordBits;
    WordBitsFlip(c, d, 16);
    MessageAt(WordBits(c, 16));
    MessageAt(WordBits(d, 16));
    MessageAt(WordBits(Xor(c, d), 16));
  }

  /** The generator, shifted out bit by bit. */
  lemma GeneratorHalves()
    ensures !Low(0xA6BC) && Half(0xA6BC) == 0x535E && !Low(0x535E) && Half(0x535E) == 0x29AF
    ensures Low(0x29AF) && Half(0x29AF) == 0x14D7 && Low(0x14D7) && Half(0x14D7) == 0xA6B
    ensures Low(0xA6B) && Half(0xA6B) == 0x535 && Low(0x535) && Half(0x535) == 0x29A
    ensures !Low(0x29A) && Half(0x29A) == 0x14D && Low(0x14D) && Half(0x14D) == 0xA6
    ensures !Low(0xA6) && Half(0xA6) == 0x53 && Low(0x53) && Half(0x53) == 0x29
    ensures Low(0x29) && Half(0x29) == 0x14 && !Low(0x14) && Half(0x14) == 0xA
    ensures !Low(0xA) && Half(0xA) == 0x5 && Low(0x5) && Half(0x5) == 0x2
    ensures !Low(0x2) && Half(0x2) == 0x1 && Low(0x1) && Half(0x1) == 0x0
  {
  }

  lemma GeneratorBits()
    ensures WordBits(POLYNOMIAL, 16) == [false, false, true, true, true, true, false, true,
                                         false, true, true, false, false, true, false, true]
  {
    hide WordBits, Low, Half;
    GeneratorHalves();
    WordBitsHead(0xA6BC, 16);
    WordBitsHead(0x535E, 15);
    WordBitsHead(0x29AF, 14);
    WordBitsHead(0x14D7, 13);
    WordBitsHead(0xA6B, 12);
    WordBitsHead(0x535, 11);
    WordBitsHead(0x29A, 10);
    WordBitsHead(0x14D, 9);
    WordBitsHead(0xA6, 8);
    WordBitsHead(0x53, 7);
    WordBitsHead(0x29, 6);
    WordBitsHead(0x14, 5);
    WordBitsHead(0xA, 4);
    WordBitsHead(0x5, 3);
    WordBitsHead(0x2, 2);
    WordBitsHead(0x1, 1);
    WordBitsFlip(0, 0, 0);
  }

  /** The generator without its highest power is what the register is flipped by. */
  lemma GeneratorReflected()
    ensures |Reflected(POLYNOMIAL)| == 16
    ensures forall k :: 0 <= k < 16 ==> Reflected(POLYNOMIAL)[k] == (k in GENERATOR)
  {
    hide Message, WordBits;
    GeneratorBits();
    MessageAt(WordBits(POLYNOMIAL, 16));
  }

  lemma BitIs(c: bv16, b: bool)
    ensures Bit(Xor(c, Unit(b))) == if Low(c) != b then Xor(Half(c), POLYNOMIAL) else Half(c)
  {
  }

  /** What the register does with one bit, place by place. */
  lemma BitReflected(c: bv16, b: bool)
    ensures var f, r, s := Low(c) != b, Reflected(c), Reflected(Bit(Xor(c, Unit(b))));
            |r| == |s| == 16 && forall k :: 0 <= k < 16 ==> s[k] == ((k > 0 && r[k - 1]) != (f && k in GENERATOR))
  {
    hide Bit, Xor, Unit, Half, Reflected;
    BitIs(c, b);
    ShiftReflected(c);
    LastCoef(c);
    FlipReflected(Half(c), POLYNOMIAL);
    GeneratorReflected();
  }

  lemma DivisionStep(d: Poly, q: Poly, c: bv16, b: bool)
    requires Division(d, q, Reflected(c))
    ensures Division([b] + d, [Low(c) != b] + q, Reflected(Bit(Xor(c, Unit(b)))))
  {
    hide Bit, Xor, Unit, Low, Reflected, ProductCoef;
    var f, r, s := Low(c) != b, Reflected(c), Reflected(Bit(Xor(c, Unit(b))));
    BitReflected(c, b);
    LastCoef(c);
    forall k: int ensures Coef([b] + d, k - 16) == (ProductCoef([f] + q, GENERATOR, k) != Coef(s, k)) {
      ProductShift(f, q, GENERATOR, k);
      assert Coef(d, k - 1 - 16) == (ProductCoef(q, GENERATOR, k - 1) != Coef(r, k - 1));
      assert Coef([b] + d, k - 16) == if k == 16 then b else Coef(d, k - 17);
    }
  }

  lemma LastCoef(c: bv16)
    ensures |Reflected(c)| == 16 && Reflected(c)[15] == Low(c)
  {
    hide WordBits, Low, Half;
    WordBitsHead(c, 16);
    WordBitsFlip(c, c, 16);
    MessageAt(WordBits(c, 16));
  }

  // ---- The register is the remainder ----

  lemma {:induction false} FeedDivides(d: Poly, q: Poly, c: bv16, bits: seq<bool>) returns (quotient: Poly)
    requires Division(d, q, Reflected(c))
    ensures Division(Message(bits) + d, quotient, Reflected(FeedBits(c, bits)))
    decreases |bits|
  {
    hide Bit, Xor, Unit, Low, Reflected, Division;
    if bits == [] {
      assert [] + d == d;
      quotient := q;
    } else {
      DivisionStep(d, q, c, bits[0]);
      var f := Low(c) != bits[0];
      quotient := FeedDivides([bits[0]] + d, [f] + q, Bit(Xor(c, Unit(bits[0]))), bits[1..]);
      assert Message(bits[1..]) + ([bits[0]] + d) == Message(bits) + d;
    }
  }

  lemma NothingDivided()
    ensures Division([], [], Reflected(0))
  {
    hide WordBits;
    ZeroBits(16);
    MessageAt(WordBits(0, 16));
    forall k: int ensures Coef([], k - 16) == (ProductCoef([], GENERATOR, k) != Coef(Reflected(0), k)) {
      NothingTimes(GENERATOR, k);
    }
  }

  lemma {:induction false} NothingTimes(powers: seq<nat>, k: int)
    ensures !ProductCoef([], powers, k)
    decreases |powers|
  {
    if powers != [] { NothingTimes(powers[1..], k); }
  }

  lemma {:induction false} ZeroBits(n: nat)
    ensures |WordBits(0, n)| == n && forall k :: 0 <= k < n ==> !WordBits(0, n)[k]
    decreases n
  {
    if n > 0 {
      assert !Low(0) && Half(0) == 0;
      WordBitsHead(0, n);
      ZeroBits(n - 1);
    }
  }

  /** Before its bits are inverted, the CRC is the remainder of the message times x^16 on
      division by the generator, coefficients in reflected order. */
  lemma CrcIsRemainder(data: Bytes) returns (quotient: Poly)
    ensures Division(Message(Serial(data)), quotient, Reflected(Xor(CalcCrc(data), 0xFFFF)))
  {
    hide Reflected, Division, Serial, Register, FeedBits, CalcCrc;
    NothingDivided();
    quotient := FeedDivides([], [], 0, Serial(data));
    assert Message(Serial(data)) + [] == Message(Serial(data));
    RegisterIsSerial(0, data);
    CrcIsRegister(data);
    XorTwice(Register(0, data));
  }

  lemma XorTwice(c: bv16)
    ensures Xor(Xor(c, 0xFFFF), 0xFFFF) == c
  {
  }

  // ---- There is one remainder only ----

  ghost predicate AgreeFrom(p: Poly, q: Poly, n: int) {
    forall k: int :: n <= k ==> Coef(p, k) == Coef(q, k)
  }

  lemma {:induction false} ProductAgrees(p: Poly, q: Poly, powers: seq<nat>, k: int)
    requires forall e <- powers :: Coef(p, k - e) == Coef(q, k - e)
    ensures ProductCoef(p, powers, k) == ProductCoef(q, powers, k)
    decreases |powers|
  {
    if powers != [] {
      assert powers[0] in powers && forall e <- powers[1..] :: e in powers;
      ProductAgrees(p, q, powers[1..], k);
    }
  }

  /** Quotients that agree above a power agree there too, since remainders have none. */
  lemma {:induction false} QuotientsAgree(d: Poly, p: Poly, q: Poly, r: Poly, s: Poly, n: nat)
    requires Division(d, p, r) && Division(d, q, s)
    ensures AgreeFrom(p, q, n)
    decreases |p| + |q| - n
  {
    if n < |p| + |q| {
      QuotientsAgree(d, p, q, r, s, n + 1);
      var k, lower := n + 16, GENERATOR[1..];
      ProductAgrees(p, q, lower, k);
      assert Coef(d, k - 16) == (ProductCoef(p, GENERATOR, k) != Coef(r, k));
      assert Coef(d, k - 16) == (ProductCoef(q, GENERATOR, k) != Coef(s, k));
      assert ProductCoef(p, GENERATOR, k) == (Coef(p, n) != ProductCoef(p, lower, k));
      assert ProductCoef(q, GENERATOR, k) == (Coef(q, n) != ProductCoef(q, lower, k));
    }
  }

  /** So the division determines the CRC. */
  lemma RemainderUnique(d: Poly, p: Poly, q: Poly, r: Poly, s: Poly)
    requires Division(d, p, r) && Division(d, q, s)
    ensures r == s
  {
    hide ProductCoef;
    QuotientsAgree(d, p, q, r, s, 0);
    forall k | 0 <= k < 16 ensures r[k] == s[k] {
      ProductAgrees(p, q, GENERATOR, k);
      assert Coef(d, k - 16) == (ProductCoef(p, GENERATOR, k) != Coef(r, k));
      assert Coef(d, k - 16) == (ProductCoef(q, GENERATOR, k) != Coef(s, k));
    }
  }

  lemma RegisterFrom(c: bv16, data: Bytes, k: nat)
    requires k < |data|
    ensures Register(c, data[k..]) == Register(Lookup(c, data[k]), data[k + 1..])
  {
    hide Lookup;
    assert data[k..][1..] == data[k + 1..];
  }

  lemma ResetLookups()
    ensures Lookup(0, 0x05) == 0xEF26 && Lookup(0xEF26, 0x64) == 0x3F0D
    ensures Lookup(0x3F0D, 0x05) == 0xFFB6 && Lookup(0xFFB6, 0xC0) == 0x7DA1
    ensures Lookup(0x7DA1, 0x01) == 0x8F6E && Lookup(0x8F6E, 0x00) == 0x3033
    ensures Lookup(0x3033, 0x00) == 0xC116 && Lookup(0xC116, 0x04) == 0xDE16
  {
  }

  /** The CRC of a header that resets a link, as the protocol's own tests give it. */
  lemma CrcOfReset()
    ensures CalcCrc([0x05, 0x64, 0x05, 0xC0, 0x01, 0x00, 0x00, 0x04]) == 0x21E9
  {
    hide Lookup, Register;
    var data: Bytes := [0x05, 0x64, 0x05, 0xC0, 0x01, 0x00, 0x00, 0x04];
    ResetLookups();
    assert data[0..] == data && data[8..] == [];
    RegisterFrom(0, data, 0);
    RegisterFrom(0xEF26, data, 1);
    RegisterFrom(0x3F0D, data, 2);
    RegisterFrom(0xFFB6, data, 3);
    RegisterFrom(0x7DA1, data, 4);
    RegisterFrom(0x8F6E, data, 5);
    RegisterFrom(0x3033, data, 6);
    RegisterFrom(0xC116, data, 7);
    RegisterOfNothing(0xDE16);
  }

  lemma RegisterOfNothing(c: bv16)
    ensures Register(c, []) == c
  {
  }
}
