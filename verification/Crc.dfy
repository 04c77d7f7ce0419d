/** The DNP3 block check: a table-driven CRC-16, and what it detects. */
module Crc {
  import opened Octets

  const POLYNOMIAL: bv16 := 0xA6BC

  /** One bit of the shift register. */
  function Bit(c: bv16): bv16 {
    if c & 1 == 1 then (c >> 1) ^ POLYNOMIAL else c >> 1
  }

  function Bits(c: bv16, n: nat): bv16
    decreases n
  {
    if n == 0 then c else Bits(Bit(c), n - 1)
  }

  // Exclusive or and the halves of a word, named so that proofs need not look at bits.
  function Xor(x: bv16, y: bv16): bv16 { x ^ y }

  function Wide(b: Byte): bv16 { b as bv16 }

  function LowHalf(x: bv16): bv16 { x & 0xFF }

  /** One table lookup per octet; entry i of the table is Bits(i, 8). */
  function Lookup(c: bv16, b: Byte): bv16 {
    Xor(Bits(LowHalf(Xor(c, Wide(b))), 8), c >> 8)
  }

  function Register(c: bv16, data: Bytes): bv16
    decreases |data|
  {
    if data == [] then c else Register(Lookup(c, data[0]), data[1..])
  }

  /** CRC::CalcCRC with start 0 and inversion. */
  function CalcCrc(data: Bytes): bv16 {
    Register(0, data) ^ 0xFFFF
  }

  /** Precomputes the table, eight shifts an entry. */
  method PrecomputeCrc() returns (table: array<bv16>)
    ensures fresh(table) && IsTable(table)
  {
    hide Bits;
    table := new bv16[256];
    for i := 0 to 256
      invariant forall k :: 0 <= k < i ==> table[k] == Bits(k as bv16, 8)
    {
      table[i] := TableEntry(i as bv16);
    }
  }

  method TableEntry(start: bv16) returns (c: bv16)
    ensures c == Bits(start, 8)
  {
    c := start;
    for j := 0 to 8
      invariant Bits(c, 8 - j) == Bits(start, 8)
    {
      c := if c & 1 == 1 then (c >> 1) ^ POLYNOMIAL else c >> 1;
    }
  }

  ghost predicate IsTable(table: array<bv16>)
    reads table
  {
    table.Length == 256 && forall i :: 0 <= i < 256 ==> table[i] == Bits(i as bv16, 8)
  }

  method LookupTable(table: array<bv16>, c: bv16, b: Byte) returns (r: bv16)
    requires IsTable(table)
    ensures r == Lookup(c, b)
  {
    hide Bits, Xor, Wide, LowHalf;
    var index := LowHalf(Xor(c, Wide(b)));
    IndexInTable(Xor(c, Wide(b)));
    r := Xor(table[index as nat], c >> 8);
  }

  method ComputeCrc(data: Bytes, table: array<bv16>) returns (crc: bv16)
    requires IsTable(table)
    ensures crc == CalcCrc(data)
  {
    hide Lookup, IsTable;
    crc := 0;
    assert data[0..] == data;
    for i := 0 to |data|
      invariant Register(crc, data[i..]) == Register(0, data)
    {
      assert data[i..][1..] == data[i + 1..];
      crc := LookupTable(table, crc, data[i]);
    }
    crc := crc ^ 0xFFFF;
  }

  lemma IndexInTable(x: bv16)
    ensures (LowHalf(x) as nat) < 256 && (LowHalf(x) as nat) as bv16 == LowHalf(x)
  {
    assert LowHalf(x) < 256;
  }

  // ---- Error detection ----

  function High(b: Byte): bv16 { (b as bv16) << 8 }

  lemma XorShift(x: bv16, y: bv16)
    ensures (x ^ y) >> 1 == (x >> 1) ^ (y >> 1)
  {}

  lemma XorParity(x: bv16, y: bv16)
    ensures (x ^ y) & 1 == 1 <==> ((x & 1 == 1) != (y & 1 == 1))
  {}

  lemma XorRules(a: bv16, b: bv16, p: bv16)
    ensures (a ^ p) ^ (b ^ p) == a ^ b
    ensures (a ^ p) ^ b == (a ^ b) ^ p
    ensures a ^ (b ^ p) == (a ^ b) ^ p
  {}

  lemma BitOfXor(x: bv16, y: bv16)
    ensures Bit(x ^ y) == Bit(x) ^ Bit(y)
  {
    XorShift(x, y);
    XorParity(x, y);
    XorRules(x >> 1, y >> 1, POLYNOMIAL);
  }

  lemma BitLinear(x: bv16, y: bv16)
    ensures Bit(Xor(x, y)) == Xor(Bit(x), Bit(y))
  {
    hide Bit;
    BitOfXor(x, y);
  }

  lemma {:induction false} BitsLinear(x: bv16, y: bv16, n: nat)
    ensures Bits(Xor(x, y), n) == Xor(Bits(x, n), Bits(y, n))
    decreases n
  {
    hide Bit, Xor;
    if n > 0 {
      BitLinear(x, y);
      BitsLinear(Bit(x), Bit(y), n - 1);
    }
  }

  lemma BitInjective(x: bv16, y: bv16)
    requires Bit(x) == Bit(y)
    ensures x == y
  {}

  lemma {:induction false} BitsInjective(x: bv16, y: bv16, n: nat)
    requires Bits(x, n) == Bits(y, n)
    ensures x == y
    decreases n
  {
    hide Bit;
    if n > 0 {
      BitsInjective(Bit(x), Bit(y), n - 1);
      BitInjective(x, y);
    }
  }

  lemma {:induction false} BitsAdd(c: bv16, m: nat, n: nat)
    ensures Bits(c, m + n) == Bits(Bits(c, m), n)
    decreases m
  {
    hide Bit;
    if m > 0 { BitsAdd(Bit(c), m - 1, n); }
  }

  /** Eight shifts of a register whose low octet is clear just move the high octet down. */
  lemma HighOctet(c: bv16)
    requires c & 0xFF == 0
    ensures Bits(c, 8) == c >> 8
  {
    var c1, c2, c3, c4 := c >> 1, c >> 2, c >> 3, c >> 4;
    var c5, c6, c7, c8 := c >> 5, c >> 6, c >> 7, c >> 8;
    assert Bit(c) == c1 && Bit(c1) == c2 && Bit(c2) == c3 && Bit(c3) == c4;
    assert Bit(c4) == c5 && Bit(c5) == c6 && Bit(c6) == c7 && Bit(c7) == c8;
    assert Bits(c, 8) == Bits(c1, 7) == Bits(c2, 6) == Bits(c3, 5) == Bits(c4, 4);
    assert Bits(c4, 4) == Bits(c5, 3) == Bits(c6, 2) == Bits(c7, 1) == Bits(c8, 0);
  }

  function HighHalf(x: bv16): bv16 { x & 0xFF00 }

  lemma Halves(x: bv16)
    ensures Xor(LowHalf(x), HighHalf(x)) == x && HighHalf(x) & 0xFF == 0
  {}

  lemma HighUnaffected(c: bv16, b: Byte)
    ensures HighHalf(Xor(c, Wide(b))) >> 8 == c >> 8
  {}

  /** The table form is the bitwise form: refinement of the shift register. */
  lemma LookupIsBits(c: bv16, b: Byte)
    ensures Lookup(c, b) == Bits(Xor(c, Wide(b)), 8)
  {
    hide Bits, Xor, Wide, LowHalf, HighHalf;
    var x := Xor(c, Wide(b));
    Halves(x);
    HighUnaffected(c, b);
    BitsLinear(LowHalf(x), HighHalf(x), 8);
    HighOctet(HighHalf(x));
  }

  lemma {:induction false} RegisterAppend(c: bv16, a: Bytes, b: Bytes)
    ensures Register(c, a + b) == Register(Register(c, a), b)
    decreases |a|
  {
    hide Lookup;
    if a == [] {
      assert a + b == b;
    } else {
      assert (a + b)[1..] == a[1..] + b;
      RegisterAppend(Lookup(c, a[0]), a[1..], b);
    }
  }

  lemma XorCancelRight(c: bv16, d: bv16, b: bv16)
    requires Xor(c, b) == Xor(d, b)
    ensures c == d
  {}

  lemma XorCancelLeft(b: bv16, c: bv16, d: bv16)
    requires Xor(b, c) == Xor(b, d)
    ensures c == d
  {}

  /** Different registers stay different whatever follows. */
  lemma {:induction false} RegisterInjective(c: bv16, d: bv16, data: Bytes)
    requires Register(c, data) == Register(d, data)
    ensures c == d
    decreases |data|
  {
    hide Lookup, Bits, Xor, Wide;
    if data != [] {
      RegisterInjective(Lookup(c, data[0]), Lookup(d, data[0]), data[1..]);
      LookupIsBits(c, data[0]);
      LookupIsBits(d, data[0]);
      var b := Wide(data[0]);
      BitsInjective(Xor(c, b), Xor(d, b), 8);
      XorCancelRight(c, d, b);
    }
  }

  /** Two octets as one word, first octet low. */
  function Pair(a: Byte, b: Byte): bv16 {
    Xor(Wide(a), High(b))
  }

  lemma HighIsShifted(b: Byte)
    ensures High(b) & 0xFF == 0 && High(b) >> 8 == Wide(b)
  {}

  lemma XorPair(c: bv16, a: Byte, b: Byte)
    ensures Xor(Xor(c, Wide(a)), High(b)) == Xor(c, Pair(a, b))
  {}

  /** Two octets at once are sixteen shifts of the register xored with both. */
  lemma TwoOctets(c: bv16, a: Byte, b: Byte)
    ensures Register(c, [a, b]) == Bits(Xor(c, Pair(a, b)), 16)
  {
    hide Lookup, Bits, Xor, Wide, High, Pair;
    var x := Xor(c, Wide(a));
    LookupIsBits(c, a);
    LookupIsBits(Lookup(c, a), b);
    assert [a, b][1..] == [b] && [b][1..] == [];
    assert Register(c, [a, b]) == Register(Lookup(c, a), [b]) == Register(Lookup(Lookup(c, a), b), []);
    HighIsShifted(b);
    HighOctet(High(b));
    BitsLinear(x, High(b), 8);
    BitsAdd(Xor(x, High(b)), 8, 8);
    XorPair(c, a, b);
  }

  lemma CrcIsRegister(data: Bytes)
    ensures CalcCrc(data) == Xor(Register(0, data), 0xFFFF)
  {}

  // ---- Little-endian words ----

  function Le16(w: bv16): Bytes {
    [(w & 0xFF) as Byte, (w >> 8) as Byte]
  }

  function ReadLe16(lo: Byte, hi: Byte): bv16 {
    (lo as bv16) | ((hi as bv16) << 8)
  }

  lemma LeRoundTrip(w: bv16)
    ensures ReadLe16(Le16(w)[0], Le16(w)[1]) == w
  {}

  /** The low half comes first. */
  lemma LeHalves(lo: Byte, hi: Byte)
    ensures ReadLe16(lo, hi) & 0xFF == lo as bv16 && ReadLe16(lo, hi) >> 8 == hi as bv16
  {}

  lemma LeInjective(lo: Byte, hi: Byte)
    ensures Le16(ReadLe16(lo, hi)) == [lo, hi]
  {}
}
