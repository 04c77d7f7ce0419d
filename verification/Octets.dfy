/** Octets, octet strings, and the concatenation of a list of chunks. */
module Octets {
  type Byte = bv8
  type Bytes = seq<Byte>

  const CR: Byte := 0x0D
  const LF: Byte := 0x0A

  datatype Option<+T> = None | Some(value: T)

  function Flatten(chunks: seq<Bytes>): Bytes {
    if chunks == [] then [] else chunks[0] + Flatten(chunks[1..])
  }

  lemma FlattenAppend(a: seq<Bytes>, b: seq<Bytes>)
    ensures Flatten(a + b) == Flatten(a) + Flatten(b)
  {
    if a == [] {
      assert a + b == b;
    } else {
      assert (a + b)[1..] == a[1..] + b;
      FlattenAppend(a[1..], b);
    }
  }

  lemma FlattenSnoc(a: seq<Bytes>, c: Bytes)
    ensures Flatten(a + [c]) == Flatten(a) + c
  {
    FlattenAppend(a, [c]);
    assert Flatten([c]) == c + Flatten([]);
  }

  /** The octet of a small number. */
  function OctetOf(n: nat): Byte
    requires n < 256
  {
    if n == 0 then 0 else OctetOf(n - 1) + 1
  }

  lemma {:induction false} OctetOfNat(n: nat)
    requires n < 256
    ensures OctetOf(n) as nat == n
  {
    if n > 0 {
      OctetOfNat(n - 1);
      Below(OctetOf(n - 1), 255);
      Successor(OctetOf(n - 1));
    }
  }

  lemma Below(b: Byte, limit: Byte)
    requires b as nat < limit as nat
    ensures b < limit
  {}

  lemma Successor(b: Byte)
    requires b < 255
    ensures (b + 1) as nat == (b as nat) + 1
  {}

  lemma SixBits(n: nat)
    requires n < 64
    ensures OctetOf(n) & 0x3F == OctetOf(n)
  {
    OctetOfNat(n);
    Below(OctetOf(n), 64);
    LowSix(OctetOf(n));
  }

  lemma LowSix(b: Byte)
    requires b < 64
    ensures b & 0x3F == b
  {}
}
