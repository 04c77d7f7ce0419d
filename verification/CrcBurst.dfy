/** The register fed bit by bit, as octets go over a serial line, and the bursts of errors the
    CRC cannot miss. */
module CrcBursts {
  import opened Octets
  import opened Crc

  // ---- Bits ----

  function Unit(b: bool): bv16 { if b then 1 else 0 }

  function Double(w: bv16): bv16 { w << 1 }

  /** The low n bits of a word, lowest first. */
  function WordBits(w: bv16, n: nat): seq<bool>
    decreases n
  {
    if n == 0 then [] else [w & 1 == 1] + WordBits(w >> 1, n - 1)
  }

  function Word(bits: seq<bool>): bv16 {
    if bits == [] then 0 else Xor(Unit(bits[0]), Double(Word(bits[1..])))
  }

  /** Octets in the order their bits are sent. */
  function Serial(data: Bytes): seq<bool> {
    if data == [] then [] else WordBits(Wide(data[0]), 8) + Serial(data[1..])
  }

  /** The shift register fed one bit at a time. */
  function FeedBits(c: bv16, bits: seq<bool>): bv16
    decreases |bits|
  {
    if bits == [] then c else FeedBits(Bit(Xor(c, Unit(bits[0]))), bits[1..])
  }

  // ---- Words of up to sixteen bits ----

  /** The places from n on. */
  function Above(n: nat): bv16 {
    if n == 0 then 0xFFFF else Double(Above(n - 1))
  }

  function Meet(x: bv16, y: bv16): bv16 { x & y }

  lemma AboveTop(n: nat)
    requires n <= 15
    ensures Meet(Above(n), 0x8000) == 0x8000
  {
    assert Above(1) == 0xFFFE && Above(2) == 0xFFFC && Above(3) == 0xFFF8 && Above(4) == 0xFFF0;
    assert Above(5) == 0xFFE0 && Above(6) == 0xFFC0 && Above(7) == 0xFF80 && Above(8) == 0xFF00;
    assert Above(9) == 0xFE00 && Above(10) == 0xFC00 && Above(11) == 0xF800 && Above(12) == 0xF000;
    assert Above(13) == 0xE000 && Above(14) == 0xC000 && Above(15) == 0x8000;
  }

  lemma MeetDouble(b: bool, w: bv16, a: bv16)
    requires Meet(w, a) == 0
    ensures Meet(Xor(Unit(b), Double(w)), Double(a)) == 0
  {
  }

  lemma TopClear(w: bv16, a: bv16)
    requires Meet(w, a) == 0 && Meet(a, 0x8000) == 0x8000
    ensures Meet(w, 0x8000) == 0
  {
  }

  lemma {:induction false} WordFits(bits: seq<bool>)
    ensures Meet(Word(bits), Above(|bits|)) == 0
    ensures |bits| <= 15 ==> Meet(Word(bits), 0x8000) == 0
    decreases |bits|
  {
    hide Meet, Xor, Double, Unit;
    if bits == [] {
      NothingMeets();
    } else {
      WordFits(bits[1..]);
      MeetDouble(bits[0], Word(bits[1..]), Above(|bits| - 1));
    }
    if |bits| <= 15 {
      AboveTop(|bits|);
      TopClear(Word(bits), Above(|bits|));
    }
  }

  lemma NothingMeets()
    ensures Meet(0, 0xFFFF) == 0
  {
  }

  /** A bit that is not yet at the end of the register only moves. */
  lemma BitMoves(x: bv16, w: bv16)
    requires Meet(w, 0x8000) == 0
    ensures Bit(Xor(x, Double(w))) == Xor(Bit(x), w)
  {
    BitLinear(x, Double(w));
  }

  lemma XorRegroup(x: bv16, y: bv16, z: bv16)
    ensures Xor(Xor(x, y), z) == Xor(x, Xor(y, z))
  {
  }

  /** Up to sixteen bits at once: the register is xored with the word and shifted. */
  lemma {:induction false} FeedIsBits(c: bv16, bits: seq<bool>)
    requires |bits| <= 16
    ensures FeedBits(c, bits) == Bits(Xor(c, Word(bits)), |bits|)
    decreases |bits|
  {
    hide Bit, Xor, Double, Unit, Meet;
    if bits == [] {
      XorNothing(c);
    } else {
      var u, w := Unit(bits[0]), Word(bits[1..]);
      FeedIsBits(Bit(Xor(c, u)), bits[1..]);
      WordFits(bits[1..]);
      BitMoves(Xor(c, u), w);
      XorRegroup(c, u, Double(w));
    }
  }

  lemma XorNothing(c: bv16)
    ensures Xor(c, 0) == c
  {
  }

  lemma SameParts(a: bool, b: bool, x: bv16, y: bv16)
    requires Meet(x, 0x8000) == 0 && Meet(y, 0x8000) == 0
    requires Xor(Unit(a), Double(x)) == Xor(Unit(b), Double(y))
    ensures a == b && x == y
  {
  }

  lemma {:induction false} WordInjective(u: seq<bool>, v: seq<bool>)
    requires |u| == |v| <= 16 && Word(u) == Word(v)
    ensures u == v
    decreases |u|
  {
    hide Xor, Double, Unit, Meet;
    if u != [] {
      WordFits(u[1..]);
      WordFits(v[1..]);
      SameParts(u[0], v[0], Word(u[1..]), Word(v[1..]));
      WordInjective(u[1..], v[1..]);
      assert u == [u[0]] + u[1..] && v == [v[0]] + v[1..];
    }
  }

  lemma HalfFits(w: bv16, a: bv16)
    requires Meet(w, Double(a)) == 0
    ensures Meet(w >> 1, a) == 0
  {
    assert (w & (a << 1)) >> 1 == (w >> 1) & ((a << 1) >> 1);
  }

  lemma HalvesOf(w: bv16)
    ensures Xor(Unit(w & 1 == 1), Double(w >> 1)) == w
  {
  }

  lemma {:induction false} WordOfBits(w: bv16, n: nat)
    requires Meet(w, Above(n)) == 0
    ensures |WordBits(w, n)| == n && Word(WordBits(w, n)) == w
    decreases n
  {
    hide Xor, Double, Unit, Meet;
    if n == 0 {
      MeetsAll(w);
    } else {
      HalfFits(w, Above(n - 1));
      HalvesOf(w);
      WordOfBits(w >> 1, n - 1);
      var bits := WordBits(w, n);
      assert bits[0] == (w & 1 == 1) && bits[1..] == WordBits(w >> 1, n - 1);
    }
  }

  lemma MeetsAll(w: bv16)
    requires Meet(w, 0xFFFF) == 0
    ensures w == 0
  {
  }

  lemma OctetBits(b: Byte)
    ensures |WordBits(Wide(b), 8)| == 8 && Word(WordBits(Wide(b), 8)) == Wide(b)
  {
    assert Above(4) == 0xFFF0 && Above(8) == 0xFF00;
    OctetFits(b);
    WordOfBits(Wide(b), 8);
  }

  lemma OctetFits(b: Byte)
    ensures Meet(Wide(b), 0xFF00) == 0
  {
  }

  // ---- Octets and bits ----

  lemma {:induction false} FeedBitsAppend(c: bv16, a: seq<bool>, b: seq<bool>)
    ensures FeedBits(c, a + b) == FeedBits(FeedBits(c, a), b)
    decreases |a|
  {
    hide Bit, Xor, Unit;
    if a == [] {
      assert a + b == b;
    } else {
      assert (a + b)[1..] == a[1..] + b;
      FeedBitsAppend(Bit(Xor(c, Unit(a[0]))), a[1..], b);
    }
  }

  /** The table form, octet by octet, is the register fed bit by bit. */
  lemma {:induction false} RegisterIsSerial(c: bv16, data: Bytes)
    ensures FeedBits(c, Serial(data)) == Register(c, data) && |Serial(data)| == 8 * |data|
    decreases |data|
  {
    hide Bit, Bits, Xor, Unit, Wide, Lookup, Word, WordBits, FeedBits;
    if data == [] {
      FeedNoBits(c);
    } else {
      var bits := WordBits(Wide(data[0]), 8);
      OctetBits(data[0]);
      FeedIsBits(c, bits);
      LookupIsBits(c, data[0]);
      FeedBitsAppend(c, bits, Serial(data[1..]));
      RegisterIsSerial(Lookup(c, data[0]), data[1..]);
    }
  }

  lemma FeedNoBits(c: bv16)
    ensures FeedBits(c, []) == c
  {
  }

  lemma {:induction false} SerialAppend(a: Bytes, b: Bytes)
    ensures Serial(a + b) == Serial(a) + Serial(b)
    decreases |a|
  {
    hide WordBits, Wide;
    if a == [] {
      assert a + b == b && [] + Serial(b) == Serial(b);
    } else {
      assert (a + b)[1..] == a[1..] + b;
      SerialAppend(a[1..], b);
      var bits := WordBits(Wide(a[0]), 8);
      assert bits + (Serial(a[1..]) + Serial(b)) == bits + Serial(a[1..]) + Serial(b);
    }
  }

  lemma WideInjective(a: Byte, b: Byte)
    requires Wide(a) == Wide(b)
    ensures a == b
  {
  }

  lemma {:induction false} SerialInjective(a: Bytes, b: Bytes)
    requires |a| == |b| && Serial(a) == Serial(b)
    ensures a == b
    decreases |a|
  {
    hide WordBits, Wide, Word;
    if a != [] {
      OctetBits(a[0]);
      OctetBits(b[0]);
      var x, y := WordBits(Wide(a[0]), 8), WordBits(Wide(b[0]), 8);
      assert x == Serial(a)[..8] == Serial(b)[..8] == y;
      assert Serial(a[1..]) == Serial(a)[8..] == Serial(b)[8..] == Serial(b[1..]);
      WideInjective(a[0], b[0]);
      SerialInjective(a[1..], b[1..]);
      assert a == [a[0]] + a[1..] && b == [b[0]] + b[1..];
    }
  }

  // ---- Bursts ----

  const BURST := 16

  /** All differences lie among sixteen consecutive bits, from place i on. */
  ghost predicate Within(u: seq<bool>, v: seq<bool>, i: int) {
    |u| == |v| && forall j :: 0 <= j < |u| && u[j] != v[j] ==> i <= j < i + BURST
  }

  /** The same of octets; the bits may start anywhere in an octet. */
  ghost predicate Near(raw: Bytes, bad: Bytes, i: int) {
    |raw| == |bad| && Within(Serial(raw), Serial(bad), i)
  }

  /** Octets changed by one burst of errors. */
  ghost predicate Damaged(raw: Bytes, bad: Bytes) {
    raw != bad && exists i: int :: Near(raw, bad, i)
  }

  lemma {:induction false} FeedBitsInjective(c: bv16, d: bv16, bits: seq<bool>)
    requires FeedBits(c, bits) == FeedBits(d, bits)
    ensures c == d
    decreases |bits|
  {
    hide Bit, Xor, Unit;
    if bits != [] {
      var u := Unit(bits[0]);
      FeedBitsInjective(Bit(Xor(c, u)), Bit(Xor(d, u)), bits[1..]);
      BitInjective(Xor(c, u), Xor(d, u));
      XorCancelRight(c, d, u);
    }
  }

  /** The register tells apart any two streams that differ in one burst. */
  lemma {:induction false} BurstChanges(c: bv16, u: seq<bool>, v: seq<bool>, i: int)
    requires Within(u, v, i) && u != v
    ensures FeedBits(c, u) != FeedBits(c, v)
    decreases |u|
  {
    hide Bit, Bits, Xor, Unit, Word, FeedBits;
    if u[0] == v[0] {
      assert u == [u[0]] + u[1..] && v == [u[0]] + v[1..];
      BurstChanges(FeedBits(c, [u[0]]), u[1..], v[1..], i - 1);
      FeedBitsAppend(c, [u[0]], u[1..]);
      FeedBitsAppend(c, [u[0]], v[1..]);
    } else {
      var n := if |u| < BURST then |u| else BURST;
      assert u[n..] == v[n..] && u[..n][0] != v[..n][0];
      assert u == u[..n] + u[n..] && v == v[..n] + u[n..];
      FeedBitsAppend(c, u[..n], u[n..]);
      FeedBitsAppend(c, v[..n], u[n..]);
      FeedIsBits(c, u[..n]);
      FeedIsBits(c, v[..n]);
      if FeedBits(c, u) == FeedBits(c, v) {
        FeedBitsInjective(FeedBits(c, u[..n]), FeedBits(c, v[..n]), u[n..]);
        BitsInjective(Xor(c, Word(u[..n])), Xor(c, Word(v[..n])), n);
        XorCancelLeft(c, Word(u[..n]), Word(v[..n]));
        WordInjective(u[..n], v[..n]);
      }
    }
  }

  /** Any burst of up to sixteen bits, at any bit, changes the register. */
  lemma BurstDetected(c: bv16, raw: Bytes, bad: Bytes)
    requires Damaged(raw, bad)
    ensures Register(c, raw) != Register(c, bad)
  {
    hide Register, Serial, FeedBits, Within;
    var i: int :| Near(raw, bad, i);
    RegisterIsSerial(c, raw);
    RegisterIsSerial(c, bad);
    if Serial(raw) == Serial(bad) { SerialInjective(raw, bad); }
    BurstChanges(c, Serial(raw), Serial(bad), i);
  }

  lemma {:induction false} FeedZeros(bits: seq<bool>)
    requires forall i :: 0 <= i < |bits| ==> !bits[i]
    ensures FeedBits(0, bits) == 0
    decreases |bits|
  {
    if bits != [] {
      assert Bit(Xor(0, Unit(false))) == 0;
      FeedZeros(bits[1..]);
    }
  }

  /** Sixteen bits are the limit: seventeen that spell the generator go unnoticed. */
  lemma GeneratorMissed(zeros: seq<bool>)
    requires |zeros| == BURST + 1 && forall i :: 0 <= i < |zeros| ==> !zeros[i]
    ensures var g := [true] + WordBits(POLYNOMIAL, BURST);
            |g| == |zeros| && g != zeros && FeedBits(0, g) == FeedBits(0, zeros)
  {
    var word := WordBits(POLYNOMIAL, BURST);
    FeedZeros(zeros);
    assert Above(8) == 0xFF00 && Above(12) == 0xF000 && Above(16) == 0;
    assert Meet(POLYNOMIAL, 0) == 0;
    WordOfBits(POLYNOMIAL, BURST);
    assert ([true] + word)[0] != zeros[0] && ([true] + word)[1..] == word;
    assert Bit(Xor(0, Unit(true))) == POLYNOMIAL;
    FeedIsBits(POLYNOMIAL, word);
    assert Xor(POLYNOMIAL, POLYNOMIAL) == 0;
    ZeroStays(BURST);
  }

  lemma {:induction false} ZeroStays(n: nat)
    ensures Bits(0, n) == 0
    decreases n
  {
    if n > 0 {
      assert Bit(0) == 0;
      ZeroStays(n - 1);
    }
  }

  /** A burst may reach over a boundary: each side is near its original. */
  lemma NearSplit(raw: Bytes, bad: Bytes, i: int, n: nat)
    requires Near(raw, bad, i) && n <= |raw|
    ensures Near(raw[..n], bad[..n], i) && Near(raw[n..], bad[n..], i - 8 * n)
  {
    hide Serial;
    RegisterIsSerial(0, raw[..n]);
    RegisterIsSerial(0, bad[..n]);
    SerialAppend(raw[..n], raw[n..]);
    SerialAppend(bad[..n], bad[n..]);
    assert raw == raw[..n] + raw[n..] && bad == bad[..n] + bad[n..];
    var u, v := Serial(raw), Serial(bad);
    assert Serial(raw[..n]) == u[..8 * n] && Serial(bad[..n]) == v[..8 * n];
    assert Serial(raw[n..]) == u[8 * n..] && Serial(bad[n..]) == v[8 * n..];
    assert forall j :: 0 <= j < |u| - 8 * n ==> u[8 * n..][j] == u[8 * n + j] && v[8 * n..][j] == v[8 * n + j];
  }
}
