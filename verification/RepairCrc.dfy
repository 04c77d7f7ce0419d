/** The test helper that gives a hand-written frame its correct CRCs, block by block. */
module RepairingCrc {
  import opened Octets
  import opened Crc
  import opened LinkFraming

  const FULL_BLOCK: nat := 18

  /** The sizes the helper accepts: a header block, full blocks, and a partial block with
      at least one data octet. */
  predicate Acceptable(n: nat) {
    && HEADER_SIZE <= n <= MAX_FRAME
    && ((n - HEADER_SIZE) % FULL_BLOCK == 0 || (n - HEADER_SIZE) % FULL_BLOCK >= 3)
  }

  function Width(n: nat): nat {
    if n < FULL_BLOCK then n else FULL_BLOCK
  }

  /** A body that divides into blocks of at least three octets. */
  predicate Tiled(raw: Bytes)
    decreases |raw|
  {
    raw == [] || (|raw| >= 3 && Tiled(raw[Width(|raw|)..]))
  }

  /** The body with the CRC of every block recomputed. */
  function RepairBody(raw: Bytes): Bytes
    requires Tiled(raw)
    decreases |raw|
  {
    if raw == [] then []
    else
      var n := Width(|raw|);
      Seal(raw[..n - 2]) + RepairBody(raw[n..])
  }

  /** The body without its CRCs. */
  function StripBody(raw: Bytes): Bytes
    requires Tiled(raw)
    decreases |raw|
  {
    if raw == [] then []
    else
      var n := Width(|raw|);
      raw[..n - 2] + StripBody(raw[n..])
  }

  /** Every block of the body passes its check. */
  predicate BodySealed(raw: Bytes)
    requires Tiled(raw)
    decreases |raw|
  {
    raw == [] || (Sealed(raw[..Width(|raw|)]) && BodySealed(raw[Width(|raw|)..]))
  }

  ghost predicate FrameShape(f: Bytes) {
    |f| >= HEADER_SIZE && Tiled(f[HEADER_SIZE..])
  }

  function RepairSpec(f: Bytes): Bytes
    requires FrameShape(f)
  {
    Seal(f[..8]) + RepairBody(f[HEADER_SIZE..])
  }

  ghost predicate FrameSealed(f: Bytes)
    requires FrameShape(f)
  {
    Sealed(f[..HEADER_SIZE]) && BodySealed(f[HEADER_SIZE..])
  }

  lemma {:induction false} AcceptableTiles(raw: Bytes)
    ensures Tiled(raw) <==> |raw| % FULL_BLOCK == 0 || |raw| % FULL_BLOCK >= 3
    decreases |raw|
  {
    if |raw| >= FULL_BLOCK {
      AcceptableTiles(raw[FULL_BLOCK..]);
      assert (|raw| - FULL_BLOCK) % FULL_BLOCK == |raw| % FULL_BLOCK;
    }
  }

  /** The accepted sizes are exactly those of link frames. */
  lemma AcceptableIffFrame(n: nat)
    ensures Acceptable(n) <==> exists m: nat :: m <= MAX_USER_DATA && CalcFrameSize(m) == n
  {
    if Acceptable(n) {
      var k, r := (n - HEADER_SIZE) / FULL_BLOCK, (n - HEADER_SIZE) % FULL_BLOCK;
      var m := BLOCK_SIZE * k + if r == 0 then 0 else r - 2;
      assert m / BLOCK_SIZE == k && m % BLOCK_SIZE == if r == 0 then 0 else r - 2;
      assert CalcFrameSize(m) == n;
    }
    forall m: nat | m <= MAX_USER_DATA && CalcFrameSize(m) == n ensures Acceptable(n) {
      MaxFrameSize(m);
    }
  }

  /** Repairing touches CRC octets only, and what it writes is exactly what the link layer
      writes for the same user data. */
  lemma {:induction false} RepairIsRewrite(raw: Bytes)
    requires Tiled(raw)
    ensures RepairBody(raw) == WriteUserData(StripBody(raw)) && |RepairBody(raw)| == |raw|
    decreases |raw|
  {
    hide Seal, Sealed;
    if raw != [] {
      var n := Width(|raw|);
      RepairIsRewrite(raw[n..]);
      SealLength(raw[..n - 2]);
      var data := StripBody(raw);
      StripLength(raw);
      assert data[..n - 2] == raw[..n - 2] && data[n - 2..] == StripBody(raw[n..]);
    }
  }

  /** Only a partial last block is shorter than 16 data octets. */
  lemma {:induction false} StripLength(raw: Bytes)
    requires Tiled(raw)
    ensures raw != [] ==> BlockLen(|StripBody(raw)|) == Width(|raw|) - 2
    decreases |raw|
  {}

  lemma {:induction false} RepairedBody(raw: Bytes)
    requires Tiled(raw)
    ensures var r := RepairBody(raw);
            && |r| == |raw| && Tiled(r) && BodySealed(r) && StripBody(r) == StripBody(raw)
    decreases |raw|
  {
    hide Seal, Sealed;
    if raw != [] {
      var n := Width(|raw|);
      SealLength(raw[..n - 2]);
      RepairedBody(raw[n..]);
      var r := RepairBody(raw);
      assert r[..n] == Seal(raw[..n - 2]) && r[n..] == RepairBody(raw[n..]);
      assert r[..n - 2] == r[..n][..n - 2];
    }
  }

  lemma {:induction false} SealedBodyIsRepaired(raw: Bytes)
    requires Tiled(raw)
    ensures BodySealed(raw) <==> RepairBody(raw) == raw
    decreases |raw|
  {
    hide Seal, Sealed;
    if raw != [] {
      var n := Width(|raw|);
      SealedBodyIsRepaired(raw[n..]);
      SealedIffSeal(raw[..n]);
      SealLength(raw[..n - 2]);
      assert raw[..n][..n - 2] == raw[..n - 2];
      var r := RepairBody(raw);
      assert r[..n] == Seal(raw[..n - 2]) && r[n..] == RepairBody(raw[n..]);
      assert raw == raw[..n] + raw[n..];
    }
  }

  /** The repaired frame passes every block check and keeps every data octet. */
  lemma RepairedFramePasses(f: Bytes)
    requires FrameShape(f)
    ensures var r := RepairSpec(f);
            && |r| == |f| && FrameShape(r) && FrameSealed(r)
            && r[..8] == f[..8] && StripBody(r[HEADER_SIZE..]) == StripBody(f[HEADER_SIZE..])
  {
    hide Seal, Sealed;
    SealLength(f[..8]);
    RepairedBody(f[HEADER_SIZE..]);
    var r := RepairSpec(f);
    assert r[..HEADER_SIZE] == Seal(f[..8]) && r[HEADER_SIZE..] == RepairBody(f[HEADER_SIZE..]);
    assert r[..8] == r[..HEADER_SIZE][..8];
  }

  /** A frame is left alone exactly when all its checks already pass; so repairing twice
      is repairing once. */
  lemma RepairFixpoint(f: Bytes)
    requires FrameShape(f)
    ensures FrameSealed(f) <==> RepairSpec(f) == f
    ensures FrameShape(RepairSpec(f)) && RepairSpec(RepairSpec(f)) == RepairSpec(f)
  {
    RepairedFramePasses(f);
    FixpointIff(f);
    FixpointIff(RepairSpec(f));
  }

  lemma FixpointIff(f: Bytes)
    requires FrameShape(f)
    ensures FrameSealed(f) <==> RepairSpec(f) == f
  {
    hide Seal, Sealed;
    SealedIffSeal(f[..HEADER_SIZE]);
    SealLength(f[..8]);
    SealedBodyIsRepaired(f[HEADER_SIZE..]);
    assert f[..HEADER_SIZE][..8] == f[..8];
    var r := RepairSpec(f);
    assert r[..HEADER_SIZE] == Seal(f[..8]) && r[HEADER_SIZE..] == RepairBody(f[HEADER_SIZE..]);
    assert f == f[..HEADER_SIZE] + f[HEADER_SIZE..];
  }

  // ---- The code ----

  /** DNPCrc::AddCrc on the block of n octets at off. */
  method AddCrc(a: array<Byte>, off: nat, n: nat)
    requires off + n + 2 <= a.Length
    modifies a
    ensures a[off..off + n + 2] == Seal(old(a[off..off + n]))
    ensures a[..off] == old(a[..off]) && a[off + n + 2..] == old(a[off + n + 2..])
  {
    hide CalcCrc;
    var crc := CalcCrc(a[off..off + n]);
    a[off + n] := (crc & 0xFF) as Byte;
    a[off + n + 1] := (crc >> 8) as Byte;
    assert a[off..off + n + 2] == a[off..off + n] + [a[off + n], a[off + n + 1]];
    assert a[off..off + n] == old(a[off..off + n]);
  }

  /** Repairs in place; sizes it does not accept are refused and left untouched. */
  method RepairCRC(a: array<Byte>) returns (ok: bool)
    modifies a
    ensures ok <==> Acceptable(a.Length)
    ensures ok ==> FrameShape(old(a[..])) && a[..] == RepairSpec(old(a[..]))
    ensures !ok ==> a[..] == old(a[..])
  {
    hide RepairSpec, RepairBody, Tiled, Seal;
    if a.Length < 10 || a.Length > 292 { return false; }
    var fullBlocks := (a.Length - 10) / 18;
    var partialSize := (a.Length - 10) % 18;
    if partialSize > 0 && partialSize < 3 { return false; }
    ok := true;
    ghost var f := a[..];
    AcceptableTiles(f[HEADER_SIZE..]);
    RepairHeader(a);
    var ptr := 10;
    for i := 0 to fullBlocks
      invariant ptr == 10 + 18 * i && a[ptr..] == f[ptr..] && Tiled(f[ptr..])
      invariant a[..ptr] + RepairBody(f[ptr..]) == RepairSpec(f)
    {
      RepairBlock(a, ptr, 16, f, RepairSpec(f));
      ptr := ptr + 18;
    }
    if partialSize > 0 {
      RepairBlock(a, ptr, partialSize - 2, f, RepairSpec(f));
      ptr := ptr + partialSize;
    }
    RepairedAll(a[..], ptr, f);
  }

  lemma RepairedAll(r: Bytes, ptr: nat, f: Bytes)
    requires FrameShape(f) && |r| == |f| == ptr && Tiled(f[ptr..]) && r[..ptr] + RepairBody(f[ptr..]) == RepairSpec(f)
    ensures r == RepairSpec(f)
  {
    assert f[ptr..] == [] && r[..ptr] == r && r + [] == r;
  }

  method RepairHeader(a: array<Byte>)
    requires FrameShape(a[..])
    modifies a
    ensures FrameShape(old(a[..])) && a[10..] == old(a[..])[10..]
    ensures a[..10] + RepairBody(old(a[..])[10..]) == RepairSpec(old(a[..]))
  {
    hide Seal, RepairBody, Tiled;
    ghost var f := a[..];
    AddCrc(a, 0, 8);
    assert a[0..10] == a[..10] && f[0..8] == f[..8];
    assert a[10..] == f[10..];
  }

  /** One step of the block walk, with what is left of the goal. */
  method RepairBlock(a: array<Byte>, ptr: nat, n: nat, ghost f: Bytes, ghost goal: Bytes)
    requires |f| == a.Length && ptr + n + 2 <= a.Length && n + 2 == Width(a.Length - ptr)
    requires a[ptr..] == f[ptr..] && Tiled(f[ptr..]) && a[..ptr] + RepairBody(f[ptr..]) == goal
    modifies a
    ensures var next := ptr + n + 2;
            a[next..] == f[next..] && Tiled(f[next..]) && a[..next] + RepairBody(f[next..]) == goal
  {
    hide Seal, Sealed;
    ghost var next, rest, before := ptr + n + 2, f[ptr..], a[..ptr];
    assert rest != [] && rest[n + 2..] == f[next..] && rest[..n] == a[ptr..ptr + n];
    ghost var tail := RepairBody(f[next..]);
    AddCrc(a, ptr, n);
    assert a[..next] == before + Seal(rest[..n]);
    assert before + Seal(rest[..n]) + tail == before + (Seal(rest[..n]) + tail);
    assert a[next..] == f[next..];
  }
}
