/** The link layer receiver: finds frames in a byte stream that arrives in arbitrary
    pieces, checks their CRCs, and resynchronizes after anything that is not a frame.

    `Scan` is the reference, a parser of a whole buffer. `LinkLayerReceiver` is the code:
    a three-state machine over a shiftable buffer. */
module LinkReceiving {
  import opened CrcBursts
  import opened LinkFraming
  import opened Octets

  // ---- The reference parser ----

  /** Octets to skip up to a full or, at the end, partial 05 64. */
  function SyncOffset(b: Bytes): nat {
    if b == [] then 0
    else if b[0] == 0x05 && (|b| == 1 || b[1] == 0x64) then 0
    else 1 + SyncOffset(b[1..])
  }

  lemma {:induction false} SyncOffsetBound(b: Bytes)
    ensures SyncOffset(b) <= |b|
    ensures var r := b[SyncOffset(b)..]; SyncOffset(r) == 0 && (|r| >= 2 ==> r[0] == 0x05 && r[1] == 0x64)
    decreases |b|
  {
    if b != [] && !(b[0] == 0x05 && (|b| == 1 || b[1] == 0x64)) {
      SyncOffsetBound(b[1..]);
      assert b[1..][SyncOffset(b[1..])..] == b[SyncOffset(b)..];
    }
  }

  datatype Scanned = Scanned(frames: seq<Frame>, rest: Bytes)

  predicate HeaderGood(b: Bytes) {
    |b| >= HEADER_SIZE && CheckHeader(b[..HEADER_SIZE]) == Good
  }

  /** The size of the frame a good header announces. */
  function AnnouncedSize(b: Bytes): (n: nat)
    requires HeaderGood(b)
    ensures HEADER_SIZE <= n <= MAX_FRAME
  {
    MaxFrameSize(DataLength(ReadHeader(b[..HEADER_SIZE])));
    CalcFrameSize(DataLength(ReadHeader(b[..HEADER_SIZE])))
  }

  lemma BodyFits(b: Bytes)
    requires HeaderGood(b) && AnnouncedSize(b) <= |b|
    ensures BodySize(DataLength(ReadHeader(b[..HEADER_SIZE]))) <= |b| - HEADER_SIZE
  {
    FrameSize(DataLength(ReadHeader(b[..HEADER_SIZE])));
  }

  predicate BodyGood(b: Bytes)
    requires HeaderGood(b) && AnnouncedSize(b) <= |b|
  {
    BodyFits(b);
    ValidateBodyCRC(b[HEADER_SIZE..], DataLength(ReadHeader(b[..HEADER_SIZE])))
  }

  function FrameAt(b: Bytes): seq<Frame>
    requires HeaderGood(b) && AnnouncedSize(b) <= |b|
  {
    var h := ReadHeader(b[..HEADER_SIZE]);
    BodyFits(b);
    var f := ToFrame(h, ReadUserData(b[HEADER_SIZE..], DataLength(h)));
    if f.Some? then [f.value] else []
  }

  /** The buffer starts at a sync position and more octets are needed to decide. */
  predicate Undecided(b: Bytes) {
    |b| < HEADER_SIZE || (HeaderGood(b) && |b| < AnnouncedSize(b))
  }

  /** Octets a decided buffer gives up: a whole good frame, or one octet of a bad one. */
  function Consumed(b: Bytes): nat
    requires !Undecided(b)
  {
    if HeaderGood(b) && BodyGood(b) then AnnouncedSize(b) else 1
  }

  function Recognized(b: Bytes): seq<Frame>
    requires !Undecided(b)
  {
    if HeaderGood(b) && BodyGood(b) then FrameAt(b) else []
  }

  function Scan(b: Bytes): Scanned
    decreases |b|
  {
    SyncOffsetBound(b);
    var s := b[SyncOffset(b)..];
    if Undecided(s) then Scanned([], s)
    else
      var next := Scan(s[Consumed(s)..]);
      Scanned(Recognized(s) + next.frames, next.rest)
  }

  lemma ScanNothing()
    ensures Scan([]) == Scanned([], [])
  {}

  // ---- Independence from chunking ----

  lemma {:induction false} SyncOffsetAppend(b: Bytes, x: Bytes)
    ensures SyncOffset(b) <= |b|
    ensures SyncOffset(b + x) == SyncOffset(b) + SyncOffset(b[SyncOffset(b)..] + x)
    decreases |b|
  {
    if b == [] {
      assert b[0..] + x == b + x;
    } else if b[0] == 0x05 && (|b| == 1 || b[1] == 0x64) {
      assert b[0..] == b;
    } else {
      SyncOffsetAppend(b[1..], x);
      assert (b + x)[1..] == b[1..] + x;
      assert b[1..][SyncOffset(b[1..])..] == b[SyncOffset(b)..];
      assert (b + x)[0] == b[0] && (|b| > 1 ==> (b + x)[1] == b[1]);
    }
  }

  /** More input does not change a decision already made. */
  lemma DecidedStays(s: Bytes, x: Bytes)
    requires !Undecided(s)
    ensures !Undecided(s + x) && Consumed(s + x) == Consumed(s) && Recognized(s + x) == Recognized(s)
    ensures Consumed(s) <= |s|
  {
    assert (s + x)[..HEADER_SIZE] == s[..HEADER_SIZE];
    if HeaderGood(s) {
      var n := DataLength(ReadHeader(s[..HEADER_SIZE]));
      BodyFits(s);
      BodyAppend(s[HEADER_SIZE..], n, x);
      assert (s + x)[HEADER_SIZE..] == s[HEADER_SIZE..] + x;
    }
  }

  lemma {:induction false} BodyAppend(raw: Bytes, length: nat, x: Bytes)
    requires BodySize(length) <= |raw|
    ensures ValidateBodyCRC(raw + x, length) == ValidateBodyCRC(raw, length)
    ensures ReadUserData(raw + x, length) == ReadUserData(raw, length)
    decreases length
  {
    hide Sealed;
    if length != 0 {
      var n := BlockLen(length);
      assert (raw + x)[..n + 2] == raw[..n + 2] && (raw + x)[n + 2..] == raw[n + 2..] + x;
      assert (raw + x)[..n] == raw[..n];
      BodyAppend(raw[n + 2..], length - n, x);
    }
  }

  lemma ScanStep(b: Bytes)
    ensures SyncOffset(b) <= |b| && Scan(b) == Scan(b[SyncOffset(b)..])
  {
    SyncOffsetBound(b);
    var s := b[SyncOffset(b)..];
    assert s[0..] == s;
  }

  lemma ScanAt(s: Bytes)
    requires SyncOffset(s) == 0
    ensures Undecided(s) ==> Scan(s) == Scanned([], s)
    ensures !Undecided(s) ==> 1 <= Consumed(s) <= |s|
    ensures !Undecided(s) ==>
              var next := Scan(s[Consumed(s)..]); Scan(s) == Scanned(Recognized(s) + next.frames, next.rest)
  {
    hide HeaderGood, BodyGood, FrameAt;
    assert s[0..] == s;
  }

  /** Scanning in two pieces is scanning at once. */
  lemma {:induction false} ScanAppend(b: Bytes, x: Bytes)
    ensures var first := Scan(b);
            var second := Scan(first.rest + x);
            Scan(b + x) == Scanned(first.frames + second.frames, second.rest)
    decreases |b|
  {
    hide Undecided, Consumed, Recognized, Scan, SyncOffset;
    SyncOffsetBound(b);
    SyncOffsetAppend(b, x);
    var s := b[SyncOffset(b)..];
    ScanStep(b);
    ScanStep(b + x);
    ScanStep(s + x);
    assert (b + x)[SyncOffset(b + x)..] == (s + x)[SyncOffset(s + x)..];
    ScanAt(s);
    if Undecided(s) {
      assert [] + Scan(s + x).frames == Scan(s + x).frames;
    } else {
      DecidedStays(s, x);
      SyncOffsetZero(s, x);
      ScanAt(s + x);
      var rest := s[Consumed(s)..];
      ScanAppend(rest, x);
      assert (s + x)[Consumed(s)..] == rest + x;
      var f, second := Scan(rest), Scan(Scan(rest).rest + x);
      assert Recognized(s) + (f.frames + second.frames) == Recognized(s) + f.frames + second.frames;
    }
  }

  lemma ConsumesSome(s: Bytes)
    requires !Undecided(s)
    ensures 1 <= Consumed(s) <= |s|
  {}

  lemma SyncOffsetZero(s: Bytes, x: Bytes)
    requires SyncOffset(s) == 0 && !Undecided(s)
    ensures SyncOffset(s + x) == 0 && (s + x)[0..] == s + x
  {
    assert |s| >= HEADER_SIZE;
    assert (s + x)[0] == s[0] && (s + x)[1] == s[1];
  }

  function ScanChunks(rest: Bytes, chunks: seq<Bytes>): Scanned
    decreases |chunks|
  {
    if chunks == [] then Scanned([], rest)
    else
      var first := Scan(rest + chunks[0]);
      var next := ScanChunks(first.rest, chunks[1..]);
      Scanned(first.frames + next.frames, next.rest)
  }

  lemma {:induction false} RestIsSettled(b: Bytes)
    ensures Scan(Scan(b).rest) == Scanned([], Scan(b).rest)
    decreases |b|
  {
    hide Undecided, Consumed, Recognized;
    SyncOffsetBound(b);
    var s := b[SyncOffset(b)..];
    if Undecided(s) {
      assert s[0..] == s;
    } else {
      ConsumesSome(s);
      RestIsSettled(s[Consumed(s)..]);
    }
  }

  /** However the stream is cut, the same frames come out and the same octets are kept. */
  lemma {:induction false} ChunkingIndependence(rest: Bytes, chunks: seq<Bytes>)
    requires Scan(rest) == Scanned([], rest)
    ensures ScanChunks(rest, chunks) == Scan(rest + Flatten(chunks))
    decreases |chunks|
  {
    hide Scan;
    if chunks == [] {
      assert rest + [] == rest;
    } else {
      var c, more := chunks[0], Flatten(chunks[1..]);
      ScanAppend(rest + c, more);
      RestIsSettled(rest + c);
      ChunkingIndependence(Scan(rest + c).rest, chunks[1..]);
      assert rest + (c + more) == rest + c + more;
    }
  }

  // ---- Frames survive the trip ----

  /** A formatted frame is recognized in place, whatever follows it. */
  lemma FormattedIsGood(f: Frame, x: Bytes)
    requires Formattable(f)
    ensures var b := Format(f) + x;
            && SyncOffset(b) == 0 && HeaderGood(b) && AnnouncedSize(b) == |Format(f)| <= |b|
            && BodyGood(b) && FrameAt(b) == [f]
  {
    hide WriteHeader, CheckHeader, ToFrame, ReadHeader, CalcFrameSize, SyncOffset;
    hide Format, WriteUserData, ReadUserData, ValidateBodyCRC, BodySize, FrameHeader, UserData;
    var h, d := FrameHeader(f), UserData(f);
    var b := Format(f) + x;
    FormattedParts(f, x);
    StartsFrame(b);
    FrameSize(|d|);
    UserDataRoundTrip(d, x);
    FrameBits(f);
  }

  lemma FormattedParts(f: Frame, x: Bytes)
    requires Formattable(f)
    ensures var b, h, d := Format(f) + x, FrameHeader(f), UserData(f);
            && |Format(f)| == HEADER_SIZE + |WriteUserData(d)|
            && b[0] == 0x05 && b[1] == 0x64
            && b[HEADER_SIZE..] == WriteUserData(d) + x
            && CheckHeader(b[..HEADER_SIZE]) == Good && ReadHeader(b[..HEADER_SIZE]) == h
            && (h.length as nat) == |d| + MIN_LENGTH
  {
    hide WriteHeader, CheckHeader, ReadHeader, WriteUserData;
    var h, d := FrameHeader(f), UserData(f);
    var head := WriteHeader(h);
    HeaderRoundTrip(h, []);
    assert head + [] == head;
    FormattedHeaderGood(f);
    var b := Format(f) + x;
    assert b == head + (WriteUserData(d) + x);
    assert b[..HEADER_SIZE] == head && b[HEADER_SIZE..] == WriteUserData(d) + x;
  }

  lemma StartsFrame(b: Bytes)
    requires |b| >= 2 && b[0] == 0x05 && b[1] == 0x64
    ensures SyncOffset(b) == 0
  {}

  lemma FrameScans(f: Frame, x: Bytes)
    requires Formattable(f)
    ensures Scan(Format(f) + x) == Scanned([f] + Scan(x).frames, Scan(x).rest)
  {
    hide HeaderGood, BodyGood, FrameAt, Scan, Format;
    var b := Format(f) + x;
    FormattedIsGood(f, x);
    ScanAt(b);
    assert b[|Format(f)|..] == x;
  }

  function FormatAll(fs: seq<Frame>): Bytes
    requires forall f <- fs :: Formattable(f)
  {
    if fs == [] then [] else
      assert fs[0] in fs;
      Format(fs[0]) + FormatAll(fs[1..])
  }

  lemma {:induction false} FramesScan(fs: seq<Frame>, x: Bytes)
    requires forall f <- fs :: Formattable(f)
    ensures Scan(FormatAll(fs) + x) == Scanned(fs + Scan(x).frames, Scan(x).rest)
    decreases |fs|
  {
    hide Format, Scan;
    if fs == [] {
      assert [] + x == x && fs + Scan(x).frames == Scan(x).frames;
    } else {
      assert fs[0] in fs;
      var rest := FormatAll(fs[1..]);
      assert FormatAll(fs) + x == Format(fs[0]) + (rest + x);
      FrameScans(fs[0], rest + x);
      FramesScan(fs[1..], x);
      assert [fs[0]] + (fs[1..] + Scan(x).frames) == fs + Scan(x).frames;
    }
  }

  // ---- Noise ----

  predicate Starts(b: Bytes) {
    b != [] && b[0] == 0x05 && (|b| == 1 || b[1] == 0x64)
  }

  /** No frame begins with the first octet, and none is waited for there. */
  predicate Barren(b: Bytes) {
    !Starts(b) || (!Undecided(b) && !(HeaderGood(b) && BodyGood(b)))
  }

  lemma BarrenSkipped(b: Bytes)
    requires b != [] && Barren(b)
    ensures Scan(b) == Scan(b[1..])
  {
    hide Scan, HeaderGood, BodyGood, FrameAt;
    if Starts(b) {
      ScanAt(b);
      assert [] + Scan(b[1..]).frames == Scan(b[1..]).frames;
    } else {
      ScanStep(b);
      ScanStep(b[1..]);
      assert b[SyncOffset(b)..] == b[1..][SyncOffset(b[1..])..];
    }
  }

  /** Noise in front of x: octets none of which begins a frame, starting octets and broken
      frames included. */
  ghost predicate Noise(noise: Bytes, x: Bytes) {
    forall i :: 0 <= i < |noise| ==> Barren(noise[i..] + x)
  }

  /** Noise is skipped, and costs nothing of what follows. */
  lemma {:induction false} NoiseSkipped(noise: Bytes, x: Bytes)
    requires Noise(noise, x)
    ensures Scan(noise + x) == Scan(x)
    decreases |noise|
  {
    hide Scan, Barren;
    if noise == [] {
      assert noise + x == x;
    } else {
      assert noise[0..] == noise;
      BarrenSkipped(noise + x);
      assert (noise + x)[1..] == noise[1..] + x;
      assert forall i :: 0 <= i < |noise[1..]| ==> noise[1..][i..] == noise[i + 1..];
      NoiseSkipped(noise[1..], x);
    }
  }

  /** In particular octets in which no 05 is followed by 64. */
  lemma QuietIsNoise(noise: Bytes, x: Bytes)
    requires x != [] && x[0] != 0x64
    requires forall i :: 0 <= i < |noise| - 1 && noise[i] == 0x05 ==> noise[i + 1] != 0x64
    ensures Noise(noise, x)
  {
    hide Undecided, HeaderGood, BodyGood;
    forall i | 0 <= i < |noise| ensures Barren(noise[i..] + x) {
      var b := noise[i..] + x;
      assert b[0] == noise[i] && b[1] == if i + 1 < |noise| then noise[i + 1] else x[0];
    }
  }

  /** Frames, each with the noise in front of it. */
  type Mixed = seq<(Bytes, Frame)>

  predicate AllFormattable(items: Mixed) {
    forall i :: 0 <= i < |items| ==> Formattable(items[i].1)
  }

  function Interleave(items: Mixed, tail: Bytes): Bytes
    requires AllFormattable(items)
  {
    if items == [] then tail else items[0].0 + (Format(items[0].1) + Interleave(items[1..], tail))
  }

  function Frames(items: Mixed): seq<Frame> {
    if items == [] then [] else [items[0].1] + Frames(items[1..])
  }

  ghost predicate AllNoise(items: Mixed, tail: Bytes)
    requires AllFormattable(items)
  {
    items == [] ||
    (Noise(items[0].0, Format(items[0].1) + Interleave(items[1..], tail)) && AllNoise(items[1..], tail))
  }

  /** Frames amid noise: exactly those frames, then whatever the rest of the stream holds. */
  lemma {:induction false} MixedScan(items: Mixed, tail: Bytes)
    requires AllFormattable(items) && AllNoise(items, tail)
    ensures Scan(Interleave(items, tail)) == Scanned(Frames(items) + Scan(tail).frames, Scan(tail).rest)
    decreases |items|
  {
    hide Scan, Format, Noise;
    if items == [] {
      assert [] + Scan(tail).frames == Scan(tail).frames;
    } else {
      var f, rest := items[0].1, Interleave(items[1..], tail);
      NoiseSkipped(items[0].0, Format(f) + rest);
      FrameScans(f, rest);
      MixedScan(items[1..], tail);
      assert [f] + (Frames(items[1..]) + Scan(tail).frames) == Frames(items) + Scan(tail).frames;
    }
  }

  /** Noise and frames, cut into any chunks: exactly those frames, and nothing kept. */
  lemma StreamDelivered(items: Mixed, chunks: seq<Bytes>)
    requires AllFormattable(items) && AllNoise(items, [])
    requires Flatten(chunks) == Interleave(items, [])
    ensures ScanChunks([], chunks) == Scanned(Frames(items), [])
  {
    hide Format, Noise;
    assert Scan([]) == Scanned([], []);
    ChunkingIndependence([], chunks);
    assert [] + Flatten(chunks) == Interleave(items, []);
    MixedScan(items, []);
    assert Frames(items) + [] == Frames(items);
  }

  // ---- Only frames come out ----

  /** A frame stands at the front: a header with its CRC that passes every check, and the
      blocks that its user data are written as. */
  ghost predicate Stands(f: Frame, b: Bytes) {
    && HeaderGood(b) && AnnouncedSize(b) <= |b| && b[..HEADER_SIZE] == Seal(b[..HEADER_SIZE - 2])
    && exists data ::
         && |data| == DataLength(ReadHeader(b[..HEADER_SIZE]))
         && b[HEADER_SIZE..AnnouncedSize(b)] == WriteUserData(data)
         && ToFrame(ReadHeader(b[..HEADER_SIZE]), data) == Some(f)
  }

  /** The frames stand in the stream one behind the other, in order and apart. */
  ghost predicate Placed(fs: seq<Frame>, b: Bytes)
    decreases |fs|
  {
    fs == [] || exists i :: 0 <= i <= |b| && Stands(fs[0], b[i..]) && Placed(fs[1..], b[i..][AnnouncedSize(b[i..])..])
  }

  lemma PlacedFurther(fs: seq<Frame>, b: Bytes, k: nat)
    requires k <= |b| && Placed(fs, b[k..])
    ensures Placed(fs, b)
  {
    hide HeaderGood, ToFrame, ReadHeader, WriteUserData;
    if fs != [] {
      var c := b[k..];
      var i :| 0 <= i <= |c| && Stands(fs[0], c[i..]) && Placed(fs[1..], c[i..][AnnouncedSize(c[i..])..]);
      assert c[i..] == b[k + i..];
    }
  }

  lemma {:induction false} BodyPrefix(raw: Bytes, length: nat)
    requires BodySize(length) <= |raw|
    ensures var body := raw[..BodySize(length)];
            && ReadUserData(raw, length) == ReadUserData(body, length)
            && ValidateBodyCRC(raw, length) == ValidateBodyCRC(body, length)
  {
    var body := raw[..BodySize(length)];
    BodyAppend(body, length, raw[BodySize(length)..]);
    assert body + raw[BodySize(length)..] == raw;
  }

  lemma RecognizedStands(b: Bytes)
    requires !Undecided(b) && HeaderGood(b) && BodyGood(b) && FrameAt(b) != []
    ensures |FrameAt(b)| == 1 && Stands(FrameAt(b)[0], b)
  {
    hide CheckHeader, ReadHeader, ToFrame, ReadUserData, ValidateBodyCRC, BodySize, WriteUserData, Sealed, Seal;
    var h := ReadHeader(b[..HEADER_SIZE]);
    var raw, n := b[HEADER_SIZE..], DataLength(h);
    BodyFits(b);
    FrameSize(n);
    BodyPrefix(raw, n);
    ValidBodyIsWritten(raw[..BodySize(n)], n);
    assert raw[..BodySize(n)] == b[HEADER_SIZE..AnnouncedSize(b)];
    GoodIsSealed(b[..HEADER_SIZE]);
    assert b[..HEADER_SIZE][..HEADER_SIZE - 2] == b[..HEADER_SIZE - 2];
  }

  lemma GoodIsSealed(raw: Bytes)
    requires |raw| == HEADER_SIZE && CheckHeader(raw) == Good
    ensures raw == Seal(raw[..HEADER_SIZE - 2])
  {
    hide Sealed, Seal, ReadHeader, CheckFunctionCode, CarriesData;
    SealedIffSeal(raw);
  }

  /** Soundness: every frame that comes out of a stream stands in it, intact, in order. */
  lemma {:induction false} ScanSound(b: Bytes)
    ensures Placed(Scan(b).frames, b)
    decreases |b|
  {
    hide HeaderGood, BodyGood, FrameAt, Stands, SyncOffset;
    SyncOffsetBound(b);
    var s := b[SyncOffset(b)..];
    if !Undecided(s) {
      var next := s[Consumed(s)..];
      ScanSound(next);
      if HeaderGood(s) && BodyGood(s) && FrameAt(s) != [] {
        RecognizedStands(s);
        var fs := Scan(b).frames;
        assert fs[0] == FrameAt(s)[0] && fs[1..] == Scan(next).frames;
      } else {
        NothingRecognized(s);
        assert [] + Scan(next).frames == Scan(next).frames;
        PlacedFurther(Scan(next).frames, s, Consumed(s));
        PlacedFurther(Scan(next).frames, b, SyncOffset(b));
      }
    }
  }

  lemma NothingRecognized(s: Bytes)
    requires !Undecided(s) && !(HeaderGood(s) && BodyGood(s) && FrameAt(s) != [])
    ensures Recognized(s) == []
  {
    hide HeaderGood, BodyGood, FrameAt;
  }

  /** A frame damaged by one burst of up to sixteen bits is not taken for a frame: its header
      fails, or its body does. */
  lemma DamagedFrameRefused(f: Frame, bad: Bytes, x: Bytes)
    requires Formattable(f) && Damaged(Format(f), bad)
    ensures HeaderGood(bad + x) ==> AnnouncedSize(bad + x) == |Format(f)| == |bad| && !BodyGood(bad + x)
  {
    hide CheckHeader, ReadHeader, ValidateBodyCRC, BodySize, WriteHeader;
    hide FrameHeader, UserData, CalcFrameSize, Format, Damaged;
    FrameBurstDetected(f, bad);
    var b, n := bad + x, |UserData(f)|;
    assert b[..HEADER_SIZE] == bad[..HEADER_SIZE];
    if HeaderGood(b) {
      FormattedHeaderGood(f);
      FrameSize(n);
      BodyAppend(bad[HEADER_SIZE..], n, x);
      assert bad[HEADER_SIZE..] + x == b[HEADER_SIZE..];
    }
  }

  /** So it is noise in front of whatever follows, unless a frame begins inside it or is
      waited for there. */
  lemma DamagedIsNoise(f: Frame, bad: Bytes, x: Bytes)
    requires Formattable(f) && Damaged(Format(f), bad)
    ensures Noise(bad, x) <==> forall i :: 1 <= i < |bad| ==> Barren(bad[i..] + x)
  {
    hide HeaderGood, BodyGood, Format, Damaged, Starts;
    DamagedFrameRefused(f, bad, x);
    DamagedLength(f, bad);
    assert Barren(bad + x);
    assert bad[0..] == bad;
  }

  lemma DamagedLength(f: Frame, bad: Bytes)
    requires Formattable(f) && Damaged(Format(f), bad)
    ensures HEADER_SIZE <= |bad| == |Format(f)|
  {
    hide CheckHeader, ValidateBodyCRC, Format, Damaged;
    FrameBurstDetected(f, bad);
  }

  /** In particular when it holds no 05 64 from its second octet on. */
  lemma QuietDamageIsNoise(f: Frame, bad: Bytes, x: Bytes)
    requires Formattable(f) && Damaged(Format(f), bad)
    requires x != [] && x[0] != 0x64
    requires forall i :: 1 <= i < |bad| - 1 && bad[i] == 0x05 ==> bad[i + 1] != 0x64
    ensures Noise(bad, x)
  {
    hide Barren, Format, Damaged;
    DamagedIsNoise(f, bad, x);
    DamagedLength(f, bad);
    QuietIsNoise(bad[1..], x);
    forall i | 1 <= i < |bad| ensures Barren(bad[i..] + x) {
      assert bad[1..][i - 1..] == bad[i..];
    }
  }

  /** A damaged frame in which no frame begins or is waited for costs only itself: however the stream is cut,
      the frames before it and behind it come out, and nothing is kept. */
  lemma DamageCostsItself(before: Mixed, f: Frame, bad: Bytes, after: Mixed, chunks: seq<Bytes>)
    requires AllFormattable(before) && AllFormattable(after) && AllNoise(after, [])
    requires Formattable(f) && Damaged(Format(f), bad)
    requires var rest := Interleave(after, []);
             && (forall i :: 1 <= i < |bad| ==> Barren(bad[i..] + rest))
             && AllNoise(before, bad + rest) && Flatten(chunks) == Interleave(before, bad + rest)
    ensures ScanChunks([], chunks) == Scanned(Frames(before) + Frames(after), [])
  {
    hide Scan, Barren, Format, Damaged, Noise, Interleave, AllNoise, Frames;
    var rest := Interleave(after, []);
    ScanNothing();
    ChunkingIndependence([], chunks);
    assert [] + Flatten(chunks) == Interleave(before, bad + rest);
    MixedScan(before, bad + rest);
    DamagedIsNoise(f, bad, rest);
    NoiseSkipped(bad, rest);
    MixedScan(after, []);
    assert Frames(after) + [] == Frames(after);
  }

  // ---- What stays in the buffer ----

  /** The octets unread once nothing more can be decided. A single octet stays, whatever it is,
      since the receiver looks for a pattern of two. */
  function Leftover(b: Bytes): Bytes
    decreases |b|
  {
    if |b| < 2 then b
    else
      SyncOffsetBound(b);
      var s := b[SyncOffset(b)..];
      if Undecided(s) then s else Leftover(s[Consumed(s)..])
  }

  lemma LeftoverStep(b: Bytes)
    requires |b| >= 2
    ensures SyncOffset(b) <= |b| && Leftover(b) == Leftover(b[SyncOffset(b)..])
  {
    hide HeaderGood, BodyGood, SyncOffset;
    SyncOffsetBound(b);
    var s := b[SyncOffset(b)..];
    assert s[0..] == s;
  }

  lemma LeftoverAt(s: Bytes)
    requires SyncOffset(s) == 0
    ensures Undecided(s) ==> Leftover(s) == s
    ensures !Undecided(s) ==> 1 <= Consumed(s) <= |s| && Leftover(s) == Leftover(s[Consumed(s)..])
  {
    hide HeaderGood, BodyGood;
    assert s[0..] == s;
  }

  lemma FewStay(b: Bytes)
    requires |b| < 2
    ensures Leftover(b) == b
  {
  }

  /** Less than a frame stays, so that there is always room for one. */
  lemma {:induction false} LeftoverBound(b: Bytes)
    ensures |Leftover(b)| < MAX_FRAME && Leftover(Leftover(b)) == Leftover(b)
    decreases |b|
  {
    hide HeaderGood, BodyGood, SyncOffset;
    if |b| >= 2 {
      SyncOffsetBound(b);
      var s := b[SyncOffset(b)..];
      LeftoverStep(b);
      LeftoverAt(s);
      if !Undecided(s) { LeftoverBound(s[Consumed(s)..]); }
    }
  }

  /** Each read brings at most as many octets as the buffer has room for at that moment. */
  predicate Admissible(unread: Bytes, chunks: seq<Bytes>)
    decreases |chunks|
  {
    chunks == [] ||
    (|unread| + |chunks[0]| <= BUFFER_SIZE && Admissible(Leftover(unread + chunks[0]), chunks[1..]))
  }

  /** Pieces that leave room for one frame are always admissible. */
  lemma {:induction false} SmallPiecesFit(unread: Bytes, chunks: seq<Bytes>)
    requires |unread| < MAX_FRAME && forall i :: 0 <= i < |chunks| ==> |chunks[i]| <= BUFFER_SIZE - MAX_FRAME
    ensures Admissible(unread, chunks)
    decreases |chunks|
  {
    hide Leftover;
    if chunks != [] {
      LeftoverBound(unread + chunks[0]);
      assert forall i :: 0 <= i < |chunks[1..]| ==> chunks[1..][i] == chunks[i + 1];
      SmallPiecesFit(Leftover(unread + chunks[0]), chunks[1..]);
    }
  }

  // ---- The code ----

  /** Octets between a read position and a write position, moved to the front on demand. */
  class ShiftableBuffer {
    const data: array<Byte>
    var readPos: nat
    var writePos: nat

    ghost predicate Valid()
      reads this
    {
      readPos <= writePos <= data.Length
    }

    function Unread(): Bytes
      reads this, data
      requires Valid()
    {
      data[readPos..writePos]
    }

    constructor (size: nat)
      ensures Valid() && fresh(data) && data.Length == size && readPos == writePos == 0
    {
      data := new Byte[size];
      readPos, writePos := 0, 0;
    }

    method AdvanceRead(n: nat)
      requires Valid() && n <= |Unread()|
      modifies this`readPos
      ensures Valid() && Unread() == old(Unread())[n..]
    {
      readPos := readPos + n;
    }

    /** The layer below has put a chunk at the write position. */
    method AdvanceWrite(chunk: Bytes)
      requires Valid() && |chunk| <= data.Length - writePos
      modifies this`writePos, data
      ensures Valid() && readPos == old(readPos) && Unread() == old(Unread()) + chunk
    {
      ghost var before := Unread();
      forall i | 0 <= i < |chunk| { data[writePos + i] := chunk[i]; }
      assert data[readPos..writePos] == before;
      writePos := writePos + |chunk|;
      assert Unread() == data[readPos..old(writePos)] + data[old(writePos)..writePos];
      assert data[old(writePos)..writePos] == chunk;
    }

    method Shift()
      requires Valid()
      modifies this, data
      ensures Valid() && Unread() == old(Unread()) && readPos == 0
    {
      var n := writePos - readPos;
      ghost var before := Unread();
      forall i | 0 <= i < n { data[i] := data[readPos + i]; }
      writePos := n;
      readPos := 0;
      assert data[..n] == before;
    }

    /** SyncSubsequence for the pattern 05 64: a partial match at the end is kept. */
    method SyncSubsequence(offset: nat) returns (r: nat)
      requires Valid() && offset <= |Unread()|
      ensures r == offset + SyncOffset(Unread()[offset..])
      decreases |Unread()| - offset
    {
      ghost var tail := Unread()[offset..];
      var pattern := [0x05 as Byte, 0x64 as Byte];
      var readBytes := writePos - readPos - offset;
      var n := if 2 > readBytes then readBytes else 2;
      for i := 0 to n
        invariant forall k :: 0 <= k < i ==> tail[k] == pattern[k]
      {
        assert tail[i] == data[readPos + offset + i];
        if pattern[i] != data[readPos + offset + i] {
          assert tail[1..] == Unread()[offset + 1..];
          r := SyncSubsequence(offset + 1);
          return;
        }
      }
      r := offset;
    }

    /** Skips to the next sync position; true when a whole pattern is there. */
    method Sync() returns (found: bool)
      requires Valid()
      modifies this`readPos
      ensures Valid() && SyncOffset(old(Unread())) <= |old(Unread())|
      ensures Unread() == old(Unread())[SyncOffset(old(Unread()))..]
      ensures found <==> |Unread()| >= 2
    {
      SyncOffsetBound(Unread());
      assert Unread()[0..] == Unread();
      var offset := SyncSubsequence(0);
      found := (writePos - readPos) - offset >= 2;
      if offset > 0 { AdvanceRead(offset); }
    }
  }

  datatype Phase = Syncing | InHeader | InBody

  const BUFFER_SIZE: nat := (4096 / 249 + 1) * 292

  class LinkLayerReceiver {
    const buffer: ShiftableBuffer
    var phase: Phase
    var header: Header
    var frameSize: nat
    /** The calls made on the frame sink, in order. */
    var frames: seq<Frame>

    ghost predicate Valid()
      reads this, buffer, buffer.data
    {
      && buffer.Valid() && buffer.data.Length == BUFFER_SIZE
      && var b := buffer.Unread();
         && (!phase.Syncing? ==> |b| >= 2 && b[0] == 0x05 && b[1] == 0x64)
         && (phase.InBody? ==> HeaderGood(b) && header == ReadHeader(b[..HEADER_SIZE]) && frameSize == AnnouncedSize(b))
    }

    constructor ()
      ensures Valid() && fresh(buffer) && fresh(buffer.data)
      ensures buffer.Unread() == [] && buffer.readPos == 0 && frames == []
    {
      buffer := new ShiftableBuffer(BUFFER_SIZE);
      phase, frameSize, frames := Syncing, 0, [];
      header := Header(0, 0, 0, 0);
    }

    /** All frames that are out or will come out of what is buffered. */
    ghost function Outlook(): Scanned
      reads this, buffer, buffer.data
      requires Valid()
    {
      var s := Scan(buffer.Unread());
      Scanned(frames + s.frames, s.rest)
    }

    /** One step of the state machine; false when more octets are needed. */
    method Parse() returns (again: bool)
      requires Valid()
      modifies this, buffer`readPos
      ensures Valid() && Outlook() == old(Outlook()) && Leftover(buffer.Unread()) == old(Leftover(buffer.Unread()))
      ensures again ==> Measure() < old(Measure())
      ensures !again ==> buffer.readPos == old(buffer.readPos) && frames == old(frames)
      ensures !again ==> Scan(buffer.Unread()).frames == [] && Leftover(buffer.Unread()) == buffer.Unread()
    {
      match phase
      case Syncing => again := ParseSync();
      case InHeader => again := ParseHeader();
      case InBody => again := ParseBody();
    }

    ghost function Measure(): nat
      reads this, buffer, buffer.data
      requires Valid()
    {
      3 * |buffer.Unread()| + (match phase case Syncing => 2 case InHeader => 1 case InBody => 0)
    }

    method ParseSync() returns (again: bool)
      requires Valid() && phase.Syncing?
      modifies this`phase, buffer`readPos
      ensures Valid() && Outlook() == old(Outlook()) && Leftover(buffer.Unread()) == old(Leftover(buffer.Unread()))
      ensures again ==> Measure() < old(Measure())
      ensures !again ==> buffer.readPos == old(buffer.readPos) && phase == old(phase)
      ensures !again ==> Scan(buffer.Unread()).frames == [] && Leftover(buffer.Unread()) == buffer.Unread()
    {
      hide Scan, HeaderGood, SyncOffset, Leftover;
      ghost var b := buffer.Unread();
      ScanStep(b);
      SyncOffsetBound(b);
      ScanAt(b[SyncOffset(b)..]);
      if |buffer.Unread()| < 2 {
        FewStay(b);
        return false;
      }
      LeftoverStep(b);
      var found := buffer.Sync();
      if found { phase := InHeader; }
      return true;
    }

    method ParseHeader() returns (again: bool)
      requires Valid() && phase.InHeader?
      modifies this`phase, this`header, this`frameSize, buffer`readPos
      ensures Valid() && Outlook() == old(Outlook()) && Leftover(buffer.Unread()) == old(Leftover(buffer.Unread()))
      ensures again ==> Measure() < old(Measure())
      ensures !again ==> buffer.readPos == old(buffer.readPos) && phase == old(phase)
      ensures !again ==> Scan(buffer.Unread()).frames == [] && Leftover(buffer.Unread()) == buffer.Unread()
    {
      hide Scan, SyncOffset, ReadHeader, CheckHeader, Leftover;
      ghost var b := buffer.Unread();
      StartsFrame(b);
      ScanAt(b);
      LeftoverAt(b);
      if |buffer.Unread()| < HEADER_SIZE { return false; }
      var raw := buffer.Unread()[..HEADER_SIZE];
      header := ReadHeader(raw);
      if CheckHeader(raw) == Good {
        frameSize := CalcFrameSize(DataLength(header));
        phase := InBody;
      } else {
        buffer.AdvanceRead(1);
        phase := Syncing;
        assert [] + Scan(b[1..]).frames == Scan(b[1..]).frames;
      }
      return true;
    }

    method ParseBody() returns (again: bool)
      requires Valid() && phase.InBody?
      modifies this`phase, this`frames, buffer`readPos
      ensures Valid() && Outlook() == old(Outlook()) && Leftover(buffer.Unread()) == old(Leftover(buffer.Unread()))
      ensures again ==> Measure() < old(Measure())
      ensures !again ==> buffer.readPos == old(buffer.readPos) && phase == old(phase) && frames == old(frames)
      ensures !again ==> Scan(buffer.Unread()).frames == [] && Leftover(buffer.Unread()) == buffer.Unread()
    {
      hide Scan, SyncOffset, ReadHeader, CheckHeader, ToFrame, ReadUserData, ValidateBodyCRC, Leftover;
      ghost var b := buffer.Unread();
      StartsFrame(b);
      ScanAt(b);
      LeftoverAt(b);
      if |buffer.Unread()| < frameSize { return false; }
      BodyFits(b);
      var body, n := buffer.Unread()[HEADER_SIZE..], DataLength(header);
      if ValidateBodyCRC(body, n) {
        var f := ToFrame(header, ReadUserData(body, n));
        if f.Some? { frames := frames + [f.value]; }
        buffer.AdvanceRead(frameSize);
      } else {
        buffer.AdvanceRead(1);
      }
      phase := Syncing;
      assert old(frames) + (Recognized(b) + Scan(b[Consumed(b)..]).frames) == frames + Scan(b[Consumed(b)..]).frames;
      return true;
    }

    /** Takes in what the layer below has written behind the unread octets: any number of
        them for which there was room. */
    method OnRead(chunk: Bytes)
      requires Valid() && |chunk| <= BUFFER_SIZE - buffer.writePos
      modifies this, buffer, buffer.data
      ensures Valid()
      ensures var b := old(buffer.Unread()) + chunk;
              && frames == old(frames) + Scan(b).frames && Scan(buffer.Unread()) == Scanned([], Scan(b).rest)
              && buffer.Unread() == Leftover(b) && buffer.readPos == 0
      ensures BUFFER_SIZE - buffer.writePos > BUFFER_SIZE - MAX_FRAME
    {
      hide Scan, HeaderGood, Leftover;
      ghost var b := buffer.Unread() + chunk;
      ghost var out, goal := frames, Scan(b);
      Absorb(chunk);
      LeftoverBound(b);
      var again := true;
      while again
        invariant Valid() && Outlook() == Scanned(out + goal.frames, goal.rest)
        invariant Leftover(buffer.Unread()) == Leftover(b)
        invariant !again ==> Scan(buffer.Unread()).frames == [] && buffer.Unread() == Leftover(b)
        decreases again, if again then Measure() else 0
      {
        again := Parse();
      }
      buffer.Shift();
    }

    method Absorb(chunk: Bytes)
      requires Valid() && |chunk| <= BUFFER_SIZE - buffer.writePos
      modifies buffer, buffer.data
      ensures Valid() && buffer.Unread() == old(buffer.Unread()) + chunk
    {
      hide CheckHeader, ReadHeader;
      ghost var b := buffer.Unread();
      buffer.AdvanceWrite(chunk);
      assert |b| >= HEADER_SIZE ==> (b + chunk)[..HEADER_SIZE] == b[..HEADER_SIZE];
    }
  }

  /** A whole stream in whatever pieces the layer below delivers it, each up to all the room
      there is: the receiver sees the stream as if uncut. */
  method ReceiveStream(rx: LinkLayerReceiver, chunks: seq<Bytes>)
    requires rx.Valid() && rx.buffer.Unread() == [] && rx.buffer.readPos == 0
    requires Admissible([], chunks)
    modifies rx, rx.buffer, rx.buffer.data
    ensures rx.Valid()
    ensures rx.frames == old(rx.frames) + Scan(Flatten(chunks)).frames
  {
    hide Scan, Leftover;
    ghost var goal := rx.frames + Scan(Flatten(chunks)).frames;
    ScanNothing();
    assert chunks[0..] == chunks && [] + Flatten(chunks) == Flatten(chunks);
    for i := 0 to |chunks|
      invariant rx.Valid() && rx.buffer.readPos == 0 && Admissible(rx.buffer.Unread(), chunks[i..])
      invariant rx.frames + Scan(rx.buffer.Unread() + Flatten(chunks[i..])).frames == goal
      invariant Scan(rx.buffer.Unread()).frames == []
    {
      ghost var b := rx.buffer.Unread();
      assert chunks[i..][0] == chunks[i] && chunks[i..][1..] == chunks[i + 1..];
      rx.OnRead(chunks[i]);
      ScanPiece(b, chunks, i, rx.buffer.Unread());
    }
    assert chunks[|chunks|..] == [];
    assert rx.buffer.Unread() + [] == rx.buffer.Unread();
  }

  lemma FlattenFrom(chunks: seq<Bytes>, i: nat)
    requires i < |chunks|
    ensures Flatten(chunks[i..]) == chunks[i] + Flatten(chunks[i + 1..])
  {
    assert chunks[i..][1..] == chunks[i + 1..];
  }

  /** One piece further, with b unread before it and c after it. */
  lemma ScanPiece(b: Bytes, chunks: seq<Bytes>, i: nat, c: Bytes)
    requires i < |chunks| && Scan(c) == Scanned([], Scan(b + chunks[i]).rest)
    ensures Scan(b + Flatten(chunks[i..])).frames
            == Scan(b + chunks[i]).frames + Scan(c + Flatten(chunks[i + 1..])).frames
  {
    hide Scan, Flatten;
    var more := Flatten(chunks[i + 1..]);
    FlattenFrom(chunks, i);
    assert b + (chunks[i] + more) == b + chunks[i] + more;
    ScanAppend(b + chunks[i], more);
    ScanAppend(c, more);
  }

  /** Sender to receiver: any frames, any noise before each of them, any cutting. */
  method Roundtrip(items: Mixed, chunks: seq<Bytes>) returns (received: seq<Frame>)
    requires AllFormattable(items) && AllNoise(items, [])
    requires Flatten(chunks) == Interleave(items, []) && Admissible([], chunks)
    ensures received == Frames(items)
  {
    hide Scan, Format, Noise, Admissible;
    var rx := new LinkLayerReceiver();
    ReceiveStream(rx, chunks);
    MixedScan(items, []);
    ScanNothing();
    assert Frames(items) + [] == Frames(items);
    received := rx.frames;
  }
}
