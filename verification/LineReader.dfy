/** The terminal's line reader: CRLF framing of a byte stream in a fixed buffer.

    `Feed` is the reference: an automaton that looks at one octet at a time.
    `LineReader` is the code: it is handed whatever a read delivered, scans the
    buffer for a CRLF, moves the rest to the front and recurses. */
module LineFraming {
  import opened Octets

  // ---- The byte-at-a-time automaton ----

  /** What leaves the framer: an accepted line, or a full buffer thrown away. */
  datatype Output = Line(text: Bytes) | Overflow(dropped: Bytes)

  datatype Framer = Framer(held: Bytes, log: seq<Output>)

  predicate EndsLine(b: Bytes) {
    |b| >= 2 && b[|b| - 2] == CR && b[|b| - 1] == LF
  }

  predicate IsLineEnd(b: Bytes, i: int) {
    0 <= i < |b| - 1 && b[i] == CR && b[i + 1] == LF
  }

  ghost predicate HasLine(b: Bytes) {
    exists i :: IsLineEnd(b, i)
  }

  function Step(size: nat, f: Framer, c: Byte): Framer {
    var b := f.held + [c];
    if EndsLine(b) then Framer([], f.log + [Line(b[..|b| - 2])])
    else if |b| == size then Framer([], f.log + [Overflow(b)])
    else Framer(b, f.log)
  }

  function Feed(size: nat, f: Framer, input: Bytes): Framer
    decreases |input|
  {
    if input == [] then f else Feed(size, Step(size, f, input[0]), input[1..])
  }

  /** The texts handed to AcceptLine, in order. */
  function Lines(log: seq<Output>): seq<Bytes> {
    if log == [] then [] else Texts(log[0]) + Lines(log[1..])
  }

  function Texts(o: Output): seq<Bytes> {
    if o.Line? then [o.text] else []
  }

  /** The octets an output stands for in the input stream. */
  function Spell(o: Output): Bytes {
    match o
    case Line(t) => t + [CR, LF]
    case Overflow(d) => d
  }

  function Encode(log: seq<Output>): Bytes {
    if log == [] then [] else Spell(log[0]) + Encode(log[1..])
  }

  /** A framer between two octets: an unfinished line with room for one more octet. */
  ghost predicate Resting(size: nat, f: Framer) {
    |f.held| < size && !HasLine(f.held)
  }

  lemma {:induction false} LinesSnoc(log: seq<Output>, o: Output)
    ensures Lines(log + [o]) == Lines(log) + Texts(o)
    decreases |log|
  {
    hide Texts;
    if log == [] {
      assert log + [o] == [o] && [o][1..] == [];
      assert Lines([o]) == Texts(o) + [] && [] + Texts(o) == Texts(o);
    } else {
      assert (log + [o])[1..] == log[1..] + [o];
      LinesSnoc(log[1..], o);
      assert Texts(log[0]) + (Lines(log[1..]) + Texts(o)) == Texts(log[0]) + Lines(log[1..]) + Texts(o);
    }
  }

  lemma {:induction false} EncodeSnoc(log: seq<Output>, o: Output)
    ensures Encode(log + [o]) == Encode(log) + Spell(o)
  {
    if log == [] {
      assert log + [o] == [o] && [o][1..] == [];
    } else {
      assert (log + [o])[1..] == log[1..] + [o];
      EncodeSnoc(log[1..], o);
    }
  }

  lemma {:induction false} FeedAppend(size: nat, f: Framer, a: Bytes, b: Bytes)
    ensures Feed(size, f, a + b) == Feed(size, Feed(size, f, a), b)
    decreases |a|
  {
    if a == [] {
      assert a + b == b;
    } else {
      assert (a + b)[1..] == a[1..] + b;
      FeedAppend(size, Step(size, f, a[0]), a[1..], b);
    }
  }

  /** Nothing is lost, duplicated or reordered: the log, spelled out, followed by
      what is held, is the input; accepted lines hold no CRLF, and only a full
      buffer without a CRLF is ever dropped. */
  lemma {:induction false} FeedConserves(size: nat, f: Framer, input: Bytes)
    requires Resting(size, f)
    requires forall o <- f.log :: WellFramed(size, o)
    ensures var g := Feed(size, f, input);
            && Resting(size, g)
            && Encode(g.log) + g.held == Encode(f.log) + f.held + input
            && (forall o <- g.log :: WellFramed(size, o))
    decreases |input|
  {
    if input != [] {
      var c := [input[0]];
      StepConserves(size, f, input[0]);
      FeedConserves(size, Step(size, f, input[0]), input[1..]);
      assert c + input[1..] == input;
      assert Encode(f.log) + f.held + c + input[1..] == Encode(f.log) + f.held + (c + input[1..]);
    }
  }

  lemma StepConserves(size: nat, f: Framer, c: Byte)
    requires Resting(size, f)
    requires forall o <- f.log :: WellFramed(size, o)
    ensures var g := Step(size, f, c);
            && Resting(size, g)
            && Encode(g.log) + g.held == Encode(f.log) + f.held + [c]
            && (forall o <- g.log :: WellFramed(size, o))
  {
    var b := f.held + [c];
    assert forall i :: IsLineEnd(b, i) && i < |b| - 2 ==> IsLineEnd(f.held, i);
    if EndsLine(b) {
      var t := b[..|b| - 2];
      assert forall i :: IsLineEnd(t, i) ==> IsLineEnd(f.held, i);
      assert Spell(Line(t)) == b;
      EncodeSnoc(f.log, Line(t));
    } else {
      assert forall i :: IsLineEnd(b, i) ==> EndsLine(b);
      if |b| == size { EncodeSnoc(f.log, Overflow(b)); }
    }
  }

  ghost predicate WellFramed(size: nat, o: Output) {
    match o
    case Line(t) => |t| + 2 <= size && !HasLine(t)
    case Overflow(d) => |d| == size && !HasLine(d)
  }

  // ---- What one receive callback computes ----

  /** The scan loop: the first CRLF at or after pos, or |b|. */
  function FindLine(b: Bytes, pos: nat): (p: nat)
    requires pos <= |b|
    ensures p == |b| || (pos <= p && IsLineEnd(b, p))
    ensures forall i :: pos <= i < p ==> !IsLineEnd(b, i)
    decreases |b| - pos
  {
    if pos + 1 >= |b| then |b|
    else if b[pos] == CR && b[pos + 1] == LF then pos
    else FindLine(b, pos + 1)
  }

  function ReadBufferSpec(f: Framer): Framer
    decreases |f.held|
  {
    var p := FindLine(f.held, 0);
    if p == |f.held| then f
    else ReadBufferSpec(Framer(f.held[p + 2..], f.log + [Line(f.held[..p])]))
  }

  function DiscardFull(size: nat, f: Framer): Framer {
    if |f.held| == size then Framer([], f.log + [Overflow(f.held)]) else f
  }

  function ReceiveSpec(size: nat, f: Framer, chunk: Bytes): Framer {
    DiscardFull(size, ReadBufferSpec(Framer(f.held + chunk, f.log)))
  }

  /** A chunk that completes no line is either held or, when it fills the buffer, dropped. */
  lemma {:induction false} FeedWithoutLine(size: nat, f: Framer, chunk: Bytes)
    requires |f.held| < size && |f.held + chunk| <= size
    requires !HasLine(f.held + chunk)
    ensures Feed(size, f, chunk) == DiscardFull(size, Framer(f.held + chunk, f.log))
    decreases |chunk|
  {
    if chunk == [] {
      assert f.held + chunk == f.held;
    } else {
      var b := f.held + [chunk[0]];
      assert b + chunk[1..] == f.held + chunk;
      assert EndsLine(b) ==> IsLineEnd(f.held + chunk, |b| - 2);
      if |b| == size {
        assert chunk[1..] == [] && b == f.held + chunk;
      } else {
        FeedWithoutLine(size, Framer(b, f.log), chunk[1..]);
      }
    }
  }

  /** A chunk that ends with the first CRLF yields exactly that line. */
  lemma {:induction false} FeedOneLine(size: nat, f: Framer, chunk: Bytes)
    requires |f.held| < size && |f.held + chunk| <= size && chunk != []
    requires var b := f.held + chunk; FindLine(b, 0) == |b| - 2 && EndsLine(b)
    ensures var b := f.held + chunk;
            Feed(size, f, chunk) == Framer([], f.log + [Line(b[..|b| - 2])])
    decreases |chunk|
  {
    var b := f.held + chunk;
    var c := f.held + [chunk[0]];
    assert c + chunk[1..] == b;
    if |chunk| == 1 {
      assert c == b;
    } else {
      assert EndsLine(c) ==> IsLineEnd(b, |c| - 2);
      FeedOneLine(size, Framer(c, f.log), chunk[1..]);
    }
  }

  /** Refinement: one receive callback does what the automaton does octet by octet. */
  lemma {:induction false} ReceiveRefinesFeed(size: nat, f: Framer, chunk: Bytes)
    requires Resting(size, f) && |f.held + chunk| <= size
    ensures ReceiveSpec(size, f, chunk) == Feed(size, f, chunk)
    ensures Resting(size, ReceiveSpec(size, f, chunk))
    decreases |chunk|
  {
    var b := f.held + chunk;
    var p := FindLine(b, 0);
    if p == |b| {
      assert !HasLine(b);
      FeedWithoutLine(size, f, chunk);
    } else {
      hide Feed, FindLine;
      var k := FirstLineOfChunk(size, f, chunk);
      var g := Framer([], f.log + [Line(b[..p])]);
      FeedAppend(size, f, chunk[..k], chunk[k..]);
      assert chunk[..k] + chunk[k..] == chunk;
      ReceiveRefinesFeed(size, g, chunk[k..]);
      assert b[p + 2..] == g.held + chunk[k..];
    }
  }

  /** The part of the chunk up to the first CRLF, fed octet by octet, yields that line. */
  lemma FirstLineOfChunk(size: nat, f: Framer, chunk: Bytes) returns (k: nat)
    requires Resting(size, f) && |f.held + chunk| <= size
    requires FindLine(f.held + chunk, 0) < |f.held + chunk|
    ensures var b := f.held + chunk; var p := FindLine(b, 0);
            && 0 < k <= |chunk| && b[p + 2..] == chunk[k..]
            && Feed(size, f, chunk[..k]) == Framer([], f.log + [Line(b[..p])])
  {
    var b := f.held + chunk;
    var p := FindLine(b, 0);
    assert p + 2 <= |f.held| ==> IsLineEnd(f.held, p);
    k := p + 2 - |f.held|;
    assert b[..p + 2] == f.held + chunk[..k] && b[p + 2..] == chunk[k..];
    FindLinePrefix(b, p, 0);
    FeedOneLine(size, f, chunk[..k]);
    assert b[..p + 2][..p] == b[..p];
  }

  lemma {:induction false} FindLinePrefix(b: Bytes, p: nat, pos: nat)
    requires pos <= p && IsLineEnd(b, p) && FindLine(b, pos) == p
    ensures FindLine(b[..p + 2], pos) == p
    decreases p - pos
  {
    if pos < p { FindLinePrefix(b, p, pos + 1); }
  }

  // ---- Independence from chunking ----

  /** Each read delivers between one octet and the free space. */
  predicate Admissible(size: nat, f: Framer, chunks: seq<Bytes>)
    decreases |chunks|
  {
    chunks == [] ||
    (&& 1 <= |chunks[0]| && |f.held| + |chunks[0]| <= size
     && Admissible(size, ReceiveSpec(size, f, chunks[0]), chunks[1..]))
  }

  function Run(size: nat, f: Framer, chunks: seq<Bytes>): Framer
    decreases |chunks|
  {
    if chunks == [] then f else Run(size, ReceiveSpec(size, f, chunks[0]), chunks[1..])
  }

  lemma {:induction false} RunIsFeed(size: nat, f: Framer, chunks: seq<Bytes>)
    requires Resting(size, f) && Admissible(size, f, chunks)
    ensures Run(size, f, chunks) == Feed(size, f, Flatten(chunks))
    ensures Resting(size, Run(size, f, chunks))
    decreases |chunks|
  {
    if chunks != [] {
      ReceiveRefinesFeed(size, f, chunks[0]);
      RunIsFeed(size, ReceiveSpec(size, f, chunks[0]), chunks[1..]);
      FeedAppend(size, f, chunks[0], Flatten(chunks[1..]));
    }
  }

  /** Two ways of cutting the same stream accept the same lines and hold the same rest. */
  lemma ChunkingIndependence(size: nat, f: Framer, a: seq<Bytes>, b: seq<Bytes>)
    requires Resting(size, f)
    requires Admissible(size, f, a) && Admissible(size, f, b)
    requires Flatten(a) == Flatten(b)
    ensures Run(size, f, a) == Run(size, f, b)
  {
    RunIsFeed(size, f, a);
    RunIsFeed(size, f, b);
  }

  // ---- Lines typed at a console ----

  const LINE_END: Bytes := [CR, LF]

  /** What is left of s once every full buffer has been dropped. */
  function Kept(size: nat, s: Bytes): Bytes
    requires size > 0
    decreases |s|
  {
    if |s| < size then s else Kept(size, s[size..])
  }

  lemma {:induction false} KeptSuffix(size: nat, s: Bytes)
    requires size > 0
    ensures |Kept(size, s)| < size
    ensures exists k :: 0 <= k <= |s| && Kept(size, s) == s[k..]
    decreases |s|
  {
    if |s| < size {
      assert s == s[0..];
    } else {
      KeptSuffix(size, s[size..]);
      var k :| 0 <= k <= |s[size..]| && Kept(size, s[size..]) == s[size..][k..];
      assert s[size..][k..] == s[size + k..];
    }
  }

  lemma {:induction false} KeptLength(size: nat, s: Bytes)
    requires size > 0
    ensures |Kept(size, s)| == |s| % size
    decreases |s|
  {
    if |s| >= size {
      KeptLength(size, s[size..]);
      ModStep(|s|, size);
    }
  }

  lemma ModStep(n: nat, d: nat)
    requires 0 < d <= n
    ensures (n - d) % d == n % d
  {
    var x, y := n / d, (n - d) / d;
    assert d * (x - y - 1) == (n - d) % d - n % d;
    if x - y - 1 > 0 { AtLeast(d, x - y - 1); }
    if x - y - 1 < 0 { AtLeast(d, y + 1 - x); }
  }

  lemma {:induction false} AtLeast(d: nat, k: nat)
    requires k > 0
    ensures d * k >= d
  {
    if k > 1 { AtLeast(d, k - 1); }
  }

  /** Octets other than LF can only be held or overflow. */
  lemma {:induction false} FeedNoLF(size: nat, f: Framer, s: Bytes)
    requires Resting(size, f) && LF !in s
    ensures var g := Feed(size, f, s);
            g.held == Kept(size, f.held + s) && Lines(g.log) == Lines(f.log)
    decreases |s|
  {
    if s == [] {
      assert f.held + s == f.held;
    } else {
      var b := f.held + [s[0]];
      assert b + s[1..] == f.held + s;
      var g := Step(size, f, s[0]);
      LinesSnoc(f.log, Overflow(b));
      assert forall i :: IsLineEnd(b, i) && i < |b| - 2 ==> IsLineEnd(f.held, i);
      FeedNoLF(size, g, s[1..]);
      if |b| == size {
        assert (f.held + s)[size..] == s[1..];
        assert g.held + s[1..] == s[1..];
      }
    }
  }

  /** The state between two console lines: nothing held, or one stray LF. */
  predicate BetweenLines(h: Bytes) { h == [] || h == [LF] }

  /** One console line of any length, started with nothing held or with a stray LF:
      a remainder of size-1 octets swallows the CR and leaves the LF behind,
      any other remainder is accepted as a line. */
  lemma ConsoleLine(size: nat, f: Framer, l: Bytes)
    requires size >= 2 && BetweenLines(f.held) && LF !in l
    ensures var g := Feed(size, f, l + LINE_END);
            var k := Kept(size, f.held + l);
            && (|k| == size - 1 ==> g.held == [LF] && Lines(g.log) == Lines(f.log))
            && (|k| != size - 1 ==> g.held == [] && Lines(g.log) == Lines(f.log) + [k])
  {
    var k := Kept(size, f.held + l);
    KeptSuffix(size, f.held + l);
    FeedNoLF(size, f, l);
    FeedAppend(size, f, l, LINE_END);
    var g := Feed(size, f, l);
    FeedLineEnd(size, g);
    var o := if |k| == size - 1 then Overflow(k + [CR]) else Line(k);
    LinesSnoc(g.log, o);
  }

  lemma FeedLineEnd(size: nat, g: Framer)
    requires size >= 2 && |g.held| < size
    ensures Feed(size, g, LINE_END) ==
            if |g.held| == size - 1 then Framer([LF], g.log + [Overflow(g.held + [CR])])
            else Framer([], g.log + [Line(g.held)])
  {
    assert LINE_END[1..] == [LF] && [LF][1..] == [];
    var h := Step(size, g, CR);
    assert Feed(size, g, LINE_END) == Feed(size, h, [LF]) == Feed(size, Step(size, h, LF), []);
    if |g.held| == size - 1 {
      assert h.held + [LF] == [LF];
    } else {
      var b := g.held + [CR] + [LF];
      assert b[..|b| - 2] == g.held;
    }
  }

  function Typed(lines: seq<Bytes>): seq<Bytes> {
    if lines == [] then [] else [lines[0] + LINE_END] + Typed(lines[1..])
  }

  /** From f to g exactly the given lines were accepted, and nothing is held. */
  predicate Accepted(f: Framer, g: Framer, lines: seq<Bytes>) {
    g.held == [] && Lines(g.log) == Lines(f.log) + lines
  }

  lemma AcceptedTrans(f: Framer, g: Framer, h: Framer, a: seq<Bytes>, b: seq<Bytes>)
    requires Accepted(f, g, a) && Accepted(g, h, b)
    ensures Accepted(f, h, a + b)
  {
    assert Lines(f.log) + a + b == Lines(f.log) + (a + b);
  }

  /** Every console line that fits with its CRLF is accepted exactly once, in order, unchanged. */
  lemma {:induction false} ShortLinesSurvive(size: nat, f: Framer, lines: seq<Bytes>)
    requires size >= 2 && f.held == []
    requires forall l <- lines :: LF !in l && |l| <= size - 2
    ensures Accepted(f, Feed(size, f, Flatten(Typed(lines))), lines)
    decreases |lines|
  {
    if lines == [] {
      assert Flatten(Typed(lines)) == [] && Lines(f.log) + lines == Lines(f.log);
    } else {
      var first, rest := lines[0] + LINE_END, Flatten(Typed(lines[1..]));
      TypedFirst(lines);
      FeedAppend(size, f, first, rest);
      ShortLine(size, f, lines[0]);
      var g := Feed(size, f, first);
      ShortLinesSurvive(size, g, lines[1..]);
      AcceptedTrans(f, g, Feed(size, g, rest), [lines[0]], lines[1..]);
      assert lines == [lines[0]] + lines[1..];
    }
  }

  lemma TypedFirst(lines: seq<Bytes>)
    requires lines != []
    ensures Flatten(Typed(lines)) == (lines[0] + LINE_END) + Flatten(Typed(lines[1..]))
  {
    assert Typed(lines)[1..] == Typed(lines[1..]);
  }

  lemma ShortLine(size: nat, f: Framer, l: Bytes)
    requires size >= 2 && f.held == [] && LF !in l && |l| <= size - 2
    ensures Accepted(f, Feed(size, f, l + LINE_END), [l])
  {
    ConsoleLine(size, f, l);
    assert f.held + l == l;
  }

  /** Exactly which line spoils the short one typed next: the one that, with the stray LF it
      may have met, is one octet short of a multiple of the buffer. Its CR fills the buffer
      and is dropped while its LF stays. */
  lemma LongLineSpoilsNext(size: nat, f: Framer, long: Bytes, short: Bytes)
    requires size >= 2 && BetweenLines(f.held) && LF !in long && LF !in short && |short| <= size - 2
    ensures var g := Feed(size, f, long + LINE_END);
            var h := Feed(size, g, short + LINE_END);
            Lines(h.log) == Lines(g.log) + [short] <==> (|f.held| + |long|) % size != size - 1
  {
    ConsoleLine(size, f, long);
    KeptLength(size, f.held + long);
    ShortAfter(size, Feed(size, f, long + LINE_END), short);
  }

  /** A short line is accepted as it is exactly when no stray LF waits for it. */
  lemma ShortAfter(size: nat, g: Framer, short: Bytes)
    requires size >= 2 && BetweenLines(g.held) && LF !in short && |short| <= size - 2
    ensures Lines(Feed(size, g, short + LINE_END).log) == Lines(g.log) + [short] <==> g.held == []
  {
    ConsoleLine(size, g, short);
    if g.held == [] {
      assert g.held + short == short;
    } else {
      var h := Feed(size, g, short + LINE_END);
      assert g.held + short == [LF] + short;
      if |short| + 1 < size - 1 {
        assert Lines(h.log)[|Lines(g.log)|] == [LF] + short;
      }
    }
  }

  /** The length of the stray LF left behind by typed lines, reckoned from lengths alone: h
      octets wait for the first line. */
  function Stray(size: nat, h: nat, lines: seq<Bytes>): nat
    requires size > 0
    decreases |lines|
  {
    if lines == [] then h
    else Stray(size, if (h + |lines[0]|) % size == size - 1 then 1 else 0, lines[1..])
  }

  /** Exactly what is accepted of any typed lines, when the octets h wait for the first. */
  function Received(size: nat, h: Bytes, lines: seq<Bytes>): seq<Bytes>
    requires size > 0
    decreases |lines|
  {
    if lines == [] then []
    else
      var k := Kept(size, h + lines[0]);
      if |k| == size - 1 then Received(size, [LF], lines[1..]) else [k] + Received(size, [], lines[1..])
  }

  /** The fate of any typed lines of any lengths. */
  lemma {:induction false} TypedLines(size: nat, f: Framer, lines: seq<Bytes>)
    requires size >= 2 && BetweenLines(f.held) && forall i :: 0 <= i < |lines| ==> LF !in lines[i]
    ensures var g := Feed(size, f, Flatten(Typed(lines)));
            && BetweenLines(g.held) && |g.held| == Stray(size, |f.held|, lines)
            && Lines(g.log) == Lines(f.log) + Received(size, f.held, lines)
    decreases |lines|
  {
    if lines == [] {
      assert Flatten(Typed(lines)) == [] && Lines(f.log) + [] == Lines(f.log);
    } else {
      var l, rest := lines[0], lines[1..];
      hide Feed, Kept, Lines, Flatten, Typed;
      TypedFirst(lines);
      FeedAppend(size, f, l + LINE_END, Flatten(Typed(rest)));
      ConsoleLine(size, f, l);
      KeptLength(size, f.held + l);
      var g := Feed(size, f, l + LINE_END);
      assert forall i :: 0 <= i < |rest| ==> rest[i] == lines[i + 1];
      TypedLines(size, g, rest);
      var k := Kept(size, f.held + l);
      assert Lines(f.log) + [k] + Received(size, [], rest) == Lines(f.log) + ([k] + Received(size, [], rest));
    }
  }

  /** After any typed lines, the next one that fits with its CRLF is accepted unchanged if
      and only if their lengths leave no stray LF. */
  lemma NextLineSurvives(size: nat, f: Framer, lines: seq<Bytes>, next: Bytes)
    requires size >= 2 && BetweenLines(f.held) && forall i :: 0 <= i < |lines| ==> LF !in lines[i]
    requires LF !in next && |next| <= size - 2
    ensures var g := Feed(size, f, Flatten(Typed(lines)));
            && |g.held| == Stray(size, |f.held|, lines)
            && (Lines(Feed(size, g, next + LINE_END).log) == Lines(g.log) + [next]
                <==> Stray(size, |f.held|, lines) == 0)
  {
    TypedLines(size, f, lines);
    ShortAfter(size, Feed(size, f, Flatten(Typed(lines))), next);
  }

  /** A line as it comes over the wire. */
  lemma LineOnTheWire(size: nat, f: Framer, text: Bytes)
    requires f.held == [] && 0x0A !in text && |text| + 2 <= size
    ensures var g := Feed(size, f, text + [0x0D, 0x0A]); g.held == [] && Lines(g.log) == Lines(f.log) + [text]
  {
    ShortLine(size, f, text);
  }

  // ---- There is one way to frame a stream ----

  lemma FramedApart(size: nat, o: Output, p: Output, x: Bytes, y: Bytes)
    requires WellFramed(size, o) && WellFramed(size, p) && Spell(o) + x == Spell(p) + y
    ensures o == p && x == y
  {
    var s, t := Spell(o), Spell(p);
    var whole := s + x;
    FramedLonger(size, o, p, x, y);
    FramedLonger(size, p, o, y, x);
    OnlyEnd(size, o);
    OnlyEnd(size, p);
    assert whole[..|s|] == s && whole[..|t|] == t && whole[|s|..] == x && whole[|t|..] == y;
    if o.Line? && p.Line? { assert s[..|s| - 2] == o.text && t[..|t| - 2] == p.text; }
    assert o.Line? ==> IsLineEnd(t, |o.text|);
    assert p.Line? ==> IsLineEnd(s, |p.text|);
  }

  lemma FramedLonger(size: nat, o: Output, p: Output, x: Bytes, y: Bytes)
    requires WellFramed(size, o) && WellFramed(size, p) && Spell(o) + x == Spell(p) + y
    ensures |Spell(o)| >= |Spell(p)|
  {
    var s, t := Spell(o), Spell(p);
    OnlyEnd(size, p);
    if |s| <= |t| {
      assert forall i :: 0 <= i < |s| ==> (s + x)[i] == s[i] == (t + y)[i] == t[i];
      assert o.Line? ==> s[|s| - 2] == CR && s[|s| - 1] == LF && IsLineEnd(t, |s| - 2);
    }
  }

  lemma OnlyEnd(size: nat, p: Output)
    requires WellFramed(size, p)
    ensures |Spell(p)| <= size
    ensures forall i :: IsLineEnd(Spell(p), i) ==> p.Line? && i == |Spell(p)| - 2
  {
    assert p.Overflow? ==> Spell(p) == p.dropped && !HasLine(Spell(p));
    forall i | IsLineEnd(Spell(p), i) ensures p.Line? && i == |Spell(p)| - 2 {
      assert p.Line? && i < |p.text| - 1 ==> IsLineEnd(p.text, i);
    }
  }

  /** What is conserved determines the outcome: no other lines and dropped buffers spell out
      the same stream. */
  lemma {:induction false} FramingUnique(size: nat, a: seq<Output>, x: Bytes, b: seq<Output>, y: Bytes)
    requires (forall o <- a :: WellFramed(size, o)) && (forall o <- b :: WellFramed(size, o))
    requires |x| < size && !HasLine(x) && |y| < size && !HasLine(y)
    requires Encode(a) + x == Encode(b) + y
    ensures a == b && x == y
    decreases |a|
  {
    if a == [] && b == [] {
      assert [] + x == x && [] + y == y;
    } else if a == [] {
      assert [] + x == x;
      FrontHasLine(size, b, y);
    } else if b == [] {
      assert [] + y == y;
      FrontHasLine(size, a, x);
    } else {
      var restA, restB := Encode(a[1..]) + x, Encode(b[1..]) + y;
      assert Spell(a[0]) + restA == Encode(a) + x && Spell(b[0]) + restB == Encode(b) + y;
      assert a[0] in a && b[0] in b;
      FramedApart(size, a[0], b[0], restA, restB);
      FramingUnique(size, a[1..], x, b[1..], y);
      assert a == [a[0]] + a[1..] && b == [b[0]] + b[1..];
    }
  }

  lemma FrontHasLine(size: nat, b: seq<Output>, y: Bytes)
    requires b != [] && WellFramed(size, b[0])
    ensures HasLine(Encode(b) + y) || |Encode(b) + y| >= size
  {
    var w, s := Encode(b) + y, Spell(b[0]);
    assert w[..|s|] == s;
    if b[0].Line? { assert s[|s| - 2] == CR && s[|s| - 1] == LF && IsLineEnd(w, |s| - 2); }
  }

  // ---- The code ----

  class LineReader {
    const buffer: array<Byte>
    var numBytes: nat
    /** Octets asked for by the outstanding AsyncRead; 0 when none is outstanding. */
    var reading: nat
    /** The arguments of the AcceptLine calls, in order. */
    var accepted: seq<Bytes>
    ghost var log: seq<Output>

    ghost predicate Valid()
      reads this, buffer
    {
      && 0 < buffer.Length
      && numBytes <= buffer.Length
      && accepted == Lines(log)
      && (reading > 0 ==> reading == buffer.Length - numBytes && Resting(buffer.Length, State()))
    }

    ghost function State(): Framer
      reads this, buffer
      requires numBytes <= buffer.Length
    {
      Framer(buffer[..numBytes], log)
    }

    constructor (size: nat)
      requires 0 < size
      ensures Valid() && fresh(buffer) && buffer.Length == size
      ensures State() == Framer([], []) && reading == 0
    {
      buffer := new Byte[size];
      numBytes, reading, accepted, log := 0, 0, [], [];
    }

    method Reset()
      requires Valid() && reading == 0
      modifies this`numBytes
      ensures Valid() && State() == Framer([], log)
    {
      numBytes := 0;
    }

    /** A full buffer is discarded; then the whole free space is requested. */
    method Read()
      requires Valid() && reading == 0 && !HasLine(buffer[..numBytes])
      modifies this`numBytes, this`reading, this`log
      ensures Valid() && reading > 0 && accepted == Lines(log)
      ensures State() == DiscardFull(buffer.Length, old(State()))
    {
      if buffer.Length - numBytes == 0 {
        ghost var full := Overflow(buffer[..numBytes]);
        LinesSnoc(log, full);
        log := log + [full];
        Reset();
        assert buffer[..numBytes] == [];
      }
      reading := buffer.Length - numBytes;
      assert !HasLine(buffer[..numBytes]);
    }

    method OnOpened()
      requires Valid() && reading == 0 && numBytes == 0
      modifies this`numBytes, this`reading, this`log
      ensures Valid() && reading > 0 && State() == old(State())
    {
      Read();
    }

    method OnClosed()
      requires Valid()
      modifies this`numBytes, this`reading
      ensures Valid() && reading == 0 && State() == Framer([], log)
    {
      reading := 0;
      Reset();
    }

    /** The outstanding read completes with data, written by the layer behind the held octets. */
    method OnReceive(data: Bytes, canRead: bool)
      requires Valid() && 1 <= |data| <= reading
      modifies this, buffer
      ensures Valid()
      ensures canRead ==> reading > 0 && State() == ReceiveSpec(buffer.Length, old(State()), data)
      ensures canRead ==> State() == Feed(buffer.Length, old(State()), data)
      ensures !canRead ==> reading == 0 && State() == ReadBufferSpec(Framer(old(State()).held + data, old(log)))
    {
      ghost var before := State();
      forall i | 0 <= i < |data| { buffer[numBytes + i] := data[i]; }
      reading := 0;
      numBytes := numBytes + |data|;
      assert State() == Framer(before.held + data, log);
      ReceiveRefinesFeed(buffer.Length, before, data);
      ReadBuffer();
      if canRead { Read(); }
    }

    /** Accepts the line that ends at pos and moves the remaining octets to the front. */
    method TakeLine(pos: nat) returns (remain: nat)
      requires Valid() && reading == 0 && IsLineEnd(buffer[..numBytes], pos)
      modifies this`numBytes, this`accepted, this`log, buffer
      ensures Valid() && remain == numBytes == old(numBytes) - (pos + 2)
      ensures var b := old(buffer[..numBytes]);
              State() == Framer(b[pos + 2..], old(log) + [Line(b[..pos])])
    {
      ghost var b := buffer[..numBytes];
      var length := pos + 2;
      remain := numBytes - length;
      var s := buffer[..length - 2];
      assert s == b[..pos];
      numBytes := numBytes - length;
      LinesSnoc(log, Line(s));
      accepted := accepted + [s];
      log := log + [Line(s)];
      if remain > 0 {
        forall i | 0 <= i < remain { buffer[i] := buffer[length + i]; }
      }
      assert buffer[..numBytes] == b[pos + 2..];
    }

    method ReadBuffer()
      requires Valid() && reading == 0 && numBytes > 0
      modifies this`numBytes, this`accepted, this`log, buffer
      ensures Valid() && !HasLine(buffer[..numBytes])
      ensures State() == ReadBufferSpec(old(State()))
      decreases numBytes
    {
      ghost var b := buffer[..numBytes];
      var pos := 0;
      while pos < numBytes - 1
        invariant pos <= numBytes - 1
        invariant FindLine(b, 0) == FindLine(b, pos)
        invariant State() == old(State()) && accepted == Lines(log) && numBytes == old(numBytes)
      {
        if buffer[pos] == CR && buffer[pos + 1] == LF {
          assert FindLine(b, 0) == pos && IsLineEnd(b, pos);
          var remain := TakeLine(pos);
          if remain > 0 { ReadBuffer(); }
          return;
        }
        pos := pos + 1;
      }
    }
  }
}
