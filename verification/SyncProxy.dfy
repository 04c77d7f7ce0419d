/** The physical layer behind a console: whole lines from a blocking reader thread
    are cut to whatever read sizes the upper layer asks for. The thread and the
    upper layer alternate in any order; each method is one critical section. */
module SyncProxying {
  import opened Octets

  class SyncProxy {
    var reading: bool
    var numToRead: nat
    var lineQueue: seq<Bytes>
    /** Everything the thread read and everything handed up since the last reset. */
    ghost var linesRead: seq<Bytes>
    ghost var delivered: seq<Bytes>

    /** Conservation; at most one (partial) line queued; a waiting read means no data. */
    ghost predicate Valid()
      reads this
    {
      && Conserving()
      && (reading ==> lineQueue == [])
    }

    ghost predicate Conserving()
      reads this
    {
      && |lineQueue| <= 1 && (lineQueue != [] ==> lineQueue[0] != [])
      && (reading ==> numToRead > 0)
      && Flatten(delivered) + Flatten(lineQueue) == Flatten(linesRead)
    }

    constructor ()
      ensures Valid() && !reading && linesRead == [] && delivered == [] && lineQueue == []
    {
      reading, numToRead, lineQueue := false, 0, [];
      linesRead, delivered := [], [];
    }

    /** DoOpen starts from an empty queue. */
    method Reset()
      modifies this
      ensures Valid() && !reading && linesRead == [] && delivered == [] && lineQueue == []
    {
      reading, numToRead, lineQueue := false, 0, [];
      linesRead, delivered := [], [];
    }

    /** Completes the outstanding read from the first queued line, if both exist, and
        pushes what does not fit back to the front of the queue. */
    method CheckForRead() returns (r: Option<Bytes>)
      requires Conserving()
      modifies this`reading, this`lineQueue, this`delivered
      ensures Valid()
      ensures r == if old(reading) && old(lineQueue) != [] then Some(Taken(old(lineQueue)[0], numToRead)) else None
      ensures r.Some? ==> !reading && delivered == old(delivered) + [r.value]
      ensures r.Some? ==> Fills(r.value, old(lineQueue)[0], numToRead)
      ensures r.Some? ==> lineQueue == Left(old(lineQueue)[0], numToRead)
      ensures r.None? ==> reading == old(reading) && delivered == old(delivered) && lineQueue == old(lineQueue)
    {
      r := None;
      if reading && |lineQueue| > 0 {
        var copy := lineQueue[0];
        lineQueue := lineQueue[1..];
        var len := |copy|;
        var min := if len > numToRead then numToRead else len;
        var remainder := len - min;
        var out := copy[..min];
        if remainder > 0 {
          lineQueue := [copy[numToRead..]] + lineQueue;
        }
        reading := false;
        FlattenSnoc(delivered, out);
        FlattenCut(copy, numToRead);
        delivered := delivered + [out];
        r := Some(out);
      }
    }

    method DoAsyncRead(length: nat) returns (r: Option<Bytes>)
      requires Valid() && !reading && length > 0
      modifies this
      ensures Valid() && numToRead == length && linesRead == old(linesRead)
      ensures r == if old(lineQueue) != [] then Some(Taken(old(lineQueue)[0], length)) else None
      ensures reading <==> r.None?
      ensures r.Some? ==> Fills(r.value, old(lineQueue)[0], length)
      ensures delivered == old(delivered) + (if r.Some? then [r.value] else [])
      ensures lineQueue == if r.Some? then Left(old(lineQueue)[0], length) else []
    {
      numToRead := length;
      reading := true;
      r := CheckForRead();
    }

    /** One turn of the reader thread, which reads a line only while a read waits. */
    method RunOnce(line: Bytes) returns (r: Option<Bytes>)
      requires Valid() && line != []
      modifies this
      ensures Valid() && numToRead == old(numToRead)
      ensures r == if old(reading) then Some(Taken(line, numToRead)) else None
      ensures r.None? ==> linesRead == old(linesRead) && delivered == old(delivered) && lineQueue == old(lineQueue)
      ensures r.Some? ==> Fills(r.value, line, numToRead)
      ensures r.Some? ==> !reading && linesRead == old(linesRead) + [line]
      ensures r.Some? ==> delivered == old(delivered) + [r.value] && lineQueue == Left(line, numToRead)
    {
      r := None;
      if reading {
        FlattenSnoc(linesRead, line);
        FlattenSnoc(lineQueue, line);
        lineQueue := lineQueue + [line];
        linesRead := linesRead + [line];
        r := CheckForRead();
      }
    }
  }

  /** The part of a line that one read of n octets takes, and what goes back to the queue. */
  function Taken(line: Bytes, n: nat): Bytes {
    if |line| > n then line[..n] else line
  }

  /** A read of n octets gets the front of the line: n octets, or the whole line. */
  predicate Fills(r: Bytes, line: Bytes, n: nat) {
    r <= line && |r| <= n && (|r| == n || r == line)
  }

  function Left(line: Bytes, n: nat): seq<Bytes> {
    if |line| > n then [line[n..]] else []
  }

  lemma FlattenCut(line: Bytes, n: nat)
    ensures Taken(line, n) + Flatten(Left(line, n)) == line
    ensures Flatten([line]) == line
  {
    assert [line][1..] == [] && line + [] == line;
    if |line| > n {
      assert [line[n..]][1..] == [];
      assert line[..n] + line[n..] == line;
    }
  }
}

/** Console lines through the proxy into the line reader. */
module ConsolePipeline {
  import opened Octets
  import opened LineFraming
  import opened SyncProxying

  ghost predicate Idle(reader: LineReader, proxy: SyncProxy)
    reads reader, reader.buffer, proxy
  {
    && reader.Valid() && proxy.Valid()
    && reader.reading > 0 && proxy.reading && proxy.numToRead == reader.reading
  }

  lemma FeedCut(size: nat, f: Framer, line: Bytes, n: nat)
    ensures var c := Taken(line, n); Feed(size, Feed(size, f, c), line[|c|..]) == Feed(size, f, line)
  {
    var c := Taken(line, n);
    assert c + line[|c|..] == line;
    FeedAppend(size, f, c, line[|c|..]);
  }

  /** Hands one chunk up; the reader answers with a read of its new free space. */
  method HandUp(reader: LineReader, proxy: SyncProxy, c: Bytes) returns (next: Option<Bytes>)
    requires reader.Valid() && proxy.Valid() && !proxy.reading && 1 <= |c| <= reader.reading
    modifies reader, reader.buffer, proxy
    ensures reader.Valid() && proxy.Valid() && reader.reading > 0 && proxy.numToRead == reader.reading
    ensures reader.State() == Feed(reader.buffer.Length, old(reader.State()), c)
    ensures next == if old(proxy.lineQueue) != [] then Some(Taken(old(proxy.lineQueue)[0], reader.reading)) else None
    ensures proxy.reading <==> next.None?
    ensures proxy.lineQueue == if next.Some? then Left(old(proxy.lineQueue)[0], reader.reading) else []
  {
    reader.OnReceive(c, true);
    next := proxy.DoAsyncRead(reader.reading);
  }

  /** The chunk the reader gets next, and what the proxy keeps behind it, when rest of a
      line is still to be taken. */
  ghost predicate Taking(reader: LineReader, proxy: SyncProxy, chunk: Option<Bytes>, rest: Bytes)
    reads reader, reader.buffer, proxy
  {
    && reader.Valid() && proxy.Valid()
    && reader.reading > 0 && proxy.numToRead == reader.reading && (proxy.reading <==> chunk.None?)
    && chunk == (if rest != [] then Some(Taken(rest, reader.reading)) else None)
    && proxy.lineQueue == Left(rest, reader.reading)
  }

  method TakeChunk(reader: LineReader, proxy: SyncProxy, c: Bytes, ghost rest: Bytes) returns (next: Option<Bytes>)
    requires rest != [] && Taking(reader, proxy, Some(c), rest)
    modifies reader, reader.buffer, proxy
    ensures 0 < |c| <= |rest| && Taking(reader, proxy, next, rest[|c|..])
    ensures Feed(reader.buffer.Length, reader.State(), rest[|c|..])
            == old(Feed(reader.buffer.Length, reader.State(), rest))
  {
    hide Feed;
    FeedCut(reader.buffer.Length, reader.State(), rest, reader.reading);
    next := HandUp(reader, proxy, c);
  }

  /** One console line: the thread reads it, and the reader takes it in as many pieces
      as its free space dictates. */
  method PumpLine(reader: LineReader, proxy: SyncProxy, text: Bytes)
    requires Idle(reader, proxy)
    modifies reader, reader.buffer, proxy
    ensures Idle(reader, proxy)
    ensures reader.State() == Feed(reader.buffer.Length, old(reader.State()), text + LINE_END)
  {
    ghost var rest, goal := text + LINE_END, Feed(reader.buffer.Length, reader.State(), text + LINE_END);
    var chunk := proxy.RunOnce(text + LINE_END);
    while chunk.Some?
      invariant Taking(reader, proxy, chunk, rest)
      invariant Feed(reader.buffer.Length, reader.State(), rest) == goal
      decreases |rest|
    {
      var c := chunk.value;
      chunk := TakeChunk(reader, proxy, c, rest);
      rest := rest[|c|..];
    }
  }

  /** Everything typed reaches the reader as one uncut stream would. */
  method Pump(reader: LineReader, proxy: SyncProxy, lines: seq<Bytes>)
    requires Idle(reader, proxy)
    modifies reader, reader.buffer, proxy
    ensures Idle(reader, proxy)
    ensures reader.State() == Feed(reader.buffer.Length, old(reader.State()), Flatten(Typed(lines)))
  {
    ghost var size := reader.buffer.Length;
    ghost var goal := Feed(size, reader.State(), Flatten(Typed(lines)));
    assert lines[0..] == lines;
    for i := 0 to |lines|
      invariant Idle(reader, proxy) && size == reader.buffer.Length
      invariant Feed(size, reader.State(), Flatten(Typed(lines[i..]))) == goal
    {
      TypedFirst(lines[i..]);
      assert lines[i..][1..] == lines[i + 1..];
      FeedAppend(size, reader.State(), lines[i] + LINE_END, Flatten(Typed(lines[i + 1..])));
      PumpLine(reader, proxy, lines[i]);
    }
  }

  /** A session from open on. Typed lines of any length are accepted as reckoned; those of
      at most size-2 octets exactly once, in order and unchanged. */
  method Session(size: nat, lines: seq<Bytes>) returns (accepted: seq<Bytes>)
    requires size >= 2 && forall i :: 0 <= i < |lines| ==> LF !in lines[i]
    ensures accepted == Received(size, [], lines)
    ensures (forall l <- lines :: |l| <= size - 2) ==> accepted == lines
  {
    var reader := new LineReader(size);
    var proxy := new SyncProxy();
    reader.OnOpened();
    var none := proxy.DoAsyncRead(reader.reading);
    Pump(reader, proxy, lines);
    TypedLines(size, Framer([], []), lines);
    if forall l <- lines :: |l| <= size - 2 { ShortLinesSurvive(size, Framer([], []), lines); }
    accepted := reader.accepted;
  }
}
