/** A physical layer that reads back what was written to it: reads are matched with buffered
    octets, and completions are posted to a queue of callbacks. */
module Loopback {
  import opened Octets
  import opened PhysicalLayers

  datatype Callback = OpenDone | ReadDone(failed: bool, data: Bytes) | WriteDone

  /** sent and received count from the last close: what was passed to AsyncWrite, and what
      OnReceive was called with; asked is the size of the last read. */
  datatype Loop = Loop(flags: Flags, written: Bytes, readSize: nat, asked: nat, posted: seq<Callback>,
    sent: Bytes, received: Bytes)

  const FRESH := Loop(CLOSED, [], 0, 0, [], [], [])

  function Matched(l: Loop): Loop {
    if 0 < l.readSize && l.written != [] then
      var num := if l.readSize < |l.written| then l.readSize else |l.written|;
      Loop(l.flags, l.written[num..], 0, l.asked, l.posted + [ReadDone(false, l.written[..num])], l.sent, l.received)
    else l
  }

  /** DoClose: unread octets are dropped and a waiting read fails. */
  function DoClose(l: Loop): Loop {
    Loop(l.flags, [], 0, l.asked, if 0 < l.readSize then l.posted + [ReadDone(true, [])] else l.posted, [], [])
  }

  datatype Call = AsyncOpen | AsyncClose | AsyncRead(max: nat) | AsyncWrite(data: Bytes) | RunNext

  function EventOf(c: Callback): Event {
    match c
    case OpenDone => OpenCallback(false)
    case ReadDone(failed, _) => ReadCallback(failed)
    case WriteDone => WriteCallback(false)
  }

  /** Where a call is not allowed, it throws and nothing changes. */
  predicate Allowed(l: Loop, c: Call) {
    match c
    case AsyncOpen => Legal(l.flags, Open)
    case AsyncClose => Legal(l.flags, Close)
    case AsyncRead(max) => 0 < max && Legal(l.flags, Read)
    case AsyncWrite(data) => 0 < |data| && Legal(l.flags, Write)
    case RunNext => l.posted != [] && Legal(l.flags, EventOf(l.posted[0]))
  }

  function Apply(l: Loop, c: Call): Loop {
    if !Allowed(l, c) then l
    else match c
      case AsyncOpen => l.(flags := Step(l.flags, Open), posted := l.posted + [OpenDone])
      case AsyncClose => DoClose(l).(flags := Step(l.flags, Close))
      case AsyncRead(max) => Matched(l.(flags := Step(l.flags, Read), readSize := max, asked := max))
      case AsyncWrite(data) =>
        Matched(l.(flags := Step(l.flags, Write), written := l.written + data, posted := l.posted + [WriteDone],
                                sent := l.sent + data))
      case RunNext =>
        var e := EventOf(l.posted[0]);
        var next := l.(flags := Step(l.flags, e), posted := l.posted[1..]);
        // an open that finds the layer closing closes it again
        if e.OpenCallback? && l.flags.closing then DoClose(next)
        else if l.posted[0].ReadDone? && !l.posted[0].failed && !l.flags.closing then
          next.(received := l.received + l.posted[0].data)
        else next
  }

  function Run(l: Loop, cs: seq<Call>): Loop
    decreases |cs|
  {
    if cs == [] then l else Run(Apply(l, cs[0]), cs[1..])
  }

  // ---- What every call keeps ----

  function Opens(cs: seq<Callback>): nat { if cs == [] then 0 else Bit(cs[0].OpenDone?) + Opens(cs[1..]) }

  function Reads(cs: seq<Callback>): nat { if cs == [] then 0 else Bit(cs[0].ReadDone?) + Reads(cs[1..]) }

  function Writes(cs: seq<Callback>): nat { if cs == [] then 0 else Bit(cs[0].WriteDone?) + Writes(cs[1..]) }

  /** Octets copied into the read buffer whose completion is still posted. */
  function InFlight(cs: seq<Callback>): Bytes {
    if cs == [] then [] else (if cs[0].ReadDone? && !cs[0].failed then cs[0].data else []) + InFlight(cs[1..])
  }

  lemma {:induction false} CountSnoc(cs: seq<Callback>, c: Callback)
    ensures Opens(cs + [c]) == Opens(cs) + Bit(c.OpenDone?)
    ensures Reads(cs + [c]) == Reads(cs) + Bit(c.ReadDone?)
    ensures Writes(cs + [c]) == Writes(cs) + Bit(c.WriteDone?)
    ensures InFlight(cs + [c]) == InFlight(cs) + (if c.ReadDone? && !c.failed then c.data else [])
    decreases |cs|
  {
    if cs == [] {
      assert cs + [c] == [c];
    } else {
      assert (cs + [c])[1..] == cs[1..] + [c];
      CountSnoc(cs[1..], c);
      var x := if cs[0].ReadDone? && !cs[0].failed then cs[0].data else [];
      var y := if c.ReadDone? && !c.failed then c.data else [];
      assert x + (InFlight(cs[1..]) + y) == x + InFlight(cs[1..]) + y;
    }
  }

  /** A successful completion carries between one octet and as many as were asked for; a
      failed one comes from a close. */
  ghost predicate Proper(c: Callback, asked: nat, closing: bool) {
    c.ReadDone? ==> if c.failed then c.data == [] && closing else 1 <= |c.data| <= asked
  }

  ghost predicate AllProper(cs: seq<Callback>, asked: nat, closing: bool) {
    forall i :: 0 <= i < |cs| ==> Proper(cs[i], asked, closing)
  }

  /** Octets received, octets in flight and octets buffered are those sent; a close forgets
      them all. */
  ghost predicate Conserved(l: Loop) {
    if l.flags.closing then l.sent == [] && l.received == []
    else l.received + InFlight(l.posted) + l.written == l.sent
  }

  /** Each operation under way has exactly one completion, posted or still to be posted; a
      waiting read and buffered octets never coexist; nothing is lost between them. */
  ghost predicate Valid(l: Loop) {
    && l.flags.Consistent()
    && Opens(l.posted) == Bit(l.flags.opening)
    && Reads(l.posted) + Bit(0 < l.readSize) == Bit(l.flags.reading)
    && Writes(l.posted) == Bit(l.flags.writing)
    && (0 < l.readSize ==> l.written == [])
    && Conserved(l)
    && (l.flags.closing || !l.flags.open ==> l.written == [] && l.readSize == 0)
    && l.readSize <= l.asked && AllProper(l.posted, l.asked, l.flags.closing)
  }

  lemma {:induction false} NoReads(cs: seq<Callback>, asked: nat, closing: bool)
    requires Reads(cs) == 0
    ensures AllProper(cs, asked, closing) && InFlight(cs) == []
    ensures forall i :: 0 <= i < |cs| ==> !cs[i].ReadDone?
    decreases |cs|
  {
    if cs != [] {
      NoReads(cs[1..], asked, closing);
      assert forall i :: 1 <= i < |cs| ==> cs[i] == cs[1..][i - 1];
    }
  }

  lemma Regroup(r: Bytes, f: Bytes, w: Bytes, num: nat)
    requires num <= |w|
    ensures r + (f + w[..num]) + w[num..] == r + f + w
  {
    assert f + w[..num] + w[num..] == f + (w[..num] + w[num..]) && w[..num] + w[num..] == w;
  }

  /** The match of a waiting read with buffered octets, when one of the two is new. */
  lemma DispatchKeeps(l: Loop)
    requires l.flags.Consistent() && l.flags.open && !l.flags.closing
    requires Opens(l.posted) == Bit(l.flags.opening) && Writes(l.posted) == Bit(l.flags.writing)
    requires Reads(l.posted) + Bit(0 < l.readSize) == Bit(l.flags.reading)
    requires l.received + InFlight(l.posted) + l.written == l.sent
    requires l.readSize <= l.asked && AllProper(l.posted, l.asked, false)
    ensures Valid(Matched(l))
  {
    if 0 < l.readSize && l.written != [] {
      var num := if l.readSize < |l.written| then l.readSize else |l.written|;
      CountSnoc(l.posted, ReadDone(false, l.written[..num]));
      Regroup(l.received, InFlight(l.posted), l.written, num);
    }
  }

  lemma CloseKeeps(l: Loop)
    requires Valid(l)
    ensures var d := DoClose(l);
            && Opens(d.posted) == Opens(l.posted) && Reads(d.posted) == Bit(l.flags.reading)
            && Writes(d.posted) == Writes(l.posted)
            && AllProper(d.posted, l.asked, true) && InFlight(d.posted) == InFlight(l.posted)
            && d.written == [] && d.readSize == 0 && d.sent == d.received == []
  {
    CountSnoc(l.posted, ReadDone(true, []));
    assert InFlight(l.posted) + [] == InFlight(l.posted);
  }

  /** Every posted completion is due: none finds the layer without its operation. */
  lemma CompletionsAreDue(l: Loop)
    requires Valid(l) && l.posted != []
    ensures Allowed(l, RunNext)
  {
  }

  lemma RunNextConserves(l: Loop)
    requires Valid(l) && l.posted != []
    ensures Conserved(Apply(l, RunNext))
  {
    CompletionsAreDue(l);
    var c, rest := l.posted[0], l.posted[1..];
    StepBalanced(l.flags, EventOf(c));
    if l.flags.closing {
      if !Step(l.flags, EventOf(c)).closing { NoReads(rest, l.asked, false); }
    } else {
      assert Proper(c, l.asked, false);
      var x := if c.ReadDone? && !c.failed then c.data else [];
      assert l.received + (x + InFlight(rest)) + l.written == l.received + x + InFlight(rest) + l.written;
      assert x == [] ==> l.received + x == l.received;
    }
  }

  lemma RunNextKeeps(l: Loop)
    requires Valid(l) && l.posted != []
    ensures Valid(Apply(l, RunNext))
  {
    CompletionsAreDue(l);
    RunNextConserves(l);
    hide Conserved, InFlight;
    var c, rest := l.posted[0], l.posted[1..];
    assert Proper(c, l.asked, l.flags.closing);
    assert forall i :: 0 <= i < |rest| ==> rest[i] == l.posted[i + 1];
    var next := Step(l.flags, EventOf(c));
    StepBalanced(l.flags, EventOf(c));
    assert l.flags.closing && !next.closing ==> Reads(rest) == 0;
    if Reads(rest) == 0 { NoReads(rest, l.asked, next.closing); }
  }

  lemma OpenCloseKeeps(l: Loop)
    requires Valid(l)
    ensures Valid(Apply(l, AsyncOpen)) && Valid(Apply(l, AsyncClose))
  {
    CountSnoc(l.posted, OpenDone);
    assert InFlight(l.posted) + [] == InFlight(l.posted);
    CloseKeeps(l);
    var d := DoClose(l);
    if Reads(d.posted) == 0 { NoReads(d.posted, l.asked, false); }
  }

  lemma ReadKeeps(l: Loop, max: nat)
    requires Valid(l)
    ensures Valid(Apply(l, AsyncRead(max)))
  {
    if Allowed(l, AsyncRead(max)) {
      NoReads(l.posted, max, false);
      DispatchKeeps(l.(flags := Step(l.flags, Read), readSize := max, asked := max));
    }
  }

  lemma WriteKeeps(l: Loop, data: Bytes)
    requires Valid(l)
    ensures Valid(Apply(l, AsyncWrite(data)))
  {
    if Allowed(l, AsyncWrite(data)) {
      CountSnoc(l.posted, WriteDone);
      var before := l.received + InFlight(l.posted);
      assert before + (l.written + data) == before + l.written + data && InFlight(l.posted) + [] == InFlight(l.posted);
      DispatchKeeps(l.(flags := Step(l.flags, Write), written := l.written + data,
                       posted := l.posted + [WriteDone], sent := l.sent + data));
    }
  }

  lemma ApplyKeeps(l: Loop, c: Call)
    requires Valid(l)
    ensures Valid(Apply(l, c))
  {
    match c
    case AsyncOpen => OpenCloseKeeps(l);
    case AsyncClose => OpenCloseKeeps(l);
    case AsyncRead(max) => ReadKeeps(l, max);
    case AsyncWrite(data) => WriteKeeps(l, data);
    case RunNext => if l.posted != [] { RunNextKeeps(l); }
  }

  // ---- What each call does ----

  /** A waiting read is answered with the front of what is buffered: as much as it asked for,
      or everything there is. */
  ghost predicate Answer(buffered: Bytes, size: nat, data: Bytes, left: Bytes) {
    data + left == buffered && 1 <= |data| <= size && (|data| == size || left == [])
  }

  lemma MatchAnswers(l: Loop)
    requires 0 < l.readSize && l.written != []
    ensures var m := Matched(l);
            exists data :: Answer(l.written, l.readSize, data, m.written)
              && m == l.(written := m.written, readSize := 0, posted := l.posted + [ReadDone(false, data)])
  {
    var num := if l.readSize < |l.written| then l.readSize else |l.written|;
    var data, left := l.written[..num], l.written[num..];
    assert data + left == l.written;
    assert Matched(l) == l.(written := left, readSize := 0, posted := l.posted + [ReadDone(false, data)]);
    assert Answer(l.written, l.readSize, data, Matched(l).written);
  }

  /** A read waits while nothing is buffered, and is answered at once otherwise. */
  lemma ReadAnswered(l: Loop, max: nat)
    requires Allowed(l, AsyncRead(max))
    ensures var q := Apply(l, AsyncRead(max));
            && q.flags == l.flags.(reading := true) && q.sent == l.sent && q.received == l.received
            && (if l.written == [] then q.readSize == max && q.posted == l.posted && q.written == []
                else exists data :: Answer(l.written, max, data, q.written)
                       && q.readSize == 0 && q.posted == l.posted + [ReadDone(false, data)])
  {
    var r := l.(flags := Step(l.flags, Read), readSize := max, asked := max);
    if l.written != [] { MatchAnswers(r); }
  }

  /** A write is completed first; then it answers a waiting read, or its octets are buffered
      behind those there are. */
  lemma WriteAnswers(l: Loop, data: Bytes)
    requires Valid(l) && Allowed(l, AsyncWrite(data))
    ensures var q := Apply(l, AsyncWrite(data));
            && q.flags == l.flags.(writing := true) && q.sent == l.sent + data && q.received == l.received
            && q.readSize == 0
            && (if l.readSize == 0 then q.posted == l.posted + [WriteDone] && q.written == l.written + data
                else exists d :: Answer(data, l.readSize, d, q.written)
                       && q.posted == l.posted + [WriteDone, ReadDone(false, d)])
  {
    var w := l.(flags := Step(l.flags, Write), written := l.written + data,
                posted := l.posted + [WriteDone], sent := l.sent + data);
    if 0 < l.readSize {
      assert l.written + data == data;
      MatchAnswers(w);
    }
  }

  /** A close drops what is buffered and fails a read that waits; the flags are those of any
      layer that closes. */
  lemma CloseDrops(l: Loop)
    requires Allowed(l, AsyncClose)
    ensures var q := Apply(l, AsyncClose);
            && q.flags == Step(l.flags, Close) && q.written == [] && q.readSize == 0
            && q.posted == l.posted + (if 0 < l.readSize then [ReadDone(true, [])] else [])
  {
  }

  /** The oldest completion runs, with the flags as on any layer; a read that succeeded hands
      its octets up unless the layer is closing. */
  lemma OldestRuns(l: Loop)
    requires Valid(l) && l.posted != []
    ensures var c, q := l.posted[0], Apply(l, RunNext);
            && q.flags == Step(l.flags, EventOf(c)) && l.posted == [c] + q.posted
            && (if c.ReadDone? && !c.failed && !l.flags.closing
                then q.received == l.received + c.data && q.written == l.written
                else q.received == (if c.OpenDone? && l.flags.closing then [] else l.received))
  {
    CompletionsAreDue(l);
  }

  /** Reads accepted and read completions run, in a run. */
  function ReadsAsked(l: Loop, cs: seq<Call>): nat
    decreases |cs|
  {
    if cs == [] then 0 else Bit(cs[0].AsyncRead? && Allowed(l, cs[0])) + ReadsAsked(Apply(l, cs[0]), cs[1..])
  }

  function ReadsAnswered(l: Loop, cs: seq<Call>): nat
    decreases |cs|
  {
    if cs == [] then 0
    else Bit(cs[0].RunNext? && Allowed(l, cs[0]) && l.posted[0].ReadDone?) + ReadsAnswered(Apply(l, cs[0]), cs[1..])
  }

  /** In every run from a new layer: the state is valid throughout, and each read accepted has
      been answered once, is posted to be, or is the one still waiting. */
  lemma {:induction false} RunKeeps(l: Loop, cs: seq<Call>)
    requires Valid(l)
    ensures var r := Run(l, cs);
            && Valid(r)
            && Reads(l.posted) + Bit(0 < l.readSize) + ReadsAsked(l, cs)
               == ReadsAnswered(l, cs) + Reads(r.posted) + Bit(0 < r.readSize)
    decreases |cs|
  {
    if cs != [] {
      ApplyKeeps(l, cs[0]);
      ReadsBalance(l, cs[0]);
      RunKeeps(Apply(l, cs[0]), cs[1..]);
    }
  }

  lemma ReadsBalance(l: Loop, c: Call)
    requires Valid(l) && Valid(Apply(l, c))
    ensures Bit(l.flags.reading) + Bit(c.AsyncRead? && Allowed(l, c))
            == Bit(c.RunNext? && Allowed(l, c) && l.posted[0].ReadDone?) + Bit(Apply(l, c).flags.reading)
  {
  }

  lemma FreshIsValid()
    ensures Valid(FRESH)
  {
  }

  // ---- The layer in place ----

  /** A posted completion names the buffer of the read, not its contents. */
  datatype Posted = OpenPost | WritePost | ReadPost(failed: bool, buffer: array<Byte>, count: nat)

  class LoopbackPhysicalLayerAsync {
    var flags: Flags
    var written: Bytes
    var readSize: nat
    var readBuffer: array?<Byte>
    var service: seq<Posted>
    ghost var loop: Loop

    /** The fields are those of the abstract state; the octets of a posted success are in
        the reader's buffer. */
    ghost predicate Matches()
      reads this, readBuffer
    {
      && flags == loop.flags && written == loop.written && readSize == loop.readSize
      && |service| == |loop.posted|
      && (forall i :: 0 <= i < |service| ==> Same(service[i], loop.posted[i]))
      && (0 < readSize ==> readBuffer != null && readSize <= readBuffer.Length)
    }

    ghost predicate Same(p: Posted, c: Callback)
      reads this, readBuffer
    {
      match p
      case OpenPost => c.OpenDone?
      case WritePost => c.WriteDone?
      case ReadPost(failed, buffer, count) =>
        && c.ReadDone? && c.failed == failed && buffer == readBuffer
        && count == |c.data| && count <= buffer.Length && buffer[..count] == c.data
    }

    constructor ()
      ensures Matches() && loop == FRESH && Valid(loop)
      ensures readBuffer == null
    {
      hide Valid;
      flags, written, readSize, readBuffer, service, loop := CLOSED, [], 0, null, [], FRESH;
      new;
      FreshIsValid();
    }

    /** Copies as many octets as the waiting read takes, one by one. */
    method CheckForReadDispatch()
      requires Matches() && Reads(loop.posted) + Bit(0 < readSize) <= 1
      modifies this, readBuffer
      ensures Matches() && loop == Matched(old(loop)) && readBuffer == old(readBuffer)
    {
      if 0 < readSize && 0 < |written| {
        NoReads(loop.posted, 0, false);
        var num := if readSize < |written| then readSize else |written|;
        var buffer: array<Byte> := readBuffer;
        ghost var was := written;
        var i := 0;
        while i < num
          invariant 0 <= i <= num <= |was| && num <= buffer.Length
          invariant written == was[i..] && buffer[..i] == was[..i]
          invariant unchanged(`flags) && unchanged(`readSize) && unchanged(`readBuffer)
          invariant unchanged(`service) && unchanged(`loop)
        {
          buffer[i] := written[0];
          written := written[1..];
          i := i + 1;
        }
        readSize := 0;
        service := service + [ReadPost(false, buffer, num)];
        loop := Matched(loop);
      }
    }

    method AsyncOpen() returns (ok: bool)
      requires Matches()
      modifies this
      ensures Matches() && ok == Allowed(old(loop), Call.AsyncOpen) && loop == Apply(old(loop), Call.AsyncOpen)
      ensures readBuffer == old(readBuffer)
    {
      if !flags.IsClosed() { return false; }
      ok := true;
      flags := flags.(opening := true);
      service := service + [OpenPost];
      loop := Apply(loop, Call.AsyncOpen);
    }

    method Close()
      requires Matches()
      modifies this
      ensures Matches() && loop == DoClose(old(loop)) && readBuffer == old(readBuffer)
    {
      written := [];
      if 0 < readSize {
        readSize := 0;
        service := service + [ReadPost(true, readBuffer, 0)];
      }
      loop := DoClose(loop);
    }

    method AsyncClose() returns (ok: bool)
      requires Matches()
      modifies this
      ensures Matches() && ok == Allowed(old(loop), Call.AsyncClose) && loop == Apply(old(loop), Call.AsyncClose)
    {
      if !flags.CanClose() { return false; }
      ok := true;
      Close();
      flags := flags.(closing := true).CheckForClose();
      loop := loop.(flags := flags);
    }

    method AsyncRead(buffer: array<Byte>, max: nat) returns (ok: bool)
      requires Matches() && Valid(loop) && max <= buffer.Length
      modifies this, buffer
      ensures Matches() && ok == Allowed(old(loop), Call.AsyncRead(max))
      ensures loop == Apply(old(loop), Call.AsyncRead(max))
      ensures readBuffer == if ok then buffer else old(readBuffer)
    {
      if max < 1 || !flags.CanRead() { return false; }
      ok := true;
      NoReads(loop.posted, 0, false);
      flags := flags.(reading := true);
      readSize, readBuffer := max, buffer;
      loop := loop.(flags := flags, readSize := max, asked := max);
      CheckForReadDispatch();
    }

    method Push(data: array<Byte>, count: nat)
      requires count <= data.Length
      modifies this`written
      ensures written == old(written) + data[..count]
    {
      var i := 0;
      while i < count
        invariant 0 <= i <= count && written == old(written) + data[..i]
      {
        written := written + [data[i]];
        i := i + 1;
      }
    }

    method AsyncWrite(data: array<Byte>, count: nat) returns (ok: bool)
      requires Matches() && Valid(loop) && count <= data.Length && data != readBuffer
      modifies this, readBuffer
      ensures Matches() && readBuffer == old(readBuffer)
      ensures ok == Allowed(old(loop), Call.AsyncWrite(data[..count]))
      ensures loop == Apply(old(loop), Call.AsyncWrite(data[..count]))
    {
      if count < 1 || !flags.CanWrite() { return false; }
      ok := true;
      Push(data, count);
      flags := flags.(writing := true);
      service := service + [WritePost];
      loop := loop.(flags := flags, written := written,
                    posted := loop.posted + [WriteDone], sent := loop.sent + data[..count]);
      CountSnoc(old(loop).posted, WriteDone);
      CheckForReadDispatch();
    }

    /** Runs the oldest posted completion, as far as the layer itself is concerned. */
    method RunNext() returns (p: Posted)
      requires Matches() && Valid(loop) && service != []
      modifies this
      ensures Matches() && p == old(service)[0] && Same(p, old(loop).posted[0])
      ensures loop == Apply(old(loop), Call.RunNext) && readBuffer == old(readBuffer)
    {
      CompletionsAreDue(loop);
      p := service[0];
      service := service[1..];
      ghost var c := loop.posted[0];
      var closing := flags.closing;
      var e := match p
        case OpenPost => OpenCallback(false)
        case WritePost => WriteCallback(false)
        case ReadPost(failed, _, _) => ReadCallback(failed);
      flags := Step(flags, e);
      ghost var next := loop.(flags := flags, posted := loop.posted[1..]);
      if p.OpenPost? && closing {
        loop := next;
        Close();
      } else {
        loop := Apply(loop, Call.RunNext);
      }
    }
  }
}
