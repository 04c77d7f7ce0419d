/** A monitor that writes a buffer in blocks of at most 4096 octets, each on the completion of
    the one before, and one that checks what arrives against what it expects. */
module BulkTransfer {
  import opened Octets
  import opened PhysicalLayers
  import opened Loopback

  const BLOCK := 4096
  const READ_SIZE := 512

  // ---- One monitor ----

  class MockPhysicalLayerMonitor {
    const readBuffer: array<Byte>
    var writeBuffer: Bytes
    var bytesWritten: nat
    var lastWriteSize: nat
    var expected: Bytes
    var bytesRead: nat
    var numReads: nat

    constructor ()
      ensures Writer() == Sending([], 0, 0) && Reader() == Receiving([], 0)
      ensures fresh(readBuffer) && readBuffer.Length == READ_SIZE
    {
      readBuffer := new Byte[READ_SIZE];
      writeBuffer, bytesWritten, lastWriteSize, expected, bytesRead, numReads := [], 0, 0, [], 0, 0;
    }

    function Writer(): Sending
      reads this
    {
      Sending(writeBuffer, bytesWritten, lastWriteSize)
    }

    function Reader(): Receiving
      reads this
    {
      Receiving(expected, bytesRead)
    }

    /** The octets passed to AsyncWrite, None where no write is started. */
    method TransmitNext() returns (block: Option<Bytes>)
      modifies this`lastWriteSize
      ensures block == Next(old(Writer())).0 && Writer() == Next(old(Writer())).1
    {
      block := None;
      if |writeBuffer| > bytesWritten {
        var remaining := |writeBuffer| - bytesWritten;
        var toWrite := if BLOCK < remaining then BLOCK else remaining;
        assert writeBuffer[bytesWritten..bytesWritten + toWrite] == writeBuffer[bytesWritten..][..toWrite];
        block := Some(writeBuffer[bytesWritten..bytesWritten + toWrite]);
        lastWriteSize := toWrite;
      }
    }

    method WriteData(data: Bytes) returns (block: Option<Bytes>)
      modifies this`writeBuffer, this`bytesWritten, this`lastWriteSize
      ensures block == Next(Sending(data, 0, old(lastWriteSize))).0
      ensures Writer() == Next(Sending(data, 0, old(lastWriteSize))).1
    {
      bytesWritten := 0;
      writeBuffer := data;
      block := TransmitNext();
    }

    method OnSendSuccess() returns (block: Option<Bytes>)
      modifies this`bytesWritten, this`lastWriteSize
      ensures block == Acknowledged(old(Writer())).0 && Writer() == Acknowledged(old(Writer())).1
    {
      bytesWritten := bytesWritten + lastWriteSize;
      block := TransmitNext();
    }

    method ExpectData(data: Bytes)
      modifies this`expected, this`bytesRead, this`numReads
      ensures Reader() == Receiving(data, 0) && numReads == 0
    {
      bytesRead, numReads, expected := 0, 0, data;
    }

    /** False where the check for excess or for corruption fails. */
    method OnReceive(data: Bytes) returns (ok: bool)
      modifies this`bytesRead, this`numReads
      ensures ok == Check(old(Reader()), data).Some? && numReads == old(numReads) + 1
      ensures if ok then Reader() == Check(old(Reader()), data).value else Reader() == old(Reader())
    {
      numReads := numReads + 1;
      if |expected| < bytesRead + |data| { return false; }
      if expected[bytesRead..bytesRead + |data|] != data { return false; }
      bytesRead := bytesRead + |data|;
      ok := true;
    }
  }

  datatype Sending = Sending(buffer: Bytes, written: nat, last: nat)

  datatype Receiving = Receiving(expected: Bytes, read: nat)

  function Next(s: Sending): (Option<Bytes>, Sending) {
    if s.written < |s.buffer| then
      var size := if |s.buffer| - s.written < BLOCK then |s.buffer| - s.written else BLOCK;
      (Some(s.buffer[s.written..][..size]), s.(last := size))
    else (None, s)
  }

  function Acknowledged(s: Sending): (Option<Bytes>, Sending) {
    Next(s.(written := s.written + s.last))
  }

  function Check(r: Receiving, data: Bytes): Option<Receiving> {
    if |r.expected| < r.read + |data| || r.expected[r.read..][..|data|] != data then None
    else Some(r.(read := r.read + |data|))
  }

  /** A block is the next 4096 octets, or all there are; behind the last one none is written. */
  lemma NextBlock(s: Sending)
    requires s.written <= |s.buffer|
    ensures var (block, next) := Next(s);
            && (block.None? <==> s.written == |s.buffer|) && (block.None? ==> next == s)
            && (block.Some? ==>
                  && s.buffer[..s.written] + block.value <= s.buffer && 0 < |block.value| <= 4096
                  && (|block.value| == 4096 || s.buffer[..s.written] + block.value == s.buffer)
                  && next == Sending(s.buffer, s.written, |block.value|))
  {
    var block := Next(s).0;
    if block.Some? {
      var n := |block.value|;
      assert s.buffer[..s.written] + block.value == s.buffer[..s.written + n];
      assert s.buffer[..|s.buffer|] == s.buffer;
    }
  }

  /** The check passes exactly when what was read so far and what arrived go on being the
      front of what is expected. */
  lemma CheckIff(r: Receiving, data: Bytes)
    requires r.read <= |r.expected|
    ensures Check(r, data).Some? <==> r.expected[..r.read] + data <= r.expected
    ensures Check(r, data).Some? ==> Check(r, data).value == Receiving(r.expected, r.read + |data|)
  {
    var n := r.read + |data|;
    if n <= |r.expected| {
      assert r.expected[..n] == r.expected[..r.read] + r.expected[r.read..][..|data|];
      if r.expected[..r.read] + data <= r.expected {
        assert r.expected[..n] == r.expected[..r.read] + data;
        assert r.expected[..n][r.read..] == data && r.expected[r.read..][..|data|] == r.expected[..n][r.read..];
      }
    }
  }

  // ---- Two monitors and a channel ----

  /** The channel holds what was written and not yet delivered; failed once a check has. */
  datatype Transfer = Transfer(sender: Sending, writing: bool, channel: Bytes,
    receiver: Receiving, received: Bytes, failed: bool)

  /** The channel may complete a write, or deliver any number of its octets up to the size of
      the read. */
  datatype Move = Completed | Delivered(count: nat)

  predicate Enabled(t: Transfer, m: Move) {
    match m
    case Completed => t.writing
    case Delivered(n) => 1 <= n <= |t.channel| && n <= READ_SIZE
  }

  function Wrote(t: Transfer, r: (Option<Bytes>, Sending)): Transfer {
    t.(sender := r.1, writing := r.0.Some?, channel := if r.0.Some? then t.channel + r.0.value else t.channel)
  }

  /** WriteData and ExpectData of the same octets. */
  function Start(data: Bytes, last: nat): Transfer {
    Wrote(Transfer(Sending(data, 0, last), false, [], Receiving(data, 0), [], false), Next(Sending(data, 0, last)))
  }

  function Advance(t: Transfer, m: Move): Transfer
    requires Enabled(t, m)
  {
    match m
    case Completed => Wrote(t, Acknowledged(t.sender))
    case Delivered(n) =>
      var c := Check(t.receiver, t.channel[..n]);
      t.(channel := t.channel[n..], received := t.received + t.channel[..n],
         receiver := if c.Some? then c.value else t.receiver, failed := t.failed || c.None?)
  }

  predicate EnabledAll(t: Transfer, ms: seq<Move>)
    decreases |ms|
  {
    ms == [] || (Enabled(t, ms[0]) && EnabledAll(Advance(t, ms[0]), ms[1..]))
  }

  function Proceed(t: Transfer, ms: seq<Move>): Transfer
    requires EnabledAll(t, ms)
    decreases |ms|
  {
    if ms == [] then t else Proceed(Advance(t, ms[0]), ms[1..])
  }

  /** How much of the buffer was handed over so far. */
  function Handed(t: Transfer): nat { t.sender.written + if t.writing then t.sender.last else 0 }

  /** What arrived and what is on its way are the part of the buffer written so far, no check
      has failed, and the sender stops only at the end. */
  ghost predicate InOrder(t: Transfer) {
    && Handed(t) <= |t.sender.buffer|
    && t.received + t.channel == t.sender.buffer[..Handed(t)]
    && t.receiver.expected == t.sender.buffer && t.receiver.read == |t.received|
    && (if t.writing then 1 <= t.sender.last <= BLOCK else t.sender.written == |t.sender.buffer|)
    && !t.failed
  }

  function Measure(t: Transfer): int {
    2 * (|t.sender.buffer| - Handed(t)) + |t.channel| + Bit(t.writing)
  }

  lemma NextInOrder(t: Transfer)
    requires !t.writing && !t.failed && t.sender.written <= |t.sender.buffer|
    requires t.received + t.channel == t.sender.buffer[..t.sender.written]
    requires t.receiver.expected == t.sender.buffer && t.receiver.read == |t.received|
    ensures var u := Wrote(t, Next(t.sender));
            InOrder(u) && Measure(u) <= Measure(t) && u.sender.buffer == t.sender.buffer
  {
    var s := t.sender;
    if s.written < |s.buffer| {
      var size := if |s.buffer| - s.written < BLOCK then |s.buffer| - s.written else BLOCK;
      var block := s.buffer[s.written..][..size];
      assert t.received + (t.channel + block) == t.received + t.channel + block;
      assert s.buffer[..s.written] + block == s.buffer[..s.written + size];
    }
  }

  lemma StartInOrder(data: Bytes, last: nat)
    ensures InOrder(Start(data, last)) && Start(data, last).sender.buffer == data
    ensures Measure(Start(data, last)) <= 2 * |data|
  {
    NextInOrder(Transfer(Sending(data, 0, last), false, [], Receiving(data, 0), [], false));
  }

  /** The front of what is on its way is what comes next in the buffer. */
  lemma PieceIsNext(buffer: Bytes, h: nat, got: Bytes, channel: Bytes, n: nat)
    requires h <= |buffer| && got + channel == buffer[..h] && n <= |channel|
    ensures |got| + n <= |buffer| && buffer[|got|..][..n] == channel[..n]
    ensures got + channel[..n] + channel[n..] == buffer[..h]
  {
    var all := got + channel;
    assert |all| == h && forall i :: 0 <= i < n ==> all[|got| + i] == channel[i] && buffer[|got| + i] == all[|got| + i];
    assert channel[..n] + channel[n..] == channel;
    assert got + channel[..n] + channel[n..] == got + (channel[..n] + channel[n..]);
  }

  lemma AdvanceInOrder(t: Transfer, m: Move)
    requires InOrder(t) && Enabled(t, m)
    ensures InOrder(Advance(t, m)) && Measure(Advance(t, m)) < Measure(t)
    ensures Advance(t, m).sender.buffer == t.sender.buffer
  {
    match m
    case Completed =>
      NextInOrder(t.(writing := false, sender := t.sender.(written := t.sender.written + t.sender.last)));
    case Delivered(n) =>
      PieceIsNext(t.sender.buffer, Handed(t), t.received, t.channel, n);
  }

  /** Whatever the channel does, what arrived is a prefix of the buffer, the receiver never
      complains, and there are only so many moves. */
  lemma {:induction false} TransferIsSafe(t: Transfer, ms: seq<Move>)
    requires InOrder(t) && EnabledAll(t, ms)
    ensures var u := Proceed(t, ms);
            && InOrder(u) && u.sender.buffer == t.sender.buffer && u.received <= t.sender.buffer
            && |ms| + Measure(u) <= Measure(t)
    decreases |ms|
  {
    if ms != [] {
      AdvanceInOrder(t, ms[0]);
      TransferIsSafe(Advance(t, ms[0]), ms[1..]);
    }
    var u := Proceed(t, ms);
    assert u.received == (u.received + u.channel)[..|u.received|];
  }

  /** When the channel can do no more, everything expected was received. */
  lemma StuckIsComplete(t: Transfer)
    requires InOrder(t) && forall m :: !Enabled(t, m)
    ensures t.received == t.sender.buffer && t.receiver.read == |t.receiver.expected|
  {
    assert !Enabled(t, Completed) && !Enabled(t, Delivered(1));
    assert t.received + [] == t.received;
  }

  /** The transfer of any data over any such channel: at most two moves an octet, every
      state safe, and no end before everything was received. */
  lemma TransferCompletes(data: Bytes, last: nat, ms: seq<Move>)
    requires EnabledAll(Start(data, last), ms)
    ensures |ms| <= 2 * |data|
    ensures var u := Proceed(Start(data, last), ms);
            !u.failed && u.received <= data && ((forall m :: !Enabled(u, m)) ==> u.received == data)
  {
    StartInOrder(data, last);
    TransferIsSafe(Start(data, last), ms);
    var u := Proceed(Start(data, last), ms);
    if forall m :: !Enabled(u, m) { StuckIsComplete(u); }
  }

  // ---- One monitor on a loopback ----

  /** The loopback is such a channel: octets in flight, then octets buffered. */
  ghost predicate Carries(l: Loop, t: Transfer) {
    && Valid(l) && l.flags == Flags(true, false, true, t.writing, false) && l.asked == READ_SIZE
    && t.channel == InFlight(l.posted) + l.written && l.received == t.received
  }

  lemma MatchedCarries(l: Loop)
    ensures InFlight(Matched(l).posted) + Matched(l).written == InFlight(l.posted) + l.written
    ensures Matched(l).received == l.received
  {
    if 0 < l.readSize && l.written != [] {
      var num := if l.readSize < |l.written| then l.readSize else |l.written|;
      CountSnoc(l.posted, ReadDone(false, l.written[..num]));
      Regroup([], InFlight(l.posted), l.written, num);
      assert [] + InFlight(l.posted) + l.written == InFlight(l.posted) + l.written;
      assert [] + (InFlight(l.posted) + l.written[..num]) == InFlight(l.posted) + l.written[..num];
    }
  }

  function WriteBlock(l: Loop, block: Option<Bytes>): Loop {
    if block.Some? then Apply(l, AsyncWrite(block.value)) else l
  }

  lemma WriteCarries(l: Loop, t: Transfer)
    requires Carries(l, t) && !t.writing
    ensures var r := Next(t.sender); Carries(WriteBlock(l, r.0), Wrote(t, r))
  {
    var r := Next(t.sender);
    if r.0.Some? {
      var block := r.0.value;
      var w := l.(flags := Step(l.flags, Write), written := l.written + block,
                  posted := l.posted + [WriteDone], sent := l.sent + block);
      ApplyKeeps(l, AsyncWrite(block));
      CountSnoc(l.posted, WriteDone);
      MatchedCarries(w);
      assert InFlight(l.posted) + [] == InFlight(l.posted);
      assert InFlight(l.posted) + (l.written + block) == InFlight(l.posted) + l.written + block;
    }
  }

  /** The move that running the next completion amounts to. */
  function MoveOf(c: Callback): Move {
    if c.ReadDone? then Delivered(|c.data|) else Completed
  }

  /** The next completion runs and its handler starts the next write, or the next read. */
  function React(l: Loop, t: Transfer): Loop
    requires l.posted != []
  {
    var next := Apply(l, RunNext);
    if l.posted[0].ReadDone? then Apply(next, AsyncRead(READ_SIZE)) else WriteBlock(next, Acknowledged(t.sender).0)
  }

  lemma CompletionCarries(l: Loop, t: Transfer)
    requires Carries(l, t) && l.posted != [] && l.posted[0].WriteDone?
    ensures Enabled(t, Completed) && Carries(React(l, t), Advance(t, Completed))
  {
    RunNextKeeps(l);
    assert [] + InFlight(l.posted[1..]) == InFlight(l.posted[1..]);
    var idle := t.(writing := false, sender := t.sender.(written := t.sender.written + t.sender.last));
    WriteCarries(Apply(l, RunNext), idle);
  }

  lemma FrontIsNext(l: Loop, t: Transfer)
    requires Carries(l, t) && l.posted != [] && l.posted[0].ReadDone?
    ensures var d := l.posted[0].data;
            && Enabled(t, Delivered(|d|)) && t.channel[..|d|] == d
            && t.channel[|d|..] == InFlight(l.posted[1..]) + l.written
            && Apply(l, RunNext).received == l.received + d
  {
    var d := l.posted[0].data;
    assert Proper(l.posted[0], l.asked, false);
    assert t.channel == d + (InFlight(l.posted[1..]) + l.written);
  }

  lemma DeliveryCarries(l: Loop, t: Transfer)
    requires Carries(l, t) && l.posted != [] && l.posted[0].ReadDone?
    ensures var m := MoveOf(l.posted[0]); Enabled(t, m) && Carries(React(l, t), Advance(t, m))
  {
    FrontIsNext(l, t);
    var next := Apply(l, RunNext);
    RunNextKeeps(l);
    assert Proper(l.posted[0], l.asked, false);
    assert next.flags == Flags(true, false, false, t.writing, false);
    assert next.posted == l.posted[1..] && next.written == l.written;
    ReadCarries(next, Advance(t, MoveOf(l.posted[0])));
  }

  lemma ReadCarries(l: Loop, t: Transfer)
    requires Valid(l) && l.flags == Flags(true, false, false, t.writing, false)
    requires t.channel == InFlight(l.posted) + l.written && l.received == t.received
    ensures Carries(Apply(l, AsyncRead(READ_SIZE)), t)
  {
    ReadKeeps(l, READ_SIZE);
    MatchedCarries(l.(flags := Step(l.flags, Read), readSize := READ_SIZE, asked := READ_SIZE));
  }

  /** Where the loopback has no completion left, the channel can do no more. */
  lemma IdleIsStuck(l: Loop, t: Transfer)
    requires Carries(l, t) && l.posted == []
    ensures forall m :: !Enabled(t, m)
  {
    assert t.channel == [];
  }

  /** The loopback once opened, with the first read waiting. */
  function Opened(): Loop { Apply(Apply(Apply(FRESH, AsyncOpen), RunNext), AsyncRead(READ_SIZE)) }

  function Begun(data: Bytes): Loop { WriteBlock(Opened(), Next(Sending(data, 0, 0)).0) }

  lemma BegunCarries(data: Bytes)
    ensures Carries(Begun(data), Start(data, 0)) && InOrder(Start(data, 0)) && Start(data, 0).sender.buffer == data
  {
    hide Opened, Apply, Measure, InOrder;
    OpenedWaits();
    WriteCarries(Opened(), Transfer(Sending(data, 0, 0), false, [], Receiving(data, 0), [], false));
    StartInOrder(data, 0);
  }

  lemma OpenedWaits()
    ensures Valid(Opened())
    ensures Opened() == Loop(Flags(true, false, true, false, false), [], READ_SIZE, READ_SIZE, [], [], [])
    ensures var a := Apply(FRESH, AsyncOpen);
            && a == Loop(Flags(false, true, false, false, false), [], 0, 0, [OpenDone], [], [])
            && Apply(a, RunNext) == Loop(Flags(true, false, false, false, false), [], 0, 0, [], [], [])
  {
    var a := Apply(FRESH, AsyncOpen);
    assert [] + [OpenDone] == [OpenDone] && [OpenDone][1..] == [];
    assert a == Loop(Flags(false, true, false, false, false), [], 0, 0, [OpenDone], [], []);
    assert Apply(a, RunNext) == Loop(Flags(true, false, false, false, false), [], 0, 0, [], [], []);
  }

  lemma ReactAdvances(l: Loop, t: Transfer)
    requires Carries(l, t) && InOrder(t) && l.posted != []
    ensures var m := MoveOf(l.posted[0]);
            && Enabled(t, m) && Carries(React(l, t), Advance(t, m)) && InOrder(Advance(t, m))
            && 0 <= Measure(Advance(t, m)) < Measure(t) && Advance(t, m).sender.buffer == t.sender.buffer
  {
    assert l.posted[0].ReadDone? || l.posted[0].WriteDone?;
    if l.posted[0].ReadDone? { DeliveryCarries(l, t); } else { CompletionCarries(l, t); }
    AdvanceInOrder(t, MoveOf(l.posted[0]));
  }

  lemma IdleIsComplete(l: Loop, t: Transfer)
    requires Carries(l, t) && InOrder(t) && l.posted == []
    ensures t.received == l.received == t.sender.buffer
  {
    IdleIsStuck(l, t);
    StuckIsComplete(t);
  }

  // ---- The two objects ----

  /** Between completions the objects are where the transfer t is. */
  ghost predicate At(layer: LoopbackPhysicalLayerAsync, monitor: MockPhysicalLayerMonitor, t: Transfer)
    reads layer, layer.readBuffer, monitor
  {
    && layer.Matches() && Carries(layer.loop, t) && InOrder(t)
    && monitor.Writer() == t.sender && monitor.Reader() == t.receiver
  }

  /** AsyncWrite of the block a monitor asks for. */
  method PassDown(layer: LoopbackPhysicalLayerAsync, block: Option<Bytes>)
    requires layer.Matches() && Valid(layer.loop)
    modifies layer, layer.readBuffer
    ensures layer.Matches() && layer.loop == WriteBlock(old(layer.loop), block)
    ensures layer.readBuffer == old(layer.readBuffer)
  {
    if block.Some? {
      var n := |block.value|;
      var a := new Byte[n](i requires 0 <= i < n => block.value[i]);
      assert a[..n] == block.value;
      var ok := layer.AsyncWrite(a, n);
    }
  }

  lemma NextCallback(l: Loop, t: Transfer)
    requires Carries(l, t) && l.posted != []
    ensures Valid(l) && Valid(Apply(l, RunNext)) && !l.posted[0].OpenDone?
    ensures l.posted[0].ReadDone? ==> t.channel[..|l.posted[0].data|] == l.posted[0].data
  {
    RunNextKeeps(l);
    if l.posted[0].ReadDone? { FrontIsNext(l, t); }
  }

  /** The next completion runs, and the monitor answers it with its next write or read. */
  method Turn(layer: LoopbackPhysicalLayerAsync, monitor: MockPhysicalLayerMonitor, ghost t: Transfer)
    requires At(layer, monitor, t) && layer.service != [] && monitor.readBuffer.Length == READ_SIZE
    requires layer.readBuffer == monitor.readBuffer
    modifies layer, monitor, monitor.readBuffer
    ensures layer.readBuffer == monitor.readBuffer
    ensures |old(layer.loop).posted| > 0
    ensures var m := MoveOf(old(layer.loop).posted[0]);
            Enabled(t, m) && At(layer, monitor, Advance(t, m)) && 0 <= Measure(Advance(t, m)) < Measure(t)
            && Advance(t, m).sender.buffer == t.sender.buffer
  {
    hide Carries, InOrder, Measure, Apply, Valid, Matched;
    ghost var l := layer.loop;
    NextCallback(l, t);
    ReactAdvances(l, t);
    var p := layer.RunNext();
    if p.WritePost? {
      var block := monitor.OnSendSuccess();
      PassDown(layer, block);
    } else {
      var ok := monitor.OnReceive(p.buffer[..p.count]);
      ok := layer.AsyncRead(monitor.readBuffer, READ_SIZE);
    }
    assert layer.loop == React(l, t);
  }

  /** A monitor that opens a loopback, expects some data and writes them: it receives them
      all, no check fails on the way, and then nothing is left to run. */
  method LoopbackTransfer(data: Bytes) returns (layer: LoopbackPhysicalLayerAsync, monitor: MockPhysicalLayerMonitor)
    ensures layer.service == [] && layer.loop.received == data
    ensures monitor.expected == data && monitor.bytesRead == |data| && monitor.bytesWritten == |data|
  {
    hide *;
    layer := new LoopbackPhysicalLayerAsync();
    monitor := new MockPhysicalLayerMonitor();
    Begin(layer, monitor, data);
    ghost var t := Start(data, 0);
    while layer.service != []
      invariant At(layer, monitor, t) && t.sender.buffer == data
      invariant fresh(monitor) && fresh(monitor.readBuffer) && monitor.readBuffer.Length == READ_SIZE
      invariant fresh(layer) && layer.readBuffer == monitor.readBuffer
      decreases Measure(t)
    {
      NextIsPosted(layer, monitor, t);
      ghost var m := MoveOf(layer.loop.posted[0]);
      Turn(layer, monitor, t);
      t := Advance(t, m);
    }
    Ended(layer, monitor, t);
  }

  lemma Ended(layer: LoopbackPhysicalLayerAsync, monitor: MockPhysicalLayerMonitor, t: Transfer)
    requires At(layer, monitor, t) && layer.service == []
    ensures layer.loop.received == monitor.expected == t.sender.buffer
    ensures monitor.bytesRead == |t.sender.buffer| && monitor.bytesWritten == |t.sender.buffer|
  {
    assert layer.loop.posted == [];
    IdleIsComplete(layer.loop, t);
  }

  lemma NextIsPosted(layer: LoopbackPhysicalLayerAsync, monitor: MockPhysicalLayerMonitor, t: Transfer)
    requires At(layer, monitor, t) && layer.service != []
    ensures layer.loop.posted != []
  {
  }

  /** The open, its completion with the first read, and WriteData. */
  method Begin(layer: LoopbackPhysicalLayerAsync, monitor: MockPhysicalLayerMonitor, data: Bytes)
    requires layer.Matches() && layer.loop == FRESH && layer.readBuffer == null
    requires monitor.Writer() == Sending([], 0, 0) && monitor.readBuffer.Length == READ_SIZE
    modifies layer, monitor, monitor.readBuffer
    ensures At(layer, monitor, Start(data, 0)) && Start(data, 0).sender.buffer == data
    ensures layer.readBuffer == monitor.readBuffer
  {
    hide Apply, Carries, InOrder, Valid, Matched, WriteBlock, At, Next, Start, Allowed;
    assert Opening() == Apply(FRESH, AsyncOpen) && JustOpen() == Apply(Opening(), RunNext);
    assert Opened() == Apply(JustOpen(), AsyncRead(READ_SIZE));
    hide Opening, JustOpen, Opened;
    OpeningIsValid();
    JustOpenIsValid();
    OpenedWaits();
    var ok := layer.AsyncOpen();
    var p := layer.RunNext();
    ok := layer.AsyncRead(monitor.readBuffer, READ_SIZE);
    monitor.ExpectData(data);
    var block := monitor.WriteData(data);
    PassDown(layer, block);
    HasBegun(layer, monitor, data);
  }

  /** The loopback while it opens, and just opened. */
  function Opening(): Loop { Apply(FRESH, AsyncOpen) }

  function JustOpen(): Loop { Apply(Opening(), RunNext) }

  lemma OpeningIsValid()
    ensures Valid(Opening())
    ensures Opening().posted == [OpenDone]
  {
    hide Valid;
    OpenedWaits();
    FreshIsValid();
    OpenCloseKeeps(FRESH);
  }

  lemma JustOpenIsValid()
    ensures Valid(JustOpen())
    ensures Allowed(JustOpen(), AsyncRead(READ_SIZE))
  {
    hide Valid;
    OpenedWaits();
    OpeningIsValid();
    RunNextKeeps(Opening());
  }

  lemma HasBegun(layer: LoopbackPhysicalLayerAsync, monitor: MockPhysicalLayerMonitor, data: Bytes)
    requires layer.Matches() && layer.loop == WriteBlock(Opened(), Next(Sending(data, 0, 0)).0)
    requires monitor.Writer() == Next(Sending(data, 0, 0)).1 && monitor.Reader() == Receiving(data, 0)
    ensures At(layer, monitor, Start(data, 0)) && Start(data, 0).sender.buffer == data
  {
    BegunCarries(data);
  }
}
