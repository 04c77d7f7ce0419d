/** The terminal's output: text cut into chunks, queued, and written one chunk at a time as
    the callbacks of the physical layer allow. */
module SendQueue {
  import opened Octets
  import opened PhysicalLayers

  // ---- Chunks ----

  function Chunks(data: Bytes, size: nat): (chunks: seq<Bytes>)
    requires 0 < size
    decreases |data|
  {
    if |data| <= size then [data] else [data[..size]] + Chunks(data[size..], size)
  }

  ghost predicate Fits(chunks: seq<Bytes>, size: nat) {
    forall i :: 0 <= i < |chunks| ==> |chunks[i]| <= size
  }

  ghost predicate NoneEmpty(chunks: seq<Bytes>) {
    forall i :: 0 <= i < |chunks| ==> chunks[i] != []
  }

  /** The chunks are the data, each fits, all but the last are full, and an empty one comes
      from empty data only. */
  lemma {:induction false} ChunksCover(data: Bytes, size: nat)
    requires 0 < size
    ensures var c := Chunks(data, size);
            && Flatten(c) == data && Fits(c, size) && 0 < |c|
            && (NoneEmpty(c) <==> data != [])
            && forall i :: 0 <= i < |c| - 1 ==> |c[i]| == size
    decreases |data|
  {
    if |data| <= size {
      assert Flatten([data]) == data + Flatten([]);
    } else {
      ChunksCover(data[size..], size);
      var rest := Chunks(data[size..], size);
      assert Chunks(data, size)[1..] == rest;
      assert data == data[..size] + data[size..];
    }
  }

  // ---- The terminal and its layer ----

  /** wire and queued count from the last time the layer went down: what was handed to
      AsyncWrite, and what was passed to QueueSend. */
  datatype Link = Link(flags: Flags, queue: seq<Bytes>, wire: Bytes, queued: Bytes)

  /** Threw: an exception leaves the call, with the state as it then is. */
  datatype Outcome = Done(link: Link) | Threw(link: Link)

  function SendFront(k: Link): Outcome {
    if k.flags.CanWrite() && k.queue != [] then
      var c, rest := k.queue[0], k.queue[1..];
      // AsyncWrite refuses to write nothing
      if c == [] then Threw(k.(queue := rest))
      else Done(Link(Step(k.flags, Write), rest, k.wire + c, k.queued))
    else Done(k)
  }

  function Queue(k: Link, data: Bytes, size: nat): Outcome
    requires 0 < size
  {
    SendFront(Link(k.flags, k.queue + Chunks(data, size), k.wire, k.queued + data))
  }

  function QueueAll(k: Link, texts: seq<Bytes>, size: nat): Outcome
    requires 0 < size
    decreases |texts|
  {
    if |texts| == 0 then Done(k)
    else match Queue(k, texts[0], size)
      case Done(next) => QueueAll(next, texts[1..], size)
      case Threw(next) => Threw(next)
  }

  /** _Down, called when a close completes. */
  function AfterClose(k: Link): Link {
    if k.flags.CloseCompletes() then Link(k.flags.CheckForClose(), [], [], []) else k
  }

  datatype Input =
    | QueueSend(data: Bytes)
    | AsyncOpen
    | AsyncClose
    | Opened(failed: bool)
    | ReadDone(failed: bool, replies: seq<Bytes>)
    | Written(failed: bool)

  const PROMPT: Bytes := [CR, LF, 0x3E]

  function EventOf(i: Input): Option<Event> {
    match i
    case QueueSend(_) => None
    case AsyncOpen => Some(Open)
    case AsyncClose => Some(Close)
    case Opened(failed) => Some(OpenCallback(failed))
    case ReadDone(failed, _) => Some(ReadCallback(failed))
    case Written(failed) => Some(WriteCallback(failed))
  }

  predicate LegalInput(k: Link, i: Input) {
    EventOf(i).Some? ==> Legal(k.flags, EventOf(i).value)
  }

  /** The flags when a callback is through, before a completed close is noticed. */
  function Returned(f: Flags, failed: bool): Flags {
    if failed && f.CanClose() then f.(closing := true) else f
  }

  function ReadAgain(o: Outcome): Outcome {
    match o
    case Threw(_) => o
    case Done(k) => if k.flags.CanRead() then Done(k.(flags := Step(k.flags, Read))) else o
  }

  function Handle(k: Link, i: Input, banner: Bytes, size: nat): Outcome
    requires 0 < size
  {
    if !LegalInput(k, i) then Threw(k)
    else match i
      case QueueSend(data) => Queue(k, data, size)
      case AsyncOpen => Done(k.(flags := Step(k.flags, Open)))
      case AsyncClose => Done(AfterClose(k.(flags := k.flags.(closing := true))))
      case Opened(failed) =>
        var up := k.(flags := Step(k.flags, OpenCallback(failed)));
        // a reader starts reading before the banner and the prompt go out
        if GoesUp(k.flags, OpenCallback(failed))
        then QueueAll(up.(flags := Step(up.flags, Read)), [banner, PROMPT], size)
        else Done(up)
      case ReadDone(failed, replies) =>
        var g := k.flags.(reading := false);
        if failed || g.closing then Done(AfterClose(k.(flags := Returned(g, failed))))
        else ReadAgain(QueueAll(k.(flags := g), replies, size))
      case Written(failed) =>
        var g := k.flags.(writing := false);
        if failed || g.closing then Done(AfterClose(k.(flags := Returned(g, failed))))
        else SendFront(k.(flags := g))
  }

  /** A run goes on after an exception: the layer and the queue stay as they are. */
  function Run(k: Link, inputs: seq<Input>, banner: Bytes, size: nat): Link
    requires 0 < size
    decreases |inputs|
  {
    if inputs == [] then k else Run(Handle(k, inputs[0], banner, size).link, inputs[1..], banner, size)
  }

  // ---- What holds whatever is queued ----

  /** Nothing queued is lost, doubled or reordered, and every chunk fits the buffer. */
  ghost predicate Conserved(k: Link, size: nat) {
    k.flags.Consistent() && k.wire + Flatten(k.queue) == k.queued && Fits(k.queue, size)
  }

  lemma SendConserves(k: Link, size: nat)
    requires Conserved(k, size)
    ensures Conserved(SendFront(k).link, size)
  {
    if k.flags.CanWrite() && k.queue != [] {
      var c, rest := k.queue[0], k.queue[1..];
      assert k.wire + (c + Flatten(rest)) == (k.wire + c) + Flatten(rest);
      if c == [] { assert c + Flatten(rest) == Flatten(rest); }
    }
  }

  lemma QueueConserves(k: Link, data: Bytes, size: nat)
    requires 0 < size && Conserved(k, size)
    ensures Conserved(Queue(k, data, size).link, size)
  {
    ChunksCover(data, size);
    FlattenAppend(k.queue, Chunks(data, size));
    assert k.wire + (Flatten(k.queue) + data) == (k.wire + Flatten(k.queue)) + data;
    SendConserves(Link(k.flags, k.queue + Chunks(data, size), k.wire, k.queued + data), size);
  }

  lemma {:induction false} QueueAllConserves(k: Link, texts: seq<Bytes>, size: nat)
    requires 0 < size && Conserved(k, size)
    ensures Conserved(QueueAll(k, texts, size).link, size)
    decreases |texts|
  {
    if texts != [] {
      QueueConserves(k, texts[0], size);
      if Queue(k, texts[0], size).Done? { QueueAllConserves(Queue(k, texts[0], size).link, texts[1..], size); }
    }
  }

  lemma HandleConserves(k: Link, i: Input, banner: Bytes, size: nat)
    requires 0 < size && Conserved(k, size)
    ensures Conserved(Handle(k, i, banner, size).link, size)
  {
    if LegalInput(k, i) {
      match i
      case QueueSend(data) => QueueConserves(k, data, size);
      case AsyncOpen =>
      case AsyncClose =>
      case Opened(failed) =>
        var up := k.(flags := Step(k.flags, OpenCallback(failed)));
        if GoesUp(k.flags, OpenCallback(failed)) {
          QueueAllConserves(up.(flags := Step(up.flags, Read)), [banner, PROMPT], size);
        }
      case ReadDone(failed, replies) =>
        var g := k.flags.(reading := false);
        if !failed && !g.closing { QueueAllConserves(k.(flags := g), replies, size); }
      case Written(failed) =>
        var g := k.flags.(writing := false);
        if !failed && !g.closing { SendConserves(k.(flags := g), size); }
    }
  }

  /** In every run, exceptions included: what was handed to the layer since it last went
      down, followed by the queue, is what was passed to QueueSend since, in order. */
  lemma {:induction false} RunConserves(k: Link, inputs: seq<Input>, banner: Bytes, size: nat)
    requires 0 < size && Conserved(k, size)
    ensures Conserved(Run(k, inputs, banner, size), size)
    decreases |inputs|
  {
    if inputs != [] {
      HandleConserves(k, inputs[0], banner, size);
      RunConserves(Handle(k, inputs[0], banner, size).link, inputs[1..], banner, size);
    }
  }

  // ---- What holds when no text is empty ----

  ghost predicate Sendable(k: Link, size: nat) {
    Conserved(k, size) && NoneEmpty(k.queue)
  }

  /** No chunk is empty, and a layer that could take one has nothing waiting. */
  ghost predicate Good(k: Link, size: nat) {
    Sendable(k, size) && (k.flags.CanWrite() ==> k.queue == [])
  }

  lemma QueueIsGood(k: Link, data: Bytes, size: nat)
    requires 0 < size && Sendable(k, size)
    ensures var r := Queue(k, data, size); (r.Done? && Good(r.link, size)) <==> data != []
  {
    QueueConserves(k, data, size);
    ChunksCover(data, size);
    var q := k.queue + Chunks(data, size);
    assert data == [] ==> q[|k.queue|] == [];
    assert k.flags.CanWrite() && data == [] && k.queue != [] ==> q[1..][|k.queue| - 1] == [];
  }

  lemma {:induction false} QueueAllIsGood(k: Link, texts: seq<Bytes>, size: nat)
    requires 0 < size && Sendable(k, size) && NoneEmpty(texts) && (|texts| == 0 ==> Good(k, size))
    ensures var r := QueueAll(k, texts, size); r.Done? && Good(r.link, size)
    decreases |texts|
  {
    if |texts| != 0 {
      QueueIsGood(k, texts[0], size);
      var next := Queue(k, texts[0], size).link;
      assert forall i :: 0 <= i < |texts[1..]| ==> texts[1..][i] == texts[i + 1];
      QueueAllIsGood(next, texts[1..], size);
    }
  }

  ghost predicate Speaks(i: Input, banner: Bytes) {
    match i
    case QueueSend(data) => data != []
    case Opened(_) => banner != []
    case ReadDone(_, replies) => NoneEmpty(replies)
    case _ => true
  }

  /** Only calls that the state of the layer forbids throw, and after every event a writable
      layer has an empty queue. */
  lemma HandleIsGood(k: Link, i: Input, banner: Bytes, size: nat)
    requires 0 < size && Good(k, size) && Speaks(i, banner)
    ensures var r := Handle(k, i, banner, size); Good(r.link, size) && (r.Done? <==> LegalInput(k, i))
  {
    HandleConserves(k, i, banner, size);
    if LegalInput(k, i) {
      match i
      case QueueSend(data) => QueueIsGood(k, data, size);
      case AsyncOpen =>
      case AsyncClose =>
      case Opened(failed) =>
        var up := k.(flags := Step(k.flags, OpenCallback(failed)));
        if GoesUp(k.flags, OpenCallback(failed)) {
          QueueAllIsGood(up.(flags := Step(up.flags, Read)), [banner, PROMPT], size);
        }
      case ReadDone(failed, replies) =>
        var g := k.flags.(reading := false);
        if !failed && !g.closing { QueueAllIsGood(k.(flags := g), replies, size); }
      case Written(failed) =>
    }
  }

  lemma {:induction false} RunIsGood(k: Link, inputs: seq<Input>, banner: Bytes, size: nat)
    requires 0 < size && Good(k, size) && forall i <- inputs :: Speaks(i, banner)
    ensures Good(Run(k, inputs, banner, size), size)
    decreases |inputs|
  {
    if inputs != [] {
      HandleIsGood(k, inputs[0], banner, size);
      RunIsGood(Handle(k, inputs[0], banner, size).link, inputs[1..], banner, size);
    }
  }

  // ---- The flags of the layer, and what is read ----

  /** Sending touches the write flag only. */
  lemma {:induction false} QueueAllFlags(k: Link, texts: seq<Bytes>, size: nat)
    requires 0 < size
    ensures QueueAll(k, texts, size).link.flags == k.flags.(writing := QueueAll(k, texts, size).link.flags.writing)
    ensures k.flags.writing ==> QueueAll(k, texts, size).link.flags.writing
    decreases |texts|
  {
    if texts != [] {
      var r := Queue(k, texts[0], size);
      if r.Done? { QueueAllFlags(r.link, texts[1..], size); }
    }
  }

  /** Apart from reads and writes that are started, an event changes the flags as it changes
      those of any layer; where the layer forbids it, nothing changes. */
  lemma FlagsFollow(k: Link, i: Input, banner: Bytes, size: nat)
    requires 0 < size
    ensures var r, e := Handle(k, i, banner, size), EventOf(i);
            var f := if e.Some? then Step(k.flags, e.value) else k.flags;
            && (!LegalInput(k, i) ==> r == Threw(k))
            && r.link.flags == f.(reading := r.link.flags.reading, writing := r.link.flags.writing)
            && (f.reading ==> r.link.flags.reading) && (f.writing ==> r.link.flags.writing)
  {
    hide QueueAll, Chunks;
    if LegalInput(k, i) {
      match i
      case QueueSend(data) =>
      case AsyncOpen =>
      case AsyncClose =>
      case Opened(failed) =>
        var up := k.(flags := Step(k.flags, OpenCallback(failed)));
        QueueAllFlags(up.(flags := Step(up.flags, Read)), [banner, PROMPT], size);
      case ReadDone(failed, replies) =>
        QueueAllFlags(k.(flags := k.flags.(reading := false)), replies, size);
      case Written(failed) =>
    }
  }

  /** An open layer that is not closing has a read outstanding. */
  predicate Listening(k: Link) {
    k.flags.open && !k.flags.closing ==> k.flags.reading
  }

  /** Every event keeps it so, except a read callback in which a reply throws. */
  lemma HandleListens(k: Link, i: Input, banner: Bytes, size: nat)
    requires 0 < size && Listening(k) && k.flags.Consistent()
    ensures var r := Handle(k, i, banner, size);
            Listening(r.link) <==> !(i.ReadDone? && LegalInput(k, i) && r.Threw?)
  {
    if LegalInput(k, i) {
      match i
      case QueueSend(data) =>
      case AsyncOpen =>
      case AsyncClose =>
      case Opened(failed) =>
        var up := k.(flags := Step(k.flags, OpenCallback(failed)));
        QueueAllFlags(up.(flags := Step(up.flags, Read)), [banner, PROMPT], size);
      case ReadDone(failed, replies) =>
        QueueAllFlags(k.(flags := k.flags.(reading := false)), replies, size);
      case Written(failed) =>
    }
  }

  /** What the layer reads next: on a layer in use a read callback whose replies are not empty
      returns with the next read started. */
  lemma ReadResumes(k: Link, replies: seq<Bytes>, banner: Bytes, size: nat)
    requires 0 < size && Good(k, size) && NoneEmpty(replies)
    requires k.flags.reading && !k.flags.closing
    ensures var r := Handle(k, ReadDone(false, replies), banner, size);
            r.Done? && r.link.flags.reading && r.link.queued == k.queued + Flatten(replies)
  {
    HandleIsGood(k, ReadDone(false, replies), banner, size);
    HandleListens(k, ReadDone(false, replies), banner, size);
    FlagsFollow(k, ReadDone(false, replies), banner, size);
    RepliesQueued(k.(flags := k.flags.(reading := false)), replies, size);
  }

  lemma {:induction false} RepliesQueued(k: Link, texts: seq<Bytes>, size: nat)
    requires 0 < size
    ensures var r := QueueAll(k, texts, size); r.Done? ==> r.link.queued == k.queued + Flatten(texts)
    decreases |texts|
  {
    if texts != [] {
      QueuedGrows(k, texts[0], size);
      var r := Queue(k, texts[0], size);
      if r.Done? {
        RepliesQueued(r.link, texts[1..], size);
        assert k.queued + texts[0] + Flatten(texts[1..]) == k.queued + (texts[0] + Flatten(texts[1..]));
      }
    }
  }

  /** In every run without an empty text, from a closed layer or any other listening one, the
      terminal goes on reading as long as the layer is in use. */
  lemma {:induction false} RunListens(k: Link, inputs: seq<Input>, banner: Bytes, size: nat)
    requires 0 < size && Good(k, size) && Listening(k) && forall i <- inputs :: Speaks(i, banner)
    ensures Listening(Run(k, inputs, banner, size))
    decreases |inputs|
  {
    hide Handle, Good;
    if inputs != [] {
      HandleIsGood(k, inputs[0], banner, size);
      GoodConsistent(k, size);
      HandleListens(k, inputs[0], banner, size);
      RunListens(Handle(k, inputs[0], banner, size).link, inputs[1..], banner, size);
    }
  }

  lemma GoodConsistent(k: Link, size: nat)
    requires Good(k, size)
    ensures k.flags.Consistent()
  {
  }

  /** When the layer comes up, a read is started, and the banner and the prompt are queued in
      this order; an open that fails or comes too late sends nothing. */
  lemma OpenGreets(k: Link, failed: bool, banner: Bytes, size: nat)
    requires 0 < size && Conserved(k, size) && k.flags.opening
    ensures var r := Handle(k, Opened(failed), banner, size);
            && (if failed || k.flags.closing then r.Done? && !r.link.flags.open && r.link.queued == k.queued
                else && r.link.flags.open && r.link.flags.reading
                     && (r.Done? ==> r.link.queued == k.queued + banner + [0x0D, 0x0A, 0x3E]))
  {
    hide Queue, QueueAll;
    if !failed && !k.flags.closing {
      var up := k.(flags := Step(k.flags, OpenCallback(false)));
      var at := up.(flags := Step(up.flags, Read));
      QueueAllFlags(at, [banner, PROMPT], size);
      TwoTexts(at, banner, PROMPT, size);
      QueuedGrows(at, banner, size);
      if Queue(at, banner, size).Done? { QueuedGrows(Queue(at, banner, size).link, PROMPT, size); }
    }
  }

  lemma QueuedGrows(k: Link, data: Bytes, size: nat)
    requires 0 < size
    ensures Queue(k, data, size).link.queued == k.queued + data
  {
  }

  /** When the layer goes down, what is still queued is dropped. */
  lemma DownDrops(k: Link, i: Input, banner: Bytes, size: nat)
    requires 0 < size && k.flags.Consistent()
    requires k.flags.open && !Handle(k, i, banner, size).link.flags.open
    ensures Handle(k, i, banner, size) == Done(Link(CLOSED, [], [], []))
  {
    FlagsFollow(k, i, banner, size);
    match i
    case ReadDone(failed, replies) => QueueAllFlags(k.(flags := k.flags.(reading := false)), replies, size);
    case _ =>
  }

  function Callbacks(n: nat): seq<Input> {
    if n == 0 then [] else [Written(false)] + Callbacks(n - 1)
  }

  /** One write callback for each chunk puts everything queued on the wire. */
  lemma {:induction false} Drains(k: Link, banner: Bytes, size: nat)
    requires 0 < size && Good(k, size) && k.flags.open && !k.flags.closing
    ensures Run(k, Callbacks(Bit(k.flags.writing) + |k.queue|), banner, size)
            == Link(k.flags.(writing := false), [], k.queued, k.queued)
    decreases |k.queue|, k.flags.writing
  {
    if k.flags.writing {
      HandleIsGood(k, Written(false), banner, size);
      var next := Handle(k, Written(false), banner, size).link;
      var cs := Callbacks(1 + |k.queue|);
      assert cs[0] == Written(false) && cs[1..] == Callbacks(|k.queue|);
      Drains(next, banner, size);
    } else {
      assert k.wire + [] == k.wire;
    }
  }

  // ---- What an empty text does ----

  /** No event of the run throws. */
  predicate AllDone(k: Link, inputs: seq<Input>, banner: Bytes, size: nat)
    requires 0 < size
    decreases |inputs|
  {
    inputs == [] || match Handle(k, inputs[0], banner, size)
      case Done(next) => AllDone(next, inputs[1..], banner, size)
      case Threw(_) => false
  }

  /** The write callbacks for what is outstanding and queued all return exactly when no chunk
      in the queue is empty. */
  lemma {:induction false} DrainsIffNoneEmpty(k: Link, banner: Bytes, size: nat)
    requires 0 < size && k.flags.open && !k.flags.closing && (k.flags.writing || k.queue == [])
    ensures AllDone(k, Callbacks(Bit(k.flags.writing) + |k.queue|), banner, size) <==> NoneEmpty(k.queue)
    decreases |k.queue|, k.flags.writing
  {
    if k.flags.writing {
      var cs := Callbacks(1 + |k.queue|);
      assert cs[0] == Written(false) && cs[1..] == Callbacks(|k.queue|);
      var r := Handle(k, Written(false), banner, size);
      if r.Done? {
        DrainsIffNoneEmpty(r.link, banner, size);
        assert k.queue != [] ==> k.queue == [k.queue[0]] + r.link.queue;
      }
    }
  }

  /** On a layer in use, busy or not, the call of QueueSend and all the write callbacks it
      takes to empty the queue return exactly when the text is not empty. */
  lemma QueuedTextGoesOut(k: Link, data: Bytes, banner: Bytes, size: nat)
    requires 0 < size && Good(k, size) && k.flags.open && !k.flags.closing
    ensures var r := Queue(k, data, size);
            && (r.Done? && AllDone(r.link, Callbacks(Bit(r.link.flags.writing) + |r.link.queue|), banner, size)
                <==> data != [])
            && (data != [] ==> Run(r.link, Callbacks(Bit(r.link.flags.writing) + |r.link.queue|), banner, size).wire
                               == k.queued + data)
  {
    hide AllDone, Run, Callbacks;
    QueueIsGood(k, data, size);
    QueueConserves(k, data, size);
    var r := Queue(k, data, size);
    if r.Done? { DrainsIffNoneEmpty(r.link, banner, size); }
    if data != [] { Drains(r.link, banner, size); }
  }

  /** When its turn comes AsyncWrite throws, and whatever is queued behind it stays there
      although the layer could write. */
  lemma EmptyTextSticks(k: Link, rest: seq<Bytes>, banner: Bytes, size: nat)
    requires 0 < size && k.flags.open && k.flags.writing && !k.flags.closing && k.queue == [[]] + rest
    ensures var r := Handle(k, Written(false), banner, size);
            r.Threw? && r.link.flags.CanWrite() && r.link.queue == rest
  {
  }

  lemma RunCons(k: Link, i: Input, inputs: seq<Input>, banner: Bytes, size: nat)
    requires 0 < size
    ensures Run(k, [i] + inputs, banner, size) == Run(Handle(k, i, banner, size).link, inputs, banner, size)
  {
    assert ([i] + inputs)[1..] == inputs;
  }

  /** A terminal right after it came up, writing its banner. */
  function Greeting(banner: Bytes): Link {
    Link(Flags(true, false, true, true, false), [PROMPT], banner, banner + PROMPT)
  }

  lemma OpenedGreets(banner: Bytes, size: nat)
    requires 0 < |banner| <= size && 3 <= size
    ensures Handle(Link(Flags(false, true, false, false, false), [], [], []), Opened(false), banner, size)
            == Done(Greeting(banner))
  {
    var up := Flags(true, false, true, false, false);
    assert [] + Chunks(banner, size) == [banner] && [] + Chunks(PROMPT, size) == [PROMPT];
    var b := Queue(Link(up, [], [], []), banner, size).link;
    assert b == Link(up.(writing := true), [], [] + banner, [] + banner) && [] + banner == banner;
    assert [banner, PROMPT][1..] == [PROMPT];
    assert QueueAll(b, [PROMPT], size) == QueueAll(Queue(b, PROMPT, size).link, [PROMPT][1..], size);
  }

  /** Such a state is reached from a new terminal: two texts queued while the banner is
      being written, the first of them empty. */
  lemma EmptyTextIsReached(banner: Bytes, text: Bytes, size: nat)
    requires 0 < |banner| <= size && 0 < |text| <= size && 3 <= size
    ensures var w := Written(false);
            var later := [QueueSend([])] + ([QueueSend(text)] + ([w] + ([w] + [])));
            var inputs := [AsyncOpen] + ([Opened(false)] + later);
            var k := Run(Link(CLOSED, [], [], []), inputs, banner, size);
            k.flags.CanWrite() && k.queue == [text]
  {
    hide Run, Queue, QueueAll;
    var w := Written(false);
    var k0 := Link(CLOSED, [], [], []);
    var later := [QueueSend([])] + ([QueueSend(text)] + ([w] + ([w] + [])));
    RunCons(k0, AsyncOpen, [Opened(false)] + later, banner, size);
    var k1 := Handle(k0, AsyncOpen, banner, size).link;
    RunCons(k1, Opened(false), later, banner, size);
    OpenedGreets(banner, size);
    GreetingSticks(banner, text, size);
  }

  lemma GreetingSticks(banner: Bytes, text: Bytes, size: nat)
    requires 0 < |banner| <= size && 0 < |text| <= size && 3 <= size
    ensures var w := Written(false);
            var inputs := [QueueSend([])] + ([QueueSend(text)] + ([w] + ([w] + [])));
            var k := Run(Greeting(banner), inputs, banner, size);
            k.flags.CanWrite() && k.queue == [text]
  {
    hide Run;
    var w := Written(false);
    var k2 := Greeting(banner);
    RunCons(k2, QueueSend([]), [QueueSend(text)] + ([w] + ([w] + [])), banner, size);
    var k3 := Handle(k2, QueueSend([]), banner, size).link;
    assert k3.flags == k2.flags && k3.queue == [PROMPT, []];
    RunCons(k3, QueueSend(text), [w] + ([w] + []), banner, size);
    var k4 := Handle(k3, QueueSend(text), banner, size).link;
    assert k4.flags == k2.flags && k4.queue == [PROMPT, [], text];
    RunCons(k4, w, [w] + [], banner, size);
    var k5 := Handle(k4, w, banner, size).link;
    assert k5.flags == k2.flags && k5.queue == [[]] + [text];
    RunCons(k5, w, [], banner, size);
    EmptyTextSticks(k5, [text], banner, size);
    RunNothing(Handle(k5, w, banner, size).link, banner, size);
  }

  lemma RunNothing(k: Link, banner: Bytes, size: nat)
    requires 0 < size
    ensures Run(k, [], banner, size) == k
  {
  }

  lemma TwoTexts(k: Link, a: Bytes, b: Bytes, size: nat)
    requires 0 < size
    ensures QueueAll(k, [a, b], size) == var o := Queue(k, a, size); if o.Done? then Queue(o.link, b, size) else o
  {
    assert [a, b][1..] == [b] && [b][1..] == [];
    if Queue(k, a, size).Done? {
      var n := Queue(k, a, size).link;
      assert QueueAll(n, [b], size) == Queue(n, b, size);
    }
  }

  // ---- The terminal in place ----

  /** PhysicalLayerAsyncBase as far as the terminal sees it: flags, and the address and
      length of the write that is outstanding. */
  class AsyncLayer {
    var flags: Flags
    var outBuffer: array?<Byte>
    var outLength: nat
    /** The octets of the outstanding write when it was started, and all handed over since
        the layer last went down. */
    ghost var outData: Bytes
    ghost var wire: Bytes

    constructor ()
      ensures flags == CLOSED && wire == [] && outBuffer == null
    {
      flags, outBuffer, outLength, outData, wire := CLOSED, null, 0, [], [];
    }

    /** The device may read the outstanding octets at any time before it calls back. */
    ghost predicate Intact()
      reads this, outBuffer
    {
      flags.writing ==> outBuffer != null && outLength <= outBuffer.Length && outBuffer[..outLength] == outData
    }

    /** False where ArgumentException or InvalidStateException is thrown. */
    method AsyncWrite(buffer: array<Byte>, length: nat) returns (ok: bool)
      requires length <= buffer.Length
      modifies this
      ensures ok <==> 0 < length && old(flags).CanWrite()
      ensures ok ==> flags == Step(old(flags), Write) && wire == old(wire) + buffer[..length] && Intact()
      ensures ok ==> outBuffer == buffer && outLength == length && outData == buffer[..length]
      ensures !ok ==> unchanged(this)
    {
      if length < 1 || !flags.CanWrite() { return false; }
      flags := flags.(writing := true);
      outBuffer, outLength, outData, wire := buffer, length, buffer[..length], wire + buffer[..length];
      return true;
    }
  }

  class Terminal {
    var queue: seq<Bytes>
    const buffer: array<Byte>
    const phys: AsyncLayer
    const banner: Bytes
    ghost var queued: Bytes

    ghost predicate Valid()
      reads this, phys, phys.outBuffer, buffer
    {
      && 0 < buffer.Length
      && Fits(queue, buffer.Length)
      && (phys.outBuffer != null ==> phys.outBuffer == buffer)
      && phys.Intact()
    }

    ghost function State(): Link
      reads this, phys
    {
      Link(phys.flags, queue, phys.wire, queued)
    }

    /** How a call that returned ok left the terminal. */
    ghost function Left(ok: bool): Outcome
      reads this, phys
    {
      if ok then Done(State()) else Threw(State())
    }

    constructor (size: nat, banner: Bytes)
      requires 0 < size
      ensures Valid() && fresh(buffer) && fresh(phys) && buffer.Length == size && this.banner == banner
      ensures State() == Link(CLOSED, [], [], [])
    {
      buffer := new Byte[size];
      phys := new AsyncLayer();
      this.banner := banner;
      queue, queued := [], [];
    }

    /** Copies the front of the queue into the send buffer and writes it. The buffer is
        touched only while no write is outstanding. */
    method CheckForSend() returns (ok: bool)
      requires Valid()
      modifies this, phys, buffer
      ensures Valid() && Left(ok) == SendFront(old(State()))
    {
      ok := true;
      if phys.flags.CanWrite() && 0 < |queue| {
        var front := queue[0];
        forall i | 0 <= i < |front| { buffer[i] := front[i]; }
        assert buffer[..|front|] == front;
        queue := queue[1..];
        ok := phys.AsyncWrite(buffer, |front|);
      }
    }

    /** Cuts the data into chunks of the buffer's size, recursively. */
    method QueueSendRecursive(data: Bytes) returns (ok: bool)
      requires Valid()
      modifies this, phys, buffer
      ensures Valid()
      ensures var k := old(State());
              Left(ok)
              == SendFront(Link(k.flags, k.queue + Chunks(data, buffer.Length), k.wire, k.queued))
      decreases |data|
    {
      if |data| <= buffer.Length {
        queue := queue + [data];
        ok := CheckForSend();
      } else {
        var first := data[..buffer.Length];
        assert queue + Chunks(data, buffer.Length) == queue + [first] + Chunks(data[buffer.Length..], buffer.Length);
        queue := queue + [first];
        ok := QueueSendRecursive(data[buffer.Length..]);
      }
    }

    method QueueSend(data: Bytes) returns (ok: bool)
      requires Valid()
      modifies this, phys, buffer
      ensures Valid() && Left(ok) == Queue(old(State()), data, buffer.Length)
    {
      queued := queued + data;
      ok := QueueSendRecursive(data);
    }

    method Down()
      requires Valid()
      modifies this, phys
      ensures Valid() && queue == [] && queued == [] && phys.wire == [] && phys.flags == old(phys.flags)
      ensures phys.outBuffer == old(phys.outBuffer)
    {
      queue, queued, phys.wire := [], [], [];
    }

    /** The write callback of the device, through the layer to the terminal. */
    method OnWriteCallback(failed: bool) returns (ok: bool)
      requires Valid()
      modifies this, phys, buffer
      ensures Valid()
      ensures Left(ok) == Handle(old(State()), Written(failed), banner, buffer.Length)
    {
      hide Fits, QueueAll, Queue;
      if !phys.flags.writing { return false; }
      ok := true;
      phys.flags := phys.flags.(writing := false);
      if failed {
        if phys.flags.CanClose() { phys.flags := phys.flags.(closing := true); }
      } else if !phys.flags.closing {
        ok := CheckForSend();
      }
      if ok { CheckForDown(); }
    }

    /** A successful open: reading starts, then the banner and the prompt are queued. */
    method OnOpenCallback(failed: bool) returns (ok: bool)
      requires Valid()
      modifies this, phys, buffer
      ensures Valid()
      ensures Left(ok) == Handle(old(State()), Opened(failed), banner, buffer.Length)
    {
      hide Fits, QueueAll, Queue, SendFront;
      if !phys.flags.opening { return false; }
      ok := true;
      if failed || phys.flags.closing {
        phys.flags := phys.flags.(opening := false).CheckForClose();
      } else {
        phys.flags := phys.flags.(opening := false, open := true);
        phys.flags := phys.flags.(reading := true);
        TwoTexts(State(), banner, PROMPT, buffer.Length);
        ok := QueueSend(banner);
        if ok { ok := QueueSend(PROMPT); }
      }
    }

    method AsyncClose() returns (ok: bool)
      requires Valid()
      modifies this, phys
      ensures Valid()
      ensures Left(ok) == Handle(old(State()), Input.AsyncClose, banner, buffer.Length)
    {
      if !phys.flags.CanClose() { return false; }
      ok := true;
      phys.flags := phys.flags.(closing := true);
      CheckForDown();
    }

    method CheckForDown()
      requires Valid()
      modifies this, phys
      ensures Valid() && State() == AfterClose(old(State()))
    {
      if phys.flags.CloseCompletes() {
        phys.flags := phys.flags.CheckForClose();
        Down();
      }
    }

    /** The read callback: the lines received may have texts sent in reply, one by one. */
    method OnReadCallback(failed: bool, replies: seq<Bytes>) returns (ok: bool)
      requires Valid()
      modifies this, phys, buffer
      ensures Valid()
      ensures Left(ok) == Handle(old(State()), ReadDone(failed, replies), banner, buffer.Length)
    {
      hide Fits, QueueAll, Queue, SendFront;
      if !phys.flags.reading { return false; }
      phys.flags := phys.flags.(reading := false);
      if failed {
        if phys.flags.CanClose() { phys.flags := phys.flags.(closing := true); }
      } else if !phys.flags.closing {
        ok := SendAll(replies);
        if ok && phys.flags.CanRead() { phys.flags := phys.flags.(reading := true); }
        return;
      }
      ok := true;
      CheckForDown();
    }

    method SendAll(texts: seq<Bytes>) returns (ok: bool)
      requires Valid()
      modifies this, phys, buffer
      ensures Valid() && Left(ok) == QueueAll(old(State()), texts, buffer.Length)
    {
      var i := 0;
      ok := true;
      while i < |texts|
        invariant Valid() && 0 <= i <= |texts| && ok
        invariant QueueAll(State(), texts[i..], buffer.Length) == QueueAll(old(State()), texts, buffer.Length)
      {
        assert texts[i..][0] == texts[i] && texts[i..][1..] == texts[i + 1..];
        ok := QueueSend(texts[i]);
        if !ok { return; }
        i := i + 1;
      }
    }
  }
}
