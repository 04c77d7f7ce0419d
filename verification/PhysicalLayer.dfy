/** The state flags of an asynchronous physical layer and the transitions every concrete
    layer shares. */
module PhysicalLayers {

  datatype Flags = Flags(open: bool, opening: bool, reading: bool, writing: bool, closing: bool) {
    predicate IsClosed() { !(opening || open || closing || reading || writing) }

    predicate CanClose() { (open || opening) && !closing }

    predicate CanRead() { open && !closing && !reading }

    predicate CanWrite() { open && !closing && !writing }

    predicate CallbacksPending() { opening || reading || writing }

    /** A close completes when no callback is outstanding. */
    predicate CloseCompletes() { closing && !CallbacksPending() }

    function CheckForClose(): Flags {
      if CloseCompletes() then this.(closing := false, open := false) else this
    }

    /** What the transitions keep: operations run on an open layer only, a layer is opening
        or open but not both, only such a layer closes, and a completed close is noticed. */
    predicate Consistent() {
      && !(open && opening)
      && (reading || writing ==> open)
      && (closing ==> (open || opening) && CallbacksPending())
    }
  }

  const CLOSED := Flags(false, false, false, false, false)

  /** What happens to the layer: calls from above, and callbacks from the device. */
  datatype Event =
    | Open | Close | Read | Write
    | OpenCallback(failed: bool) | ReadCallback(failed: bool) | WriteCallback(failed: bool)

  /** Where the event is an error, InvalidStateException is thrown and nothing changes. */
  predicate Legal(f: Flags, e: Event) {
    match e
    case Open => f.IsClosed()
    case Close => f.CanClose()
    case Read => f.CanRead()
    case Write => f.CanWrite()
    case OpenCallback(_) => f.opening
    case ReadCallback(_) => f.reading
    case WriteCallback(_) => f.writing
  }

  /** A failed operation starts a close unless one is under way. */
  function AfterCallback(f: Flags, failed: bool): Flags {
    (if failed && f.CanClose() then f.(closing := true) else f).CheckForClose()
  }

  function Step(f: Flags, e: Event): Flags {
    if !Legal(f, e) then f
    else match e
      case Open => f.(opening := true)
      case Close => f.(closing := true).CheckForClose()
      case Read => f.(reading := true)
      case Write => f.(writing := true)
      case OpenCallback(failed) =>
        if failed || f.closing then f.(opening := false).CheckForClose() else f.(opening := false, open := true)
      case ReadCallback(failed) => AfterCallback(f.(reading := false), failed)
      case WriteCallback(failed) => AfterCallback(f.(writing := false), failed)
  }

  function Run(f: Flags, es: seq<Event>): Flags
    decreases |es|
  {
    if es == [] then f else Run(Step(f, es[0]), es[1..])
  }

  /** The events that tell the layer above it is up, or down. */
  predicate GoesUp(f: Flags, e: Event) {
    Legal(f, e) && e.OpenCallback? && !e.failed && !f.closing
  }

  predicate GoesDown(f: Flags, e: Event) {
    Legal(f, e) && match e
      case Close => f.(closing := true).CloseCompletes()
      case ReadCallback(failed) => var g := f.(reading := false); g.(closing := g.closing || failed).CloseCompletes()
      case WriteCallback(failed) => var g := f.(writing := false); g.(closing := g.closing || failed).CloseCompletes()
      case _ => false
  }

  /** How often a kind of event happens in a run. */
  ghost function Times(f: Flags, es: seq<Event>, p: (Flags, Event) -> bool): nat
    decreases |es|
  {
    if es == [] then 0 else (if p(f, es[0]) then 1 else 0) + Times(Step(f, es[0]), es[1..], p)
  }

  function Bit(b: bool): nat { if b then 1 else 0 }

  function Calls(e: Event): (Flags, Event) -> bool { (f, x) => Legal(f, x) && x == e }

  function ReadBack(): (Flags, Event) -> bool { (f, x) => Legal(f, x) && x.ReadCallback? }

  function WriteBack(): (Flags, Event) -> bool { (f, x) => Legal(f, x) && x.WriteCallback? }

  lemma StepBalanced(f: Flags, e: Event)
    requires f.Consistent()
    ensures var g := Step(f, e);
            && g.Consistent()
            && Bit(f.reading) + Bit(Calls(Read)(f, e)) == Bit(ReadBack()(f, e)) + Bit(g.reading)
            && Bit(f.writing) + Bit(Calls(Write)(f, e)) == Bit(WriteBack()(f, e)) + Bit(g.writing)
            && Bit(f.open) + Bit(GoesUp(f, e)) == Bit(GoesDown(f, e)) + Bit(g.open)
  {
  }

  /** When the calls are accepted: an open on a closed layer only, a close at any other time
      but once, a read or a write one at a time while the layer is open and not closing. */
  lemma CallsAccepted(f: Flags)
    requires f.Consistent()
    ensures Legal(f, Open) <==> f == CLOSED
    ensures Legal(f, Close) <==> f != CLOSED && !f.closing
    ensures Legal(f, Read) <==> f.open && !f.closing && Step(f, Read) == f.(reading := true) != f
    ensures Legal(f, Write) <==> f.open && !f.closing && Step(f, Write) == f.(writing := true) != f
  {
  }

  /** A close, or a read or write that fails, ends in a closed layer: at once, or when what is
      outstanding has been called back; until then no operation is accepted. */
  lemma FailureCloses(f: Flags, e: Event)
    requires f.Consistent() && Legal(f, e)
    requires e == Close || e == ReadCallback(true) || e == WriteCallback(true)
    ensures var g := Step(f, e);
            && (g == CLOSED || g.closing)
            && !g.CanRead() && !g.CanWrite() && !g.CanClose()
            && (g != CLOSED ==> g.opening == f.opening && g.reading == (f.reading && !e.ReadCallback?)
                                && g.writing == (f.writing && !e.WriteCallback?))
  {
  }

  ghost predicate AllLegal(f: Flags, es: seq<Event>)
    decreases |es|
  {
    es == [] || (Legal(f, es[0]) && AllLegal(Step(f, es[0]), es[1..]))
  }

  /** Whatever legal events follow on a closing layer are as many as there are operations
      outstanding at most, and the last of them leaves it closed. */
  lemma {:induction false} ClosingDrains(f: Flags, es: seq<Event>)
    requires f.Consistent() && f.closing && AllLegal(f, es)
    requires |es| <= Bit(f.opening) + Bit(f.reading) + Bit(f.writing)
    ensures Run(f, es) == CLOSED <==> |es| == Bit(f.opening) + Bit(f.reading) + Bit(f.writing)
    decreases |es|
  {
    if es != [] {
      var g := Step(f, es[0]);
      StepBalanced(f, es[0]);
      if g.closing { ClosingDrains(g, es[1..]); }
    }
  }

  /** An open that succeeds leaves the layer open and idle; one that fails, or that finds the
      layer closing, leaves it closed. */
  lemma OpenCompletes(f: Flags, failed: bool)
    requires f.Consistent() && f.opening
    ensures Step(f, OpenCallback(failed)) ==
            if failed || f.closing then CLOSED
            else Flags(true, false, false, false, false)
  {
  }

  /** In every run: the flags stay consistent, every read and every write accepted is called
      back exactly once or still outstanding, notices that the layer is up and down
      alternate, and the layer is never down with a callback outstanding. */
  lemma {:induction false} RunBalanced(f: Flags, es: seq<Event>)
    requires f.Consistent()
    ensures var g := Run(f, es);
            && g.Consistent()
            && Bit(f.reading) + Times(f, es, Calls(Read)) == Times(f, es, ReadBack()) + Bit(g.reading)
            && Bit(f.writing) + Times(f, es, Calls(Write)) == Times(f, es, WriteBack()) + Bit(g.writing)
            && Bit(f.open) + Times(f, es, GoesUp) == Times(f, es, GoesDown) + Bit(g.open)
            && (!g.open ==> !g.reading && !g.writing)
    decreases |es|
  {
    if es != [] {
      StepBalanced(f, es[0]);
      hide Step;
      RunBalanced(Step(f, es[0]), es[1..]);
    }
  }
}
