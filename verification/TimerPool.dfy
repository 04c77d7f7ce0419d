/** The mock timer source: a pool of reusable timers, a queue of posted handlers, and a
    dispatcher whose callbacks start, cancel and post in turn.

    `Pool` and `Run` describe every interleaving of the elementary steps, including those
    a callback makes while it is being dispatched; the class performs them. */
module TimerPool {
  import opened Permutations

  /** A callback is a number and what it does to the timer source when it runs. */
  datatype Callback = Callback(id: int, script: seq<Action>)

  datatype Action = DoStart(time: int, cb: Callback) | DoCancel(slot: nat) | DoPost(cb: Callback)

  /** One pending timer: its expiry, the pool slot it occupies, and the number of its start. */
  datatype Pending = Pending(time: int, slot: nat, start: nat, cb: Callback)

  /** posts and timers wait to be dispatched; idle lists the slots free for reuse; slots are
      numbered 0..total in order of allocation; the rest records the past. */
  datatype Pool = Pool(posts: seq<Callback>, timers: seq<Pending>, idle: seq<nat>, total: nat,
                       starts: nat, fired: seq<Pending>, cancelled: seq<Pending>,
                       posted: seq<Callback>, ran: seq<Callback>)

  datatype Op = Start(time: int, cb: Callback) | Cancel(slot: nat) | Post(cb: Callback) | Pop

  const EMPTY := Pool([], [], [], 0, 0, [], [], [], [])

  // ---- Elementary steps ----

  /** multimap insertion: behind every entry that does not expire later. */
  function Insert(p: Pending, timers: seq<Pending>): seq<Pending> {
    if timers == [] || p.time < timers[0].time then [p] + timers
    else [timers[0]] + Insert(p, timers[1..])
  }

  /** The position of the entry for a slot, or |timers|. */
  function Find(slot: nat, timers: seq<Pending>): (i: nat)
    ensures i <= |timers| && (i < |timers| ==> timers[i].slot == slot)
    ensures forall j :: 0 <= j < i ==> timers[j].slot != slot
  {
    if timers == [] then 0
    else if timers[0].slot == slot then 0
    else
      var i := Find(slot, timers[1..]);
      assert forall j :: 1 <= j < i + 1 ==> timers[j] == timers[1..][j - 1];
      1 + i
  }

  function Step(p: Pool, op: Op): Pool {
    match op
    case Start(time, cb) =>
      var slot := if p.idle != [] then p.idle[0] else p.total;
      p.(idle := if p.idle != [] then p.idle[1..] else [],
         total := if p.idle != [] then p.total else p.total + 1,
         timers := Insert(Pending(time, slot, p.starts, cb), p.timers),
         starts := p.starts + 1)
    case Cancel(slot) =>
      var i := Find(slot, p.timers);
      if i == |p.timers| then p
      else p.(idle := p.idle + [slot], timers := p.timers[..i] + p.timers[i + 1..],
              cancelled := p.cancelled + [p.timers[i]])
    case Post(cb) => p.(posts := p.posts + [cb], posted := p.posted + [cb])
    case Pop =>
      if p.posts != [] then p.(posts := p.posts[1..], ran := p.ran + [p.posts[0]])
      else if p.timers != [] then
        p.(idle := p.idle + [p.timers[0].slot], timers := p.timers[1..], fired := p.fired + [p.timers[0]])
      else p
  }

  function Run(ops: seq<Op>): Pool {
    if ops == [] then EMPTY else Step(Run(ops[..|ops| - 1]), ops[|ops| - 1])
  }

  /** The largest number of timers pending at once in the course of a run. */
  function Peak(ops: seq<Op>): nat {
    if ops == [] then 0
    else
      var before, now := Peak(ops[..|ops| - 1]), |Run(ops).timers|;
      if now > before then now else before
  }

  // ---- What every run keeps ----

  /** How often a slot is idle, how often it is pending, and how often a start is listed. */
  function CountIdle(idle: seq<nat>, k: nat): nat {
    if idle == [] then 0 else (if idle[0] == k then 1 else 0) + CountIdle(idle[1..], k)
  }

  function CountSlot(timers: seq<Pending>, k: nat): nat {
    if timers == [] then 0 else (if timers[0].slot == k then 1 else 0) + CountSlot(timers[1..], k)
  }

  function CountStart(timers: seq<Pending>, k: nat): nat {
    if timers == [] then 0 else (if timers[0].start == k then 1 else 0) + CountStart(timers[1..], k)
  }

  /** Every slot below total is idle once or pending once, never both; no other slot exists. */
  ghost predicate Partition(p: Pool) {
    && (forall k: nat :: CountIdle(p.idle, k) + CountSlot(p.timers, k) == if k < p.total then 1 else 0)
    && |p.idle| + |p.timers| == p.total
  }

  /** Every start is pending, fired or cancelled: one of these, once. */
  ghost predicate Accounted(p: Pool) {
    && (forall k: nat :: CountStart(p.timers, k) + CountStart(p.fired, k) + CountStart(p.cancelled, k)
                         == if k < p.starts then 1 else 0)
    && |p.timers| + |p.fired| + |p.cancelled| == p.starts
  }

  /** Earlier expiry first; among equal ones the earlier start first. */
  predicate Before(a: Pending, b: Pending) {
    a.time < b.time || (a.time == b.time && a.start < b.start)
  }

  ghost predicate Ordered(timers: seq<Pending>) {
    forall i, j :: 0 <= i < j < |timers| ==> Before(timers[i], timers[j])
  }

  ghost predicate StartedBefore(timers: seq<Pending>, n: nat) {
    forall t <- timers :: t.start < n
  }

  /** Posted handlers run in the order they were posted. */
  ghost predicate PostsInOrder(p: Pool) {
    p.ran + p.posts == p.posted
  }

  lemma {:induction false} InsertCounts(p: Pending, timers: seq<Pending>, k: nat)
    ensures |Insert(p, timers)| == |timers| + 1
    ensures CountSlot(Insert(p, timers), k) == CountSlot(timers, k) + (if p.slot == k then 1 else 0)
    ensures CountStart(Insert(p, timers), k) == CountStart(timers, k) + (if p.start == k then 1 else 0)
    decreases |timers|
  {
    if timers == [] || p.time < timers[0].time {
      assert ([p] + timers)[1..] == timers;
    } else {
      InsertCounts(p, timers[1..], k);
      assert ([timers[0]] + Insert(p, timers[1..]))[1..] == Insert(p, timers[1..]);
    }
  }

  lemma {:induction false} InsertOrdered(p: Pending, timers: seq<Pending>)
    requires Ordered(timers) && StartedBefore(timers, p.start)
    ensures Ordered(Insert(p, timers))
    ensures forall t :: t in Insert(p, timers) <==> t == p || t in timers
    decreases |timers|
  {
    if timers == [] || p.time < timers[0].time {
      assert forall i :: 0 <= i < |timers| ==> timers[i] in timers && (i > 0 ==> Before(timers[0], timers[i]));
    } else {
      var rest := timers[1..];
      assert forall t <- rest :: t in timers;
      InsertOrdered(p, rest);
      var r := Insert(p, rest);
      assert timers[0] in timers;
      forall j | 0 <= j < |r| ensures Before(timers[0], r[j]) {
        assert r[j] in r;
        if r[j] in rest {
          var k :| 0 <= k < |rest| && rest[k] == r[j];
          assert Before(timers[0], timers[k + 1]);
        }
      }
      assert timers == [timers[0]] + rest;
    }
  }

  lemma {:induction false} RemoveCounts(timers: seq<Pending>, i: nat, k: nat)
    requires i < |timers|
    ensures CountSlot(timers, k) == CountSlot(Without(timers, i), k) + (if timers[i].slot == k then 1 else 0)
    ensures CountStart(timers, k) == CountStart(Without(timers, i), k) + (if timers[i].start == k then 1 else 0)
    decreases i
  {
    if i == 0 {
      assert Without(timers, 0) == timers[1..];
    } else {
      RemoveCounts(timers[1..], i - 1, k);
      assert Without(timers, i)[1..] == Without(timers[1..], i - 1);
      assert Without(timers, i)[0] == timers[0];
    }
  }

  lemma {:induction false} StartSnoc(timers: seq<Pending>, t: Pending, k: nat)
    ensures CountStart(timers + [t], k) == CountStart(timers, k) + (if t.start == k then 1 else 0)
    decreases |timers|
  {
    if timers == [] {
      assert ([] + [t])[1..] == [];
    } else {
      assert (timers + [t])[1..] == timers[1..] + [t];
      StartSnoc(timers[1..], t, k);
    }
  }

  lemma {:induction false} IdleSnoc(idle: seq<nat>, slot: nat, k: nat)
    ensures CountIdle(idle + [slot], k) == CountIdle(idle, k) + (if slot == k then 1 else 0)
    decreases |idle|
  {
    if idle == [] {
      assert ([] + [slot])[1..] == [];
    } else {
      assert (idle + [slot])[1..] == idle[1..] + [slot];
      IdleSnoc(idle[1..], slot, k);
    }
  }

  lemma StartKeeps(p: Pool, time: int, cb: Callback)
    requires Partition(p) && Accounted(p)
    ensures Partition(Step(p, Start(time, cb))) && Accounted(Step(p, Start(time, cb)))
  {
    var slot := if p.idle != [] then p.idle[0] else p.total;
    var t := Pending(time, slot, p.starts, cb);
    forall k: nat ensures CountSlot(Insert(t, p.timers), k) == CountSlot(p.timers, k) + (if slot == k then 1 else 0)
                  ensures CountStart(Insert(t, p.timers), k)
                          == CountStart(p.timers, k) + (if p.starts == k then 1 else 0)
                  ensures |Insert(t, p.timers)| == |p.timers| + 1 {
      InsertCounts(t, p.timers, k);
    }
    InsertCounts(t, p.timers, 0);
  }

  /** Taking entry i out of the timers, its slot becomes idle. */
  lemma ReleaseKeeps(p: Pool, i: nat, fires: bool)
    requires Partition(p) && Accounted(p) && i < |p.timers|
    ensures var t := p.timers[i];
            var q := p.(idle := p.idle + [t.slot], timers := Without(p.timers, i),
                        fired := if fires then p.fired + [t] else p.fired,
                        cancelled := if fires then p.cancelled else p.cancelled + [t]);
            Partition(q) && Accounted(q)
  {
    var t := p.timers[i];
    forall k: nat ensures CountIdle(p.idle + [t.slot], k) == CountIdle(p.idle, k) + (if t.slot == k then 1 else 0)
                  ensures CountSlot(Without(p.timers, i), k) == CountSlot(p.timers, k) - (if t.slot == k then 1 else 0)
                  ensures CountStart(Without(p.timers, i), k)
                          == CountStart(p.timers, k) - (if t.start == k then 1 else 0)
                  ensures CountStart(p.fired + [t], k) == CountStart(p.fired, k) + (if t.start == k then 1 else 0)
                  ensures CountStart(p.cancelled + [t], k)
                          == CountStart(p.cancelled, k) + (if t.start == k then 1 else 0) {
      RemoveCounts(p.timers, i, k);
      IdleSnoc(p.idle, t.slot, k);
      StartSnoc(p.fired, t, k);
      StartSnoc(p.cancelled, t, k);
    }
  }

  lemma CancelKeeps(p: Pool, slot: nat)
    requires Partition(p) && Accounted(p)
    ensures Partition(Step(p, Cancel(slot))) && Accounted(Step(p, Cancel(slot)))
  {
    var i := Find(slot, p.timers);
    if i < |p.timers| { ReleaseKeeps(p, i, false); }
  }

  lemma PopKeeps(p: Pool)
    requires Partition(p) && Accounted(p)
    ensures Partition(Step(p, Pop)) && Accounted(Step(p, Pop))
  {
    if p.posts == [] && p.timers != [] {
      ReleaseKeeps(p, 0, true);
      assert Without(p.timers, 0) == p.timers[1..];
    }
  }

  lemma StepKeepsOrder(p: Pool, op: Op)
    requires Ordered(p.timers) && StartedBefore(p.timers, p.starts)
    ensures Ordered(Step(p, op).timers) && StartedBefore(Step(p, op).timers, Step(p, op).starts)
  {
    if op.Start? {
      var slot := if p.idle != [] then p.idle[0] else p.total;
      InsertOrdered(Pending(op.time, slot, p.starts, op.cb), p.timers);
    }
  }

  lemma StepKeepsPosts(p: Pool, op: Op)
    requires PostsInOrder(p)
    ensures PostsInOrder(Step(p, op))
  {
    match op
    case Post(cb) => assert p.ran + (p.posts + [cb]) == p.ran + p.posts + [cb];
    case Pop => if p.posts != [] { assert p.ran + [p.posts[0]] + p.posts[1..] == p.ran + p.posts; }
    case _ =>
  }

  ghost predicate Invariant(p: Pool) {
    Partition(p) && Accounted(p) && Ordered(p.timers) && StartedBefore(p.timers, p.starts) && PostsInOrder(p)
  }

  lemma StepKeeps(p: Pool, op: Op)
    requires Invariant(p)
    ensures Invariant(Step(p, op))
  {
    hide Partition, Accounted, PostsInOrder, Ordered, StartedBefore, Step;
    StepKeepsOrder(p, op);
    StepKeepsPosts(p, op);
    match op
    case Start(time, cb) => StartKeeps(p, time, cb);
    case Cancel(slot) => CancelKeeps(p, slot);
    case Post(cb) => PostKeeps(p, cb);
    case Pop => PopKeeps(p);
  }

  lemma PostKeeps(p: Pool, cb: Callback)
    requires Partition(p) && Accounted(p)
    ensures Partition(Step(p, Post(cb))) && Accounted(Step(p, Post(cb)))
  {}

  /** What every run keeps, whatever the callbacks do. */
  lemma {:induction false} RunInvariant(ops: seq<Op>)
    ensures Invariant(Run(ops))
    decreases |ops|
  {
    if ops != [] {
      hide Invariant, Step;
      RunInvariant(ops[..|ops| - 1]);
      StepKeeps(Run(ops[..|ops| - 1]), ops[|ops| - 1]);
    } else {
      assert Invariant(EMPTY);
    }
  }

  /** A dispatched timer expires no later than any other pending one, and among equals it
      was started first; and posts go before timers. */
  lemma FiresEarliest(ops: seq<Op>)
    requires Run(ops).timers != [] && Run(ops + [Pop]).fired != Run(ops).fired
    ensures var p := Run(ops);
            && p.posts == []
            && Run(ops + [Pop]).fired == p.fired + [p.timers[0]]
            && forall t <- p.timers :: t == p.timers[0] || Before(p.timers[0], t)
  {
    RunInvariant(ops);
    var p := Run(ops);
    assert (ops + [Pop])[..|ops|] == ops;
    forall t | t in p.timers ensures t == p.timers[0] || Before(p.timers[0], t) {
      var i :| 0 <= i < |p.timers| && p.timers[i] == t;
    }
  }

  /** No more timers are ever allocated than were once pending at the same time. */
  lemma {:induction false} AllocationIsPeak(ops: seq<Op>)
    ensures Run(ops).total == Peak(ops)
    decreases |ops|
  {
    if ops != [] {
      var before, op := ops[..|ops| - 1], ops[|ops| - 1];
      AllocationIsPeak(before);
      RunInvariant(before);
      StepSizes(Run(before), op);
    }
  }

  /** A slot is added only when every slot is pending already. */
  lemma StepSizes(p: Pool, op: Op)
    requires Invariant(p)
    ensures var q := Step(p, op);
            && |p.timers| <= p.total
            && q.total == (if |q.timers| > p.total then |q.timers| else p.total)
  {
    if op.Start? {
      var slot := if p.idle != [] then p.idle[0] else p.total;
      InsertCounts(Pending(op.time, slot, p.starts, op.cb), p.timers, 0);
    }
  }

  // ---- What each call does ----

  /** Place i lies behind every entry that expires no later and in front of all that do. */
  ghost predicate Behind(timers: seq<Pending>, time: int, i: nat) {
    && i <= |timers|
    && (forall j :: 0 <= j < i ==> timers[j].time <= time)
    && (forall j :: i <= j < |timers| ==> time < timers[j].time)
  }

  ghost predicate Added(before: seq<Pending>, t: Pending, i: nat, after: seq<Pending>) {
    Behind(before, t.time, i) && after == before[..i] + [t] + before[i..]
  }

  lemma {:induction false} InsertAdds(t: Pending, timers: seq<Pending>) returns (i: nat)
    requires Ordered(timers)
    ensures Added(timers, t, i, Insert(t, timers))
    decreases |timers|
  {
    if timers == [] || t.time < timers[0].time {
      i := 0;
      assert forall j :: 0 < j < |timers| ==> Before(timers[0], timers[j]);
      assert timers[..0] + [t] + timers[0..] == [t] + timers;
    } else {
      var rest := timers[1..];
      var k := InsertAdds(t, rest);
      i := k + 1;
      assert forall j :: 1 <= j < |timers| ==> timers[j] == rest[j - 1];
      assert [timers[0]] + (rest[..k] + [t] + rest[k..]) == timers[..i] + [t] + timers[i..];
    }
  }

  /** A start takes the slot that has been idle longest, or a new one, and waits with its own
      time and callback behind every timer that expires no later. */
  lemma StartDoes(ops: seq<Op>, time: int, cb: Callback)
    ensures var p, q := Run(ops), Run(ops + [Start(time, cb)]);
            var slot := if p.idle != [] then p.idle[0] else p.total;
            && (exists i :: Added(p.timers, Pending(time, slot, p.starts, cb), i, q.timers))
            && (p.idle == [slot] + q.idle || p.idle == q.idle == [])
            && q.fired == p.fired && q.cancelled == p.cancelled && q.posts == p.posts && q.ran == p.ran
  {
    hide Insert;
    RunInvariant(ops);
    RunSnoc(ops, Start(time, cb));
    var p := Run(ops);
    var slot := if p.idle != [] then p.idle[0] else p.total;
    var i := InsertAdds(Pending(time, slot, p.starts, cb), p.timers);
    assert p.idle != [] ==> p.idle == [slot] + p.idle[1..];
  }

  ghost predicate Holds(timers: seq<Pending>, slot: nat) {
    exists t :: t in timers && t.slot == slot
  }

  /** Entry i of the slot was cancelled: it and nothing else is gone, and its slot is idle. */
  ghost predicate CancelledAt(p: Pool, q: Pool, slot: nat, i: nat) {
    && i < |p.timers| && p.timers[i].slot == slot
    && q.timers == p.timers[..i] + p.timers[i + 1..]
    && q.cancelled == p.cancelled + [p.timers[i]] && q.idle == p.idle + [slot]
    && q.fired == p.fired && q.posts == p.posts && q.ran == p.ran && q.total == p.total && q.starts == p.starts
  }

  lemma SlotOnce(p: Pool, i: nat, j: nat)
    requires Partition(p) && i < |p.timers| && j < |p.timers| && i != j
    ensures p.timers[i].slot != p.timers[j].slot
  {
    var k := p.timers[i].slot;
    if k == p.timers[j].slot {
      RemoveCounts(p.timers, i, k);
      var rest, at := Without(p.timers, i), if i < j then j - 1 else j;
      assert rest[at] == p.timers[j];
      CountsPending(rest, at);
    }
  }

  /** After a cancel its slot is not pending. A pending one is gone from among the others and
      goes to the end of the idle slots; a cancel of any other slot changes nothing. */
  lemma CancelDoes(ops: seq<Op>, slot: nat)
    ensures var p, q := Run(ops), Run(ops + [Cancel(slot)]);
            && !Holds(q.timers, slot)
            && (if Holds(p.timers, slot) then exists i :: CancelledAt(p, q, slot, i) else q == p)
  {
    hide Find, Partition, Invariant;
    RunInvariant(ops);
    RunSnoc(ops, Cancel(slot));
    var p, q := Run(ops), Run(ops + [Cancel(slot)]);
    PartitionOf(p);
    var i := Find(slot, p.timers);
    if i < |p.timers| {
      assert CancelledAt(p, q, slot, i);
      forall t | t in q.timers ensures t.slot != slot {
        var j :| 0 <= j < |q.timers| && q.timers[j] == t;
        SlotOnce(p, i, if j < i then j else j + 1);
      }
    }
  }

  lemma {:induction false} CancelledStay(ops: seq<Op>, later: seq<Op>, k: nat)
    ensures CountStart(Run(ops + later).cancelled, k) >= CountStart(Run(ops).cancelled, k)
    decreases |later|
  {
    hide Run;
    if later == [] {
      assert ops + later == ops;
    } else {
      var init, op := later[..|later| - 1], later[|later| - 1];
      CancelledStay(ops, init, k);
      assert ops + later == ops + init + [op];
      RunSnoc(ops + init, op);
      var p := Run(ops + init);
      if op.Cancel? && Find(op.slot, p.timers) < |p.timers| {
        StartSnoc(p.cancelled, p.timers[Find(op.slot, p.timers)], k);
      }
    }
  }

  lemma {:induction false} CountsStart(timers: seq<Pending>, i: nat)
    requires i < |timers|
    ensures CountStart(timers, timers[i].start) >= 1
    decreases i
  {
    if i > 0 { CountsStart(timers[1..], i - 1); }
  }

  /** A timer that was cancelled while pending never fires, whatever follows. */
  lemma CancelledNeverFires(ops: seq<Op>, t: Pending, later: seq<Op>)
    requires t in Run(ops).timers
    ensures forall f <- Run(ops + [Cancel(t.slot)] + later).fired :: f.start != t.start
  {
    hide Run, Step, Partition, Find, Holds;
    var p, c := Run(ops), ops + [Cancel(t.slot)];
    var q := Run(c + later);
    CancelDoes(ops, t.slot);
    OnlyOne(ops, t);
    StartSnoc(p.cancelled, t, t.start);
    CancelledStay(c, later, t.start);
    RunInvariant(c + later);
    forall f | f in q.fired ensures f.start != t.start {
      var i :| 0 <= i < |q.fired| && q.fired[i] == f;
      CountsStart(q.fired, i);
    }
  }

  /** What is cancelled is the one pending entry of its slot. */
  lemma OnlyOne(ops: seq<Op>, t: Pending)
    requires t in Run(ops).timers
    ensures Run(ops + [Cancel(t.slot)]).cancelled == Run(ops).cancelled + [t]
  {
    hide Run, Step, Partition, Invariant;
    var p, q := Run(ops), Run(ops + [Cancel(t.slot)]);
    CancelDoes(ops, t.slot);
    RunInvariant(ops);
    PartitionOf(p);
    assert Holds(p.timers, t.slot);
    var i: nat :| CancelledAt(p, q, t.slot, i);
    var j: nat :| j < |p.timers| && p.timers[j] == t;
    if i != j { SlotOnce(p, i, j); }
  }

  /** A dispatch runs the oldest post; without one it fires the first timer, whose slot goes
      to the end of the idle ones; with nothing waiting it does nothing. */
  lemma PopDoes(ops: seq<Op>)
    ensures var p, q := Run(ops), Run(ops + [Pop]);
            && (p.posts != [] ==> p.posts == [p.posts[0]] + q.posts && q.ran == p.ran + [p.posts[0]]
                                  && q.timers == p.timers && q.idle == p.idle && q.fired == p.fired)
            && (p.posts == [] && p.timers != [] ==>
                  && p.timers == [p.timers[0]] + q.timers && q.fired == p.fired + [p.timers[0]]
                  && q.idle == p.idle + [p.timers[0].slot] && q.ran == p.ran && q.posts == [])
            && (p.posts == [] && p.timers == [] ==> q == p)
            && q.cancelled == p.cancelled && q.total == p.total
  {
    RunSnoc(ops, Pop);
  }

  // ---- The work still pending ----

  /** Callbacks that running this one can cause, itself included. */
  function Weight(cb: Callback): nat
    decreases cb
  {
    1 + ScriptWeight(cb.script)
  }

  function ActionWeight(a: Action): nat
    decreases a
  {
    match a
    case DoStart(_, cb) => Weight(cb)
    case DoPost(cb) => Weight(cb)
    case DoCancel(_) => 0
  }

  function ScriptWeight(script: seq<Action>): nat
    decreases script
  {
    if script == [] then 0 else ActionWeight(script[0]) + ScriptWeight(script[1..])
  }

  function PostWeight(posts: seq<Callback>): nat {
    if posts == [] then 0 else Weight(posts[0]) + PostWeight(posts[1..])
  }

  function TimerWeight(timers: seq<Pending>): nat {
    if timers == [] then 0 else Weight(timers[0].cb) + TimerWeight(timers[1..])
  }

  function Work(p: Pool): nat {
    PostWeight(p.posts) + TimerWeight(p.timers)
  }

  lemma {:induction false} PostWeightSnoc(posts: seq<Callback>, cb: Callback)
    ensures PostWeight(posts + [cb]) == PostWeight(posts) + Weight(cb)
    decreases |posts|
  {
    if posts == [] {
      assert ([] + [cb])[1..] == [];
    } else {
      assert (posts + [cb])[1..] == posts[1..] + [cb];
      PostWeightSnoc(posts[1..], cb);
    }
  }

  lemma {:induction false} InsertWeight(p: Pending, timers: seq<Pending>)
    ensures TimerWeight(Insert(p, timers)) == TimerWeight(timers) + Weight(p.cb)
    decreases |timers|
  {
    if timers == [] || p.time < timers[0].time {
      assert ([p] + timers)[1..] == timers;
    } else {
      InsertWeight(p, timers[1..]);
      assert ([timers[0]] + Insert(p, timers[1..]))[1..] == Insert(p, timers[1..]);
    }
  }

  lemma {:induction false} WithoutWeight(timers: seq<Pending>, i: nat)
    requires i < |timers|
    ensures TimerWeight(Without(timers, i)) <= TimerWeight(timers)
    decreases i
  {
    if i == 0 {
      assert Without(timers, 0) == timers[1..];
    } else {
      WithoutWeight(timers[1..], i - 1);
      assert Without(timers, i)[1..] == Without(timers[1..], i - 1) && Without(timers, i)[0] == timers[0];
    }
  }

  /** What one action adds to the work. */
  function OpOf(a: Action): Op {
    match a
    case DoStart(time, cb) => Start(time, cb)
    case DoCancel(slot) => Cancel(slot)
    case DoPost(cb) => Post(cb)
  }

  /** The calls a callback makes, in order. */
  function OpsOf(script: seq<Action>): seq<Op> {
    if script == [] then [] else [OpOf(script[0])] + OpsOf(script[1..])
  }

  predicate Waiting(p: Pool) { p.posts != [] || p.timers != [] }

  /** The callback that is dispatched next. */
  function NextUp(p: Pool): Callback
    requires Waiting(p)
  {
    if p.posts != [] then p.posts[0] else p.timers[0].cb
  }

  /** One dispatch: the callback is taken out, and then makes its calls. */
  function Turn(ops: seq<Op>): seq<Op> {
    ops + [Pop] + if Waiting(Run(ops)) then OpsOf(NextUp(Run(ops)).script) else []
  }

  function Turns(ops: seq<Op>, n: nat): seq<Op> {
    if n == 0 then ops else Turn(Turns(ops, n - 1))
  }

  /** How many callbacks have been dispatched. */
  function Dispatched(p: Pool): nat { |p.ran| + |p.fired| }

  lemma {:induction false} CallsDispatchNothing(ops: seq<Op>, script: seq<Action>)
    ensures Dispatched(Run(ops + OpsOf(script))) == Dispatched(Run(ops))
    decreases |script|
  {
    hide Run;
    if script == [] {
      assert ops + [] == ops;
    } else {
      RunSnoc(ops, OpOf(script[0]));
      CallsDispatchNothing(ops + [OpOf(script[0])], script[1..]);
      assert ops + OpsOf(script) == ops + [OpOf(script[0])] + OpsOf(script[1..]);
    }
  }

  /** A dispatch dispatches one callback, when one is waiting. */
  lemma TurnDispatchesOne(ops: seq<Op>)
    ensures Dispatched(Run(Turn(ops))) == Dispatched(Run(ops)) + if Waiting(Run(ops)) then 1 else 0
  {
    hide Run;
    RunSnoc(ops, Pop);
    if Waiting(Run(ops)) {
      CallsDispatchNothing(ops + [Pop], NextUp(Run(ops)).script);
    } else {
      assert ops + [Pop] + [] == ops + [Pop];
    }
  }

  lemma {:induction false} OpsOfSnoc(script: seq<Action>, i: nat)
    requires i < |script|
    ensures OpsOf(script[..i + 1]) == OpsOf(script[..i]) + [OpOf(script[i])]
    decreases i
  {
    if i == 0 {
      assert script[..1] == [script[0]] && [script[0]][1..] == [] && script[..0] == [];
      assert [OpOf(script[0])] + [] == [OpOf(script[0])];
    } else {
      OpsOfSnoc(script[1..], i - 1);
      assert script[..i + 1][1..] == script[1..][..i] && script[..i][1..] == script[1..][..i - 1];
    }
  }

  lemma ActionWork(p: Pool, a: Action)
    ensures Work(Step(p, OpOf(a))) <= Work(p) + ActionWeight(a)
  {
    match a
    case DoStart(time, cb) =>
      var slot := if p.idle != [] then p.idle[0] else p.total;
      InsertWeight(Pending(time, slot, p.starts, cb), p.timers);
    case DoCancel(slot) =>
      var i := Find(slot, p.timers);
      if i < |p.timers| { WithoutWeight(p.timers, i); }
    case DoPost(cb) =>
      PostWeightSnoc(p.posts, cb);
  }

  // ---- The code ----

  class MockTimer {
    var callback: Callback

    constructor (cb: Callback)
      ensures callback == cb
    {
      callback := cb;
    }
  }

  ghost predicate TimesSorted(entries: seq<(int, MockTimer)>) {
    forall i, j :: 0 <= i < j < |entries| ==> entries[i].0 <= entries[j].0
  }

  /** The entry stands behind all that expire no later and in front of all that do. */
  ghost predicate EntryAdded(before: seq<(int, MockTimer)>, e: (int, MockTimer), i: nat, after: seq<(int, MockTimer)>) {
    && i <= |before|
    && (forall j :: 0 <= j < i ==> before[j].0 <= e.0)
    && (forall j :: i <= j < |before| ==> e.0 < before[j].0)
    && after == before[..i] + [e] + before[i..]
  }

  lemma EntryBehind(entries: seq<(int, MockTimer)>, e: (int, MockTimer), i: nat, r: seq<(int, MockTimer)>)
    requires entries != [] && entries[0].0 <= e.0 && EntryAdded(entries[1..], e, i, r)
    ensures EntryAdded(entries, e, i + 1, [entries[0]] + r)
  {
    var rest := entries[1..];
    assert forall j :: 1 <= j < |entries| ==> entries[j] == rest[j - 1];
    assert [entries[0]] + (rest[..i] + [e] + rest[i..]) == entries[..i + 1] + [e] + entries[i + 1..];
  }

  class MockTimerSource {
    var postQueue: seq<Callback>
    /** The multimap from expiry times to timers, in order. */
    var timerMap: seq<(int, MockTimer)>
    var idle: seq<MockTimer>
    var allTimers: seq<MockTimer>
    /** Every elementary step so far. */
    ghost var history: seq<Op>
    ghost var pool: Pool

    ghost predicate Valid()
      reads this, allTimers
    {
      && pool == Run(history)
      && postQueue == pool.posts
      && |allTimers| == pool.total
      && (forall i, j :: 0 <= i < j < |allTimers| ==> allTimers[i] != allTimers[j])
      && |idle| == |pool.idle|
      && (forall i :: 0 <= i < |idle| ==> pool.idle[i] < |allTimers| && idle[i] == allTimers[pool.idle[i]])
      && |timerMap| == |pool.timers|
      && (forall i :: 0 <= i < |timerMap| ==> Matches(timerMap[i], pool.timers[i]))
    }

    ghost predicate Matches(e: (int, MockTimer), t: Pending)
      reads this`allTimers, allTimers
    {
      e.0 == t.time && t.slot < |allTimers| && e.1 == allTimers[t.slot] && e.1.callback == t.cb
    }

    constructor ()
      ensures Valid() && history == []
    {
      postQueue, timerMap, idle, allTimers := [], [], [], [];
      history, pool := [], EMPTY;
    }

    /** Records a step that the concrete fields have taken. */
    ghost method Record(op: Op)
      requires pool == Run(history)
      modifies this`history, this`pool
      ensures history == old(history) + [op] && pool == Step(old(pool), op) == Run(history)
    {
      assert (history + [op])[..|history|] == history;
      history := history + [op];
      pool := Step(pool, op);
    }

    lemma EntryIs(time: int, t: MockTimer, p: Pending)
      requires p.time == time && p.slot < |allTimers| && t == allTimers[p.slot] && t.callback == p.cb
      ensures Matches((time, t), p)
    {
    }

    lemma TimesOrdered()
      requires Valid() && Ordered(pool.timers)
      ensures TimesSorted(timerMap)
    {
      forall i, j | 0 <= i < j < |timerMap| ensures timerMap[i].0 <= timerMap[j].0 {
        assert Matches(timerMap[i], pool.timers[i]) && Matches(timerMap[j], pool.timers[j]);
        assert Before(pool.timers[i], pool.timers[j]);
      }
    }

    /** The entries of a timer that is pending are one. */
    lemma EntryOnce(slot: nat, i: nat)
      requires Valid() && Partition(pool) && slot < |allTimers|
      requires i < |timerMap| && timerMap[i].1 == allTimers[slot]
      ensures forall j :: 0 <= j < |timerMap| && j != i ==> timerMap[j].1 != allTimers[slot]
    {
      assert Matches(timerMap[i], pool.timers[i]);
      forall j | 0 <= j < |timerMap| && j != i ensures timerMap[j].1 != allTimers[slot] {
        assert Matches(timerMap[j], pool.timers[j]);
        SlotOnce(pool, i, j);
      }
    }

    /** multimap::insert: the new entry goes behind all that expire no later. */
    method InsertEntry(e: (int, MockTimer), entries: seq<(int, MockTimer)>,
        ghost p: Pending, ghost timers: seq<Pending>)
      returns (r: seq<(int, MockTimer)>, ghost at: nat)
      requires |entries| == |timers| && (forall i :: 0 <= i < |entries| ==> Matches(entries[i], timers[i]))
      requires Matches(e, p) && TimesSorted(entries)
      ensures EntryAdded(entries, e, at, r)
      ensures |r| == |Insert(p, timers)| && forall i :: 0 <= i < |r| ==> Matches(r[i], Insert(p, timers)[i])
    {
      if |entries| == 0 || e.0 < entries[0].0 { return [e] + entries, 0; }
      ghost var k;
      r, k := InsertEntry(e, entries[1..], p, timers[1..]);
      EntryBehind(entries, e, k, r);
      r, at := [entries[0]] + r, k + 1;
    }

    /** A timer for cb: the first idle one, or a new one when none is idle. */
    method Acquire(cb: Callback, ghost slot: nat) returns (t: MockTimer)
      requires Valid() && Partition(pool)
      requires slot == if pool.idle != [] then pool.idle[0] else pool.total
      modifies this`idle, this`allTimers, idle
      ensures slot < |allTimers| && t == allTimers[slot] && t.callback == cb
      ensures |allTimers| == if pool.idle != [] then pool.total else pool.total + 1
      ensures forall i, j :: 0 <= i < j < |allTimers| ==> allTimers[i] != allTimers[j]
      ensures idle == (if old(idle) != [] then old(idle)[1..] else []) && |idle| == |Spare(pool)|
      ensures forall i :: 0 <= i < |idle| ==> Spare(pool)[i] < |allTimers| && idle[i] == allTimers[Spare(pool)[i]]
      ensures forall i :: 0 <= i < |timerMap| ==> Matches(timerMap[i], pool.timers[i])
      ensures old(idle) != [] ==> t == old(idle)[0] && allTimers == old(allTimers)
      ensures old(idle) == [] ==> fresh(t) && allTimers == old(allTimers) + [t]
    {
      FreeSlot(pool);
      assert forall i :: 0 <= i < |timerMap| ==> Matches(timerMap[i], pool.timers[i]);
      if |idle| > 0 {
        t := idle[0];
        idle := idle[1..];
        t.callback := cb;
      } else {
        t := new MockTimer(cb);
        allTimers := allTimers + [t];
      }
    }

    method Start(time: int, cb: Callback) returns (t: MockTimer)
      requires Valid()
      modifies this, idle
      ensures Valid() && history == old(history) + [Op.Start(time, cb)]
      ensures old(idle) != [] ==> t == old(idle)[0] && allTimers == old(allTimers)
      ensures old(idle) == [] ==> fresh(t) && allTimers == old(allTimers) + [t]
      ensures idle == (if old(idle) != [] then old(idle)[1..] else []) && postQueue == old(postQueue)
      ensures t.callback == cb && exists i :: EntryAdded(old(timerMap), (time, t), i, timerMap)
    {
      hide Run, Invariant, Insert, Partition, Step, Spare, Matches, Ordered, EntryAdded, TimesSorted;
      RunInvariant(history);
      PartitionOf(pool);
      OrderOf(pool);
      TimesOrdered();
      StartStep(pool, time, cb);
      ghost var slot := if pool.idle != [] then pool.idle[0] else pool.total;
      ghost var p := Pending(time, slot, pool.starts, cb);
      t := Acquire(cb, slot);
      EntryIs(time, t, p);
      ghost var at;
      timerMap, at := InsertEntry((time, t), timerMap, p, pool.timers);
      Record(Op.Start(time, cb));
    }

    /** Finds the timer among the pending ones; a timer that is not pending is left alone. */
    method Cancel(slot: nat)
      requires Valid()
      modifies this
      ensures Valid() && history == old(history) + [Op.Cancel(slot)] && allTimers == old(allTimers)
      ensures postQueue == old(postQueue)
      ensures slot < |allTimers| ==> forall e <- timerMap :: e.1 != allTimers[slot]
      ensures forall i :: 0 <= i < |old(timerMap)| && slot < |allTimers| && old(timerMap)[i].1 == allTimers[slot] ==>
                timerMap == old(timerMap[..i] + timerMap[i + 1..]) && idle == old(idle) + [allTimers[slot]]
      ensures slot >= |allTimers| || (forall e <- old(timerMap) :: e.1 != allTimers[slot]) ==>
                timerMap == old(timerMap) && idle == old(idle)
    {
      hide Run, Find, Invariant, Partition;
      RunInvariant(history);
      PartitionOf(pool);
      FreeSlot(pool);
      if slot < |allTimers| {
        for i := 0 to |timerMap|
          invariant forall j :: 0 <= j < i ==> pool.timers[j].slot != slot
        {
          assert Matches(timerMap[i], pool.timers[i]);
          if timerMap[i].1 == allTimers[slot] {
            FindIs(slot, pool.timers, i);
            EntryOnce(slot, i);
            idle := idle + [timerMap[i].1];
            timerMap := timerMap[..i] + timerMap[i + 1..];
            Record(Op.Cancel(slot));
            return;
          }
        }
      }
      FindNone(slot, pool.timers);
      Record(Op.Cancel(slot));
    }

    method Post(cb: Callback)
      requires Valid()
      modifies this
      ensures Valid() && history == old(history) + [Op.Post(cb)] && allTimers == old(allTimers)
      ensures postQueue == old(postQueue) + [cb] && timerMap == old(timerMap) && idle == old(idle)
    {
      postQueue := postQueue + [cb];
      Record(Op.Post(cb));
    }

    /** What DispatchOne does before it calls the handler it has taken. */
    method TakeNext() returns (found: bool, cb: Callback)
      requires Valid()
      modifies this
      ensures Valid() && history == old(history) + [Op.Pop] && allTimers == old(allTimers)
      ensures found <==> Waiting(old(pool))
      ensures found ==> cb == NextUp(old(pool))
      ensures postQueue == (if old(postQueue) != [] then old(postQueue)[1..] else [])
      ensures old(postQueue) != [] || !found ==> timerMap == old(timerMap) && idle == old(idle)
      ensures old(postQueue) == [] && found ==>
                timerMap == old(timerMap)[1..] && idle == old(idle) + [old(timerMap)[0].1]
    {
      hide Run;
      found, cb := false, Callback(0, []);
      if |postQueue| > 0 {
        found, cb := true, postQueue[0];
        postQueue := postQueue[1..];
      } else if |timerMap| > 0 {
        assert Matches(timerMap[0], pool.timers[0]);
        var timer := timerMap[0].1;
        idle := idle + [timer];
        timerMap := timerMap[1..];
        found, cb := true, timer.callback;
      }
      Record(Op.Pop);
    }

    /** The timers are the ones there were before, and new ones. */
    twostate predicate OnlyGrown()
      reads this
    {
      forall i :: 0 <= i < |allTimers| ==> allTimers[i] in old(allTimers) || fresh(allTimers[i])
    }

    /** What one action of a callback does. */
    method Perform(a: Action)
      requires Valid()
      modifies this, allTimers
      ensures Valid() && OnlyGrown() && history == old(history) + [OpOf(a)]
    {
      assert forall i :: 0 <= i < |idle| ==> idle[i] in allTimers;
      match a
      case DoStart(time, cb) => var t := Start(time, cb);
      case DoCancel(slot) => Cancel(slot);
      case DoPost(cb) => Post(cb);
    }

    /** A callback runs: it re-enters the timer source. */
    method Execute(script: seq<Action>)
      requires Valid()
      modifies this, allTimers
      ensures Valid() && OnlyGrown() && history == old(history) + OpsOf(script)
      ensures Work(pool) <= Work(old(pool)) + ScriptWeight(script)
    {
      hide Work, Run, Step, OpsOf;
      NoCalls(history, script);
      ghost var bound := Work(pool) + ScriptWeight(script);
      assert script[0..] == script;
      for i := 0 to |script|
        invariant Valid() && OnlyGrown() && history == old(history) + OpsOf(script[..i])
        invariant Work(pool) + ScriptWeight(script[i..]) <= bound
      {
        OpsOfSnoc(script, i);
        assert script[i..][1..] == script[i + 1..];
        ActionWork(pool, script[i]);
        RunSnoc(history, OpOf(script[i]));
        Perform(script[i]);
      }
      assert script[..|script|] == script;
    }

    /** Runs the next post, or else the next timer; the callback comes last. */
    method DispatchOne() returns (found: bool)
      requires Valid()
      modifies this, allTimers
      ensures Valid() && OnlyGrown() && history == Turn(old(history))
      ensures found <==> Waiting(old(pool))
      ensures Dispatched(pool) == Dispatched(old(pool)) + if found then 1 else 0
      ensures found ==> Work(pool) < Work(old(pool))
      ensures !found ==> pool == old(pool) && history == old(history) + [Op.Pop]
    {
      TurnDispatchesOne(history);
      hide Run;
      RunSnoc(history, Op.Pop);
      PopWork(pool);
      var cb;
      found, cb := TakeNext();
      if found { Execute(cb.script); } else { assert history + [] == history; }
    }

    /** Dispatches until the maximum or until nothing is pending. Callbacks may start and
        post more, but there is only so much work in them. */
    method Dispatch(maximum: nat) returns (num: nat)
      requires Valid()
      modifies this, allTimers
      ensures Valid() && OnlyGrown() && num <= maximum
      ensures history == Turns(old(history), num) + if num < maximum then [Op.Pop] else []
      ensures Dispatched(pool) == Dispatched(old(pool)) + num
      ensures num < maximum ==> !Waiting(pool)
      ensures num <= Work(old(pool))
    {
      hide Work, Run, Turn, Dispatched;
      num := 0;
      while num < maximum
        invariant Valid() && OnlyGrown() && num <= maximum && history == Turns(old(history), num)
        invariant Dispatched(pool) == Dispatched(old(pool)) + num
        invariant num + Work(pool) <= Work(old(pool))
      {
        var found := DispatchOne();
        if !found { return; }
        num := num + 1;
      }
    }
  }

  lemma NoCalls(ops: seq<Op>, script: seq<Action>)
    ensures ops + OpsOf(script[..0]) == ops
  {
  }

  lemma RunSnoc(ops: seq<Op>, op: Op)
    ensures Run(ops + [op]) == Step(Run(ops), op)
  {
    assert (ops + [op])[..|ops|] == ops;
  }

  /** Taking a callback out leaves what its script may add. */
  lemma PopWork(p: Pool)
    ensures p.posts != [] ==> Work(p) == Work(Step(p, Pop)) + 1 + ScriptWeight(p.posts[0].script)
    ensures p.posts == [] && p.timers != [] ==> Work(p) == Work(Step(p, Pop)) + 1 + ScriptWeight(p.timers[0].cb.script)
    ensures p.posts == [] && p.timers == [] ==> Step(p, Pop) == p
  {}

  lemma PartitionOf(p: Pool)
    requires Invariant(p)
    ensures Partition(p)
  {}

  lemma OrderOf(p: Pool)
    requires Invariant(p)
    ensures Ordered(p.timers)
  {}

  lemma {:induction false} FindIs(slot: nat, timers: seq<Pending>, i: nat)
    requires i < |timers| && timers[i].slot == slot
    requires forall j :: 0 <= j < i ==> timers[j].slot != slot
    ensures Find(slot, timers) == i
  {
    var k := Find(slot, timers);
    FindFinds(slot, timers, i);
  }

  lemma {:induction false} FindFinds(slot: nat, timers: seq<Pending>, i: nat)
    requires i < |timers| && timers[i].slot == slot
    ensures Find(slot, timers) < |timers|
    decreases i
  {
    if timers[0].slot != slot { FindFinds(slot, timers[1..], i - 1); }
  }

  lemma FindNone(slot: nat, timers: seq<Pending>)
    requires forall j :: 0 <= j < |timers| ==> timers[j].slot != slot
    ensures Find(slot, timers) == |timers|
  {
    var k := Find(slot, timers);
  }

  lemma StartStep(p: Pool, time: int, cb: Callback)
    ensures var slot, q := if p.idle != [] then p.idle[0] else p.total, Step(p, Op.Start(time, cb));
            && q.posts == p.posts && q.timers == Insert(Pending(time, slot, p.starts, cb), p.timers)
            && q.idle == Spare(p) && q.total == (if p.idle != [] then p.total else p.total + 1)
  {
  }

  /** The slots still idle after a start. */
  ghost function Spare(p: Pool): seq<nat> {
    if p.idle != [] then p.idle[1..] else []
  }

  /** The slot a start takes is not pending. */
  lemma FreeSlot(p: Pool)
    requires Partition(p)
    ensures var slot := if p.idle != [] then p.idle[0] else p.total;
            forall i :: 0 <= i < |p.timers| ==> p.timers[i].slot != slot
    ensures forall i :: 0 <= i < |p.idle| ==> p.idle[i] < p.total
    ensures forall i :: 0 <= i < |p.timers| ==> p.timers[i].slot < p.total
  {
    forall i | 0 <= i < |p.timers|
      ensures p.timers[i].slot < p.total && p.timers[i].slot != (if p.idle != [] then p.idle[0] else p.total)
    {
      var k := p.timers[i].slot;
      CountsPending(p.timers, i);
    }
    forall i | 0 <= i < |p.idle| ensures p.idle[i] < p.total {
      CountsIdle(p.idle, i);
    }
  }

  lemma {:induction false} CountsPending(timers: seq<Pending>, i: nat)
    requires i < |timers|
    ensures CountSlot(timers, timers[i].slot) >= 1
    decreases i
  {
    if i > 0 { CountsPending(timers[1..], i - 1); }
  }

  lemma {:induction false} CountsIdle(idle: seq<nat>, i: nat)
    requires i < |idle|
    ensures CountIdle(idle, idle[i]) >= 1
    decreases i
  {
    if i > 0 { CountsIdle(idle[1..], i - 1); }
  }
}
