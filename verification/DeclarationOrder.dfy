/** The order in which the binding generator emits class declarations: sort by name,
    then sweep the list until a sweep emits nothing new. */
module DeclarationOrder {
  import opened Octets
  import opened Permutations

  type Name = string

  /** A type to declare and the names it must come after. */
  datatype Snippet = Snippet(name: Name, deps: seq<Name>)

  // ---- Sorting by name ----

  type Order = (Name, Name) -> bool

  ghost predicate TotalOrder(leq: Order) {
    && (forall a, b :: leq(a, b) || leq(b, a))
    && (forall a, b :: leq(a, b) && leq(b, a) ==> a == b)
    && (forall a, b, c :: leq(a, b) && leq(b, c) ==> leq(a, c))
  }

  ghost predicate Sorted(leq: Order, s: seq<Snippet>) {
    forall i, j :: 0 <= i < j < |s| ==> leq(s[i].name, s[j].name)
  }

  ghost predicate DistinctNames(s: seq<Snippet>) {
    forall i, j :: 0 <= i < j < |s| ==> s[i].name != s[j].name
  }

  function Insert(leq: Order, x: Snippet, s: seq<Snippet>): seq<Snippet> {
    if s == [] then [x]
    else if leq(x.name, s[0].name) then [x] + s
    else [s[0]] + Insert(leq, x, s[1..])
  }

  function Sort(leq: Order, s: seq<Snippet>): seq<Snippet> {
    if s == [] then [] else Insert(leq, s[0], Sort(leq, s[1..]))
  }

  lemma {:induction false} InsertAdds(leq: Order, x: Snippet, s: seq<Snippet>)
    ensures multiset(Insert(leq, x, s)) == multiset(s) + multiset{x}
    decreases |s|
  {
    if s != [] && !leq(x.name, s[0].name) {
      InsertAdds(leq, x, s[1..]);
      assert s == [s[0]] + s[1..];
    }
  }

  lemma {:induction false} InsertSorts(leq: Order, x: Snippet, s: seq<Snippet>)
    requires TotalOrder(leq) && Sorted(leq, s)
    ensures Sorted(leq, Insert(leq, x, s))
    decreases |s|
  {
    if s == [] {
    } else if leq(x.name, s[0].name) {
      forall j | 0 <= j < |s| ensures leq(x.name, s[j].name) {
        assert leq(s[0].name, s[0].name);
      }
    } else {
      var t := Insert(leq, x, s[1..]);
      InsertSorts(leq, x, s[1..]);
      InsertAdds(leq, x, s[1..]);
      forall j | 0 <= j < |t| ensures leq(s[0].name, t[j].name) {
        assert t[j] in multiset(t);
        assert t[j] == x || t[j] in s[1..];
      }
    }
  }

  lemma {:induction false} SortSorts(leq: Order, s: seq<Snippet>)
    requires TotalOrder(leq)
    ensures Sorted(leq, Sort(leq, s)) && multiset(Sort(leq, s)) == multiset(s)
    decreases |s|
  {
    if s != [] {
      SortSorts(leq, s[1..]);
      InsertSorts(leq, s[0], Sort(leq, s[1..]));
      InsertAdds(leq, s[0], Sort(leq, s[1..]));
      assert s == [s[0]] + s[1..];
    }
  }

  // ---- The sweeps, on descriptions ----

  ghost function Names(list: seq<Snippet>, out: seq<nat>): set<Name> {
    set k | k in out && k < |list| :: list[k].name
  }

  /** Everything the type depends on has been emitted. */
  ghost predicate Ready(list: seq<Snippet>, out: seq<nat>, i: nat)
    requires i < |list|
  {
    forall d <- list[i].deps :: d in Names(list, out)
  }

  ghost predicate NoRepeats(list: seq<Snippet>, out: seq<nat>) {
    && (forall k :: 0 <= k < |out| ==> out[k] < |list|)
    && (forall i, j :: 0 <= i < j < |out| ==> out[i] != out[j])
  }

  ghost function Advance(list: seq<Snippet>, out: seq<nat>, i: nat): seq<nat>
    requires i < |list|
  {
    if i !in out && Ready(list, out, i) then out + [i] else out
  }

  /** One sweep from index i on; a type emitted early in a sweep releases later ones. */
  ghost function Sweep(list: seq<Snippet>, i: nat, out: seq<nat>): seq<nat>
    requires i <= |list|
    decreases |list| - i
  {
    if i == |list| then out else Sweep(list, i + 1, Advance(list, out, i))
  }

  ghost function Waiting(list: seq<Snippet>, out: seq<nat>): set<nat> {
    set i | 0 <= i < |list| && i !in out
  }

  ghost function Emit(list: seq<Snippet>, out: seq<nat>): seq<nat>
    requires NoRepeats(list, out)
    decreases Waiting(list, out)
  {
    SweepGrows(list, 0, out);
    var next := Sweep(list, 0, out);
    if next == out then out else Emit(list, next)
  }

  lemma AdvanceGrows(list: seq<Snippet>, out: seq<nat>, i: nat)
    requires i < |list| && NoRepeats(list, out)
    ensures var next := Advance(list, out, i);
            && out <= next && NoRepeats(list, next)
            && (next != out ==> Waiting(list, next) < Waiting(list, out))
  {
    var next := Advance(list, out, i);
    if next != out {
      assert i in next && i in Waiting(list, out);
      assert forall k :: k in out ==> k in next;
    }
  }

  lemma {:induction false} SweepGrows(list: seq<Snippet>, i: nat, out: seq<nat>)
    requires i <= |list| && NoRepeats(list, out)
    ensures var next := Sweep(list, i, out);
            && out <= next && NoRepeats(list, next)
            && (next != out ==> Waiting(list, next) < Waiting(list, out))
    decreases |list| - i
  {
    if i < |list| {
      AdvanceGrows(list, out, i);
      SweepGrows(list, i + 1, Advance(list, out, i));
    }
  }

  /** The emitted declarations, in order. */
  ghost function Declarations(leq: Order, types: seq<Snippet>): seq<Snippet> {
    var list := Sort(leq, types);
    Pick(list, Emit(list, []))
  }

  ghost function Pick(list: seq<Snippet>, out: seq<nat>): seq<Snippet> {
    if out == [] then []
    else if out[|out| - 1] < |list| then Pick(list, out[..|out| - 1]) + [list[out[|out| - 1]]]
    else Pick(list, out[..|out| - 1])
  }

  // ---- What the order guarantees ----

  /** Every emitted type comes after everything it depends on. */
  ghost predicate Sound(list: seq<Snippet>, out: seq<nat>) {
    NoRepeats(list, out) && forall k :: 0 <= k < |out| ==> Ready(list, out[..k], out[k])
  }

  /** Every type left over still waits for something that was not emitted. */
  ghost predicate Maximal(list: seq<Snippet>, out: seq<nat>) {
    forall i: nat :: i < |list| && i !in out ==> !Ready(list, out, i)
  }

  lemma AdvanceSound(list: seq<Snippet>, out: seq<nat>, i: nat)
    requires i < |list| && Sound(list, out)
    ensures Sound(list, Advance(list, out, i))
  {
    AdvanceGrows(list, out, i);
    var next := Advance(list, out, i);
    forall k | 0 <= k < |next| ensures Ready(list, next[..k], next[k]) {
      assert next[..k] == out[..k];
    }
  }

  lemma SoundUnrepeated(list: seq<Snippet>, out: seq<nat>)
    requires Sound(list, out)
    ensures NoRepeats(list, out)
  {
    hide NoRepeats, Ready;
  }

  lemma AdvanceStays(list: seq<Snippet>, out: seq<nat>, i: nat)
    requires i < |list|
    ensures Advance(list, out, i) == out ==> i in out || !Ready(list, out, i)
  {
    hide Ready, NoRepeats;
  }

  lemma {:induction false} SweepSound(list: seq<Snippet>, i: nat, out: seq<nat>)
    requires i <= |list| && Sound(list, out)
    ensures Sound(list, Sweep(list, i, out))
    ensures Sweep(list, i, out) == out ==> forall j: nat :: i <= j < |list| && j !in out ==> !Ready(list, out, j)
    decreases |list| - i
  {
    hide Advance, Ready, Sound, Waiting;
    if i < |list| {
      AdvanceSound(list, out, i);
      SoundUnrepeated(list, out);
      SoundUnrepeated(list, Advance(list, out, i));
      AdvanceGrows(list, out, i);
      AdvanceStays(list, out, i);
      SweepSound(list, i + 1, Advance(list, out, i));
      SweepGrows(list, i + 1, Advance(list, out, i));
    }
  }

  lemma {:induction false} EmitCorrect(list: seq<Snippet>, out: seq<nat>)
    requires Sound(list, out)
    ensures Sound(list, Emit(list, out)) && Maximal(list, Emit(list, out))
    decreases Waiting(list, out)
  {
    SweepSound(list, 0, out);
    SweepGrows(list, 0, out);
    var next := Sweep(list, 0, out);
    if next != out { EmitCorrect(list, next); }
  }

  // ---- Which of the possible orders ----

  /** Place i comes after a and before b on the way round the list. */
  predicate Passed(a: nat, i: nat, b: nat) {
    if a < b then a < i < b else a < i || i < b
  }

  /** Nothing can be emitted on the way from the last emitted type to place b; at the start,
      before place b. */
  ghost predicate NoneMissed(list: seq<Snippet>, out: seq<nat>, b: nat) {
    forall i: nat :: i < |list| && (if out == [] then i < b else Passed(out[|out| - 1], i, b)) ==>
      i in out || !Ready(list, out, i)
  }

  /** The next type emitted is always the first on the way round that is ready. */
  ghost predicate RoundRobin(list: seq<Snippet>, out: seq<nat>) {
    forall k :: 0 <= k < |out| ==> NoneMissed(list, out[..k], out[k])
  }

  lemma AdvanceRound(list: seq<Snippet>, out: seq<nat>, i: nat)
    requires i < |list| && NoRepeats(list, out) && RoundRobin(list, out) && NoneMissed(list, out, i)
    ensures var next := Advance(list, out, i); RoundRobin(list, next) && NoneMissed(list, next, i + 1)
  {
    hide Ready;
    var next := Advance(list, out, i);
    if next == out {
      AdvanceStays(list, out, i);
    } else {
      forall k | 0 <= k < |next| ensures NoneMissed(list, next[..k], next[k]) {
        assert next[..k] == out[..k];
        assert out[..|out|] == out;
      }
    }
  }

  lemma {:induction false} SweepRound(list: seq<Snippet>, i: nat, out: seq<nat>)
    requires i <= |list| && NoRepeats(list, out) && RoundRobin(list, out) && NoneMissed(list, out, i)
    ensures RoundRobin(list, Sweep(list, i, out)) && NoneMissed(list, Sweep(list, i, out), |list|)
    decreases |list| - i
  {
    hide Ready, Advance, RoundRobin, NoneMissed;
    if i < |list| {
      AdvanceGrows(list, out, i);
      AdvanceRound(list, out, i);
      SweepRound(list, i + 1, Advance(list, out, i));
    }
  }

  /** The end of one sweep is the start of the next. */
  lemma RoundAgain(list: seq<Snippet>, out: seq<nat>)
    requires NoRepeats(list, out) && NoneMissed(list, out, |list|)
    ensures NoneMissed(list, out, 0)
  {
    hide Ready;
  }

  lemma {:induction false} EmitRound(list: seq<Snippet>, out: seq<nat>)
    requires NoRepeats(list, out) && RoundRobin(list, out) && NoneMissed(list, out, 0)
    ensures RoundRobin(list, Emit(list, out))
    decreases Waiting(list, out)
  {
    hide Ready, RoundRobin, NoneMissed;
    SweepGrows(list, 0, out);
    SweepRound(list, 0, out);
    var next := Sweep(list, 0, out);
    RoundAgain(list, next);
    if next != out { EmitRound(list, next); }
  }

  /** The emitted order goes round the sorted list: each type is the first after the one
      before it that is ready then, and the first is the first with no dependencies. */
  lemma EmitIsRoundRobin(list: seq<Snippet>)
    ensures RoundRobin(list, Emit(list, []))
  {
    hide Ready;
    EmitRound(list, []);
  }

  /** Of two ready types, one would be missed on the way to the other. */
  lemma SameNext(list: seq<Snippet>, out: seq<nat>, a: nat, b: nat)
    requires a < |list| && b < |list| && a !in out && b !in out && NoRepeats(list, out)
    requires Ready(list, out, a) && NoneMissed(list, out, a)
    requires Ready(list, out, b) && NoneMissed(list, out, b)
    ensures a == b
  {
    hide Ready;
    if out != [] { assert out[|out| - 1] in out; }
  }

  /** Soundness, maximality and this order determine what is emitted. */
  lemma {:induction false} OrderUnique(list: seq<Snippet>, a: seq<nat>, b: seq<nat>, k: nat)
    requires Sound(list, a) && Maximal(list, a) && RoundRobin(list, a)
    requires Sound(list, b) && Maximal(list, b) && RoundRobin(list, b)
    requires k <= |a| && k <= |b| && a[..k] == b[..k]
    ensures a == b
    decreases |a| - k
  {
    hide Ready, NoneMissed;
    if k == |a| {
      assert a[..k] == a;
      if k < |b| { NotInPrefix(list, b, k); }
      assert b[..|b|] == b;
    } else if k == |b| {
      assert b[..k] == b;
      NotInPrefix(list, a, k);
      assert false;
    } else {
      NotInPrefix(list, a, k);
      NotInPrefix(list, b, k);
      PrefixUnrepeated(list, a, k);
      SameNext(list, a[..k], a[k], b[k]);
      assert a[..k + 1] == a[..k] + [a[k]] && b[..k + 1] == b[..k] + [b[k]];
      OrderUnique(list, a, b, k + 1);
    }
  }

  lemma NotInPrefix(list: seq<Snippet>, out: seq<nat>, k: nat)
    requires NoRepeats(list, out) && k < |out|
    ensures out[k] !in out[..k] && out[k] < |list|
  {
  }

  lemma PrefixUnrepeated(list: seq<Snippet>, out: seq<nat>, k: nat)
    requires NoRepeats(list, out) && k <= |out|
    ensures NoRepeats(list, out[..k])
  {
  }

  /** So the emitted order is the one list that is sound, maximal and goes round. */
  lemma EmitUnique(list: seq<Snippet>, out: seq<nat>)
    ensures Sound(list, out) && Maximal(list, out) && RoundRobin(list, out) <==> out == Emit(list, [])
  {
    hide Sound, Maximal, RoundRobin, Ready, Sweep;
    SoundNothing(list);
    EmitCorrect(list, []);
    EmitIsRoundRobin(list);
    if Sound(list, out) && Maximal(list, out) && RoundRobin(list, out) {
      OrderUnique(list, out, Emit(list, []), 0);
    }
  }

  lemma SoundNothing(list: seq<Snippet>)
    ensures Sound(list, [])
  {
  }

  lemma {:induction false} PickAt(list: seq<Snippet>, out: seq<nat>)
    requires NoRepeats(list, out)
    ensures |Pick(list, out)| == |out| && forall k :: 0 <= k < |out| ==> Pick(list, out)[k] == list[out[k]]
    decreases |out|
  {
    if out != [] {
      PrefixUnrepeated(list, out, |out| - 1);
      PickAt(list, out[..|out| - 1]);
    }
  }

  /** A set of names closed under "all dependencies present implies present". */
  ghost predicate Closed(list: seq<Snippet>, s: set<Name>) {
    forall t <- list :: (forall d <- t.deps :: d in s) ==> t.name in s
  }

  /** The emitted names are the least closed set. */
  lemma LeastFixpoint(list: seq<Snippet>)
    ensures var names := Names(list, Emit(list, []));
            && Closed(list, names)
            && (forall s :: Closed(list, s) ==> names <= s)
  {
    var out := Emit(list, []);
    EmitCorrect(list, []);
    forall t | t in list && (forall d <- t.deps :: d in Names(list, out)) ensures t.name in Names(list, out) {
      var i :| 0 <= i < |list| && list[i] == t;
      assert Ready(list, out, i);
    }
    forall s | Closed(list, s) ensures Names(list, out) <= s {
      SoundInClosed(list, out, s);
    }
  }

  lemma {:induction false} SoundInClosed(list: seq<Snippet>, out: seq<nat>, s: set<Name>)
    requires Sound(list, out) && Closed(list, s)
    ensures Names(list, out) <= s
    decreases |out|
  {
    if out != [] {
      var init, last := out[..|out| - 1], out[|out| - 1];
      forall k | 0 <= k < |init| ensures Ready(list, init[..k], init[k]) {
        assert init[..k] == out[..k];
      }
      SoundInClosed(list, init, s);
      assert Ready(list, init, last);
      assert list[last] in list;
      assert out == init + [last];
    }
  }

  /** The dependencies can be ranked: each one is declared by some type of smaller rank. */
  ghost predicate Ranked(list: seq<Snippet>, rank: seq<nat>) {
    |rank| == |list| &&
    forall i, d :: 0 <= i < |list| && d in list[i].deps ==>
      exists j :: 0 <= j < |list| && list[j].name == d && rank[j] < rank[i]
  }

  ghost predicate Covers(out: seq<nat>, n: nat) {
    forall i: nat :: i < n ==> i in out
  }

  ghost predicate Complete(list: seq<Snippet>, out: seq<nat>) {
    Covers(out, |list|)
  }

  /** Everything is emitted exactly when the dependency graph is closed and acyclic. */
  lemma CompleteIffRanked(list: seq<Snippet>)
    ensures Complete(list, Emit(list, [])) <==> exists rank :: Ranked(list, rank)
  {
    var out := Emit(list, []);
    EmitCorrect(list, []);
    if Complete(list, out) {
      PositionsRank(list, out);
    } else {
      forall rank ensures !Ranked(list, rank) {
        RankedComplete(list, out, rank);
      }
    }
  }

  lemma RankedComplete(list: seq<Snippet>, out: seq<nat>, rank: seq<nat>)
    requires Maximal(list, out)
    ensures Ranked(list, rank) ==> Complete(list, out)
  {
    if Ranked(list, rank) {
      forall i: nat | i < |list| ensures i in out { RankedEmitted(list, out, rank, i); }
    }
  }

  ghost function Position(out: seq<nat>, i: nat): (k: nat)
    requires i in out
    ensures k < |out| && out[k] == i
  {
    var k :| 0 <= k < |out| && out[k] == i; k
  }

  ghost function Positions(list: seq<Snippet>, out: seq<nat>): seq<nat>
    requires Complete(list, out)
  {
    seq(|list|, (i: nat) requires i < |list| => Position(out, i))
  }

  lemma PositionsRank(list: seq<Snippet>, out: seq<nat>)
    requires Sound(list, out) && Complete(list, out)
    ensures Ranked(list, Positions(list, out))
  {
    var rank := Positions(list, out);
    forall i, d | 0 <= i < |list| && d in list[i].deps
      ensures exists j :: 0 <= j < |list| && list[j].name == d && rank[j] < rank[i]
    {
      var k := Position(out, i);
      assert Ready(list, out[..k], out[k]);
      var j :| j in out[..k] && j < |list| && list[j].name == d;
      var m :| 0 <= m < k && out[m] == j;
      assert Position(out, j) == m;
      assert rank[j] == m;
    }
  }

  lemma {:induction false} RankedEmitted(list: seq<Snippet>, out: seq<nat>, rank: seq<nat>, i: nat)
    requires Maximal(list, out) && Ranked(list, rank) && i < |list|
    ensures i in out
    decreases rank[i]
  {
    forall d | d in list[i].deps ensures d in Names(list, out) {
      var j :| 0 <= j < |list| && list[j].name == d && rank[j] < rank[i];
      RankedEmitted(list, out, rank, j);
    }
    assert Ready(list, out, i);
  }

  // ---- Independence from the enumeration order ----

  lemma {:induction false} SortedUnique(leq: Order, a: seq<Snippet>, b: seq<Snippet>)
    requires TotalOrder(leq) && Sorted(leq, a) && Sorted(leq, b) && DistinctNames(a)
    requires multiset(a) == multiset(b)
    ensures a == b
    decreases |a|
  {
    if a == [] {
      assert |multiset(b)| == 0;
    } else {
      var j := FindFirst(a, b);
      var i := FindFirst(b, a);
      assert leq(a[0].name, a[0].name) && leq(b[0].name, b[0].name);
      assert a[0].name == a[i].name;
      assert j == 0 ==> Without(b, j) == b[1..];
      assert a == [a[0]] + a[1..] && b == [b[0]] + b[1..];
      assert multiset(b) == multiset{b[0]} + multiset(b[1..]);
      assert multiset(a) == multiset{a[0]} + multiset(a[1..]);
      assert multiset(a[1..]) == multiset(b[1..]);
      TailSorted(leq, a);
      TailSorted(leq, b);
      SortedUnique(leq, a[1..], b[1..]);
    }
  }

  lemma TailSorted(leq: Order, a: seq<Snippet>)
    requires a != []
    ensures Sorted(leq, a) ==> Sorted(leq, a[1..])
    ensures DistinctNames(a) ==> DistinctNames(a[1..])
  {
    assert forall i :: 0 <= i < |a[1..]| ==> a[1..][i] == a[i + 1];
  }

  /** Whatever order a hash table yields the types in, the declarations come out the same. */
  lemma EnumerationIndependence(leq: Order, a: seq<Snippet>, b: seq<Snippet>)
    requires TotalOrder(leq) && DistinctNames(a) && multiset(a) == multiset(b)
    ensures Declarations(leq, a) == Declarations(leq, b)
  {
    SortSorts(leq, a);
    SortSorts(leq, b);
    DistinctSort(a, Sort(leq, a));
    SortedUnique(leq, Sort(leq, a), Sort(leq, b));
  }

  lemma DistinctSort(a: seq<Snippet>, b: seq<Snippet>)
    requires DistinctNames(a) && multiset(a) == multiset(b)
    ensures DistinctNames(b)
  {
    forall i, j | 0 <= i < j < |b| ensures b[i].name != b[j].name {
      var k, m := TwoPositions(a, b, i, j);
    }
  }

  // ---- The code ----

  function Drop(deps: seq<Name>, n: Name): seq<Name> {
    if deps == [] then []
    else (if deps[0] == n then [] else [deps[0]]) + Drop(deps[1..], n)
  }

  lemma {:induction false} DropLast(deps: seq<Name>, x: Name, n: Name)
    ensures Drop(deps + [x], n) == Drop(deps, n) + (if x == n then [] else [x])
  {
    if deps == [] {
      assert deps + [x] == [x] && [x][1..] == [];
    } else {
      assert (deps + [x])[1..] == deps[1..] + [x];
      DropLast(deps[1..], x, n);
    }
  }

  /** The dependencies still in the way once the given names have been emitted. */
  ghost function Left(deps: seq<Name>, emitted: set<Name>): seq<Name> {
    if deps == [] then []
    else (if deps[0] in emitted then [] else [deps[0]]) + Left(deps[1..], emitted)
  }

  lemma {:induction false} LeftStep(deps: seq<Name>, emitted: set<Name>, n: Name)
    ensures Drop(Left(deps, emitted), n) == Left(deps, emitted + {n})
    decreases |deps|
  {
    if deps != [] {
      LeftStep(deps[1..], emitted, n);
      var rest := Left(deps[1..], emitted);
      if deps[0] !in emitted {
        assert ([deps[0]] + rest)[1..] == rest;
      } else {
        assert [] + rest == rest;
      }
    }
  }

  lemma {:induction false} LeftEmpty(deps: seq<Name>, emitted: set<Name>)
    ensures Left(deps, emitted) == [] <==> forall d <- deps :: d in emitted
    decreases |deps|
  {
    if deps != [] {
      LeftEmpty(deps[1..], emitted);
      assert deps == [deps[0]] + deps[1..];
    }
  }

  lemma {:induction false} LeftNone(deps: seq<Name>)
    ensures Left(deps, {}) == deps
    decreases |deps|
  {
    if deps != [] { LeftNone(deps[1..]); }
  }

  function Released(deps: Option<seq<Name>>, n: Name): Option<seq<Name>> {
    if deps.Some? then Some(Drop(deps.value, n)) else None
  }

  /** A type under way: `dependencies` shrinks while other types are emitted and
      becomes None (null) once the type itself is. */
  class TypeSnippet {
    const description: Snippet
    var dependencies: Option<seq<Name>>

    constructor (d: Snippet)
      ensures description == d && dependencies == Some(d.deps)
    {
      description := d;
      dependencies := Some(d.deps);
    }

    /** The inner loop of removeEntries: RemoveAt for every occurrence, from the back. */
    method RemoveDependency(n: Name)
      modifies this`dependencies
      ensures dependencies == Released(old(dependencies), n)
    {
      if dependencies.None? { return; }
      ghost var deps := dependencies.value;
      var j := |dependencies.value|;
      assert deps[..j] == deps && deps + [] == deps && Drop(deps, n) + [] == Drop(deps, n);
      ghost var tail := [];
      while j > 0
        invariant 0 <= j <= |deps|
        invariant dependencies == Some(deps[..j] + tail)
        invariant Drop(deps, n) == Drop(deps[..j], n) + tail
      {
        j := j - 1;
        assert deps[..j + 1] == deps[..j] + [deps[j]];
        DropLast(deps[..j], deps[j], n);
        var now := dependencies.value;
        assert now[j] == deps[j];
        if now[j] == n {
          dependencies := Some(now[..j] + now[j + 1..]);
          assert now[..j] + now[j + 1..] == deps[..j] + tail;
        } else {
          tail := [deps[j]] + tail;
          assert now == deps[..j] + tail;
        }
      }
      assert Drop([], n) == [];
    }
  }

  function Describe(list: seq<TypeSnippet>): (r: seq<Snippet>)
    ensures |r| == |list| && forall i :: 0 <= i < |list| ==> r[i] == list[i].description
  {
    if list == [] then [] else [list[0].description] + Describe(list[1..])
  }

  ghost predicate DistinctObjects(list: seq<TypeSnippet>) {
    forall i, j :: 0 <= i < j < |list| ==> list[i] != list[j]
  }

  /** What the dependencies field of type i must hold after out has been emitted. */
  ghost function Expected(list: seq<Snippet>, out: seq<nat>, i: nat): Option<seq<Name>>
    requires i < |list|
  {
    if i in out then None else Some(Left(list[i].deps, Names(list, out)))
  }

  /** The mutable list agrees with what has been emitted so far. */
  ghost predicate Tracks(list: seq<TypeSnippet>, out: seq<nat>)
    reads list
  {
    forall i: nat :: i < |list| ==> list[i].dependencies == Expected(Describe(list), out, i)
  }

  method RemoveEntries(list: seq<TypeSnippet>, n: Name)
    requires DistinctObjects(list)
    modifies list
    ensures forall t <- list :: t.dependencies == Released(old(t.dependencies), n)
  {
    for k := 0 to |list|
      invariant forall i :: 0 <= i < k ==> list[i].dependencies == Released(old(list[i].dependencies), n)
      invariant forall i :: k <= i < |list| ==> list[i].dependencies == old(list[i].dependencies)
    {
      list[k].RemoveDependency(n);
    }
  }

  /** Emits type i: releases everything that waited for it. */
  method EmitType(list: seq<TypeSnippet>, i: nat, ghost out: seq<nat>)
    requires DistinctObjects(list) && i < |list| && i !in out && Tracks(list, out)
    modifies list
    ensures Tracks(list, out + [i])
  {
    ghost var d := Describe(list);
    var n := list[i].description.name;
    RemoveEntries(list, n);
    list[i].dependencies := None;
    assert Names(d, out + [i]) == Names(d, out) + {n};
    forall k: nat | k < |list| ensures list[k].dependencies == Expected(d, out + [i], k) {
      LeftStep(d[k].deps, Names(d, out), n);
    }
  }

  method InsertType(leq: Order, x: TypeSnippet, s: seq<TypeSnippet>) returns (r: seq<TypeSnippet>)
    ensures Describe(r) == Insert(leq, x.description, Describe(s))
    ensures multiset(r) == multiset(s) + multiset{x}
  {
    if s == [] { return [x]; }
    if leq(x.description.name, s[0].description.name) { return [x] + s; }
    r := InsertType(leq, x, s[1..]);
    assert s == [s[0]] + s[1..];
    r := [s[0]] + r;
  }

  method SortTypes(leq: Order, types: seq<TypeSnippet>) returns (list: seq<TypeSnippet>)
    ensures Describe(list) == Sort(leq, Describe(types))
    ensures multiset(list) == multiset(types)
  {
    if types == [] { return []; }
    list := SortTypes(leq, types[1..]);
    assert types == [types[0]] + types[1..];
    list := InsertType(leq, types[0], list);
  }

  datatype Visit = Skipped | Emitted | StillWaiting

  ghost function Visited(list: seq<Snippet>, out: seq<nat>, i: nat): Visit
    requires i < |list|
  {
    if i in out then Skipped else if Ready(list, out, i) then Emitted else StillWaiting
  }

  /** The body of the foreach loop. */
  method VisitType(list: seq<TypeSnippet>, i: nat, order: seq<Snippet>, ghost out: seq<nat>)
    returns (order': seq<Snippet>, v: Visit)
    requires DistinctObjects(list) && i < |list| && Tracks(list, out) && order == Pick(Describe(list), out)
    modifies list
    ensures v == Visited(Describe(list), out, i)
    ensures var next := Advance(Describe(list), out, i);
            Tracks(list, next) && order' == Pick(Describe(list), next)
  {
    ghost var d := Describe(list);
    var ts := list[i];
    assert ts.dependencies == Expected(d, out, i);
    LeftEmpty(d[i].deps, Names(d, out));
    if ts.dependencies.None? { return order, Skipped; }
    if |ts.dependencies.value| != 0 { return order, StillWaiting; }
    EmitType(list, i, out);
    PickSnoc(d, out, i);
    return order + [ts.description], Emitted;
  }

  lemma PickSnoc(list: seq<Snippet>, out: seq<nat>, i: nat)
    requires i < |list|
    ensures Pick(list, out + [i]) == Pick(list, out) + [list[i]]
  {
    assert (out + [i])[..|out|] == out;
  }

  /** One sweep of the foreach loop. */
  method SweepTypes(list: seq<TypeSnippet>, order: seq<Snippet>, ghost out: seq<nat>)
    returns (order': seq<Snippet>, keepGoing: bool, oneRemoved: bool)
    requires DistinctObjects(list) && Tracks(list, out) && order == Pick(Describe(list), out)
    modifies list
    ensures var next := Sweep(Describe(list), 0, out);
            && Tracks(list, next) && order' == Pick(Describe(list), next)
            && (oneRemoved <==> next != out)
            && (!keepGoing ==> Complete(Describe(list), next))
  {
    hide Pick, Tracks, Advance, Visited, Names, Ready, DistinctObjects;
    ghost var d: seq<Snippet>, now: seq<nat> := Describe(list), out;
    order', keepGoing, oneRemoved := order, false, false;
    for i := 0 to |list|
      invariant Tracks(list, now) && order' == Pick(d, now)
      invariant Sweep(d, i, now) == Sweep(d, 0, out)
      invariant |out| <= |now| && (if oneRemoved then |out| < |now| else now == out)
      invariant !keepGoing ==> Covers(now, i)
    {
      var v;
      order', v := VisitType(list, i, order', now);
      CoversStep(d, now, i);
      now := Advance(d, now, i);
      match v
      case Skipped =>
      case Emitted =>
        oneRemoved := true;
      case StillWaiting =>
        keepGoing := true;
    }
  }

  lemma CoversStep(list: seq<Snippet>, out: seq<nat>, i: nat)
    requires i < |list|
    ensures Covers(out, i) && !Visited(list, out, i).StillWaiting? ==> Covers(Advance(list, out, i), i + 1)
    ensures Advance(list, out, i) == if Visited(list, out, i).Emitted? then out + [i] else out
  {
  }

  /** The while loop around the sweeps. */
  method EmitTypes(list: seq<TypeSnippet>) returns (order: seq<Snippet>)
    requires DistinctObjects(list) && Tracks(list, [])
    modifies list
    ensures order == Pick(Describe(list), Emit(Describe(list), []))
  {
    ghost var d: seq<Snippet>, out: seq<nat> := Describe(list), [];
    order := [];
    var keepGoing := true;
    while keepGoing
      invariant NoRepeats(d, out) && Tracks(list, out) && order == Pick(d, out)
      invariant keepGoing ==> Emit(d, out) == Emit(d, [])
      invariant !keepGoing ==> out == Emit(d, [])
      decreases keepGoing, Waiting(d, out)
    {
      var oneRemoved;
      order, keepGoing, oneRemoved := SweepTypes(list, order, out);
      SweepGrows(d, 0, out);
      out := Sweep(d, 0, out);
      if keepGoing && !oneRemoved { break; }
      if !keepGoing { CompleteStops(d, out); }
    }
  }

  method GetDeclarationOrder(leq: Order, types: seq<TypeSnippet>) returns (order: seq<Snippet>)
    requires DistinctObjects(types)
    requires forall t <- types :: t.dependencies == Some(t.description.deps)
    modifies types
    ensures order == Declarations(leq, Describe(types))
  {
    var list := SortTypes(leq, types);
    SamePermuted(types, list);
    NothingEmitted(list);
    order := EmitTypes(list);
  }

  lemma SamePermuted(types: seq<TypeSnippet>, list: seq<TypeSnippet>)
    requires DistinctObjects(types) && multiset(types) == multiset(list)
    ensures DistinctObjects(list) && forall i :: 0 <= i < |list| ==> list[i] in types
  {
    forall i, j | 0 <= i < j < |list| ensures list[i] != list[j] {
      var k, m := TwoPositions(types, list, i, j);
    }
    forall i | 0 <= i < |list| ensures list[i] in types {
      assert list[i] in multiset(list);
    }
  }

  lemma NothingEmitted(list: seq<TypeSnippet>)
    requires forall t <- list :: t.dependencies == Some(t.description.deps)
    ensures Tracks(list, [])
  {
    var d := Describe(list);
    assert Names(d, []) == {};
    forall i: nat | i < |list| ensures list[i].dependencies == Expected(d, [], i) {
      LeftNone(d[i].deps);
    }
  }

  lemma CompleteStops(list: seq<Snippet>, out: seq<nat>)
    requires NoRepeats(list, out) && Complete(list, out)
    ensures Emit(list, out) == out
  {
    SweepGrows(list, 0, out);
  }
}
