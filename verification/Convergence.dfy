/** The observer that decides whether a stream of measurement updates has brought a copy to
    the values of a reference, by comparing sizes of maps. */
module Convergence {
  import opened Octets

  datatype PointKind = Binary | Analog | Counter | ControlStatus | SetpointStatus

  /** One map for each kind of point, by index. */
  type PointMaps<V> = map<PointKind, map<nat, V>>

  datatype Event<V> = Update(kind: PointKind, index: nat, value: V) | End

  predicate Complete<V>(maps: PointMaps<V>) { forall k :: k in maps }

  /** The last value an index got since the reset. */
  function Last<V>(history: seq<Event<V>>, kind: PointKind, index: nat): Option<V> {
    if history == [] then None
    else
      var e := history[|history| - 1];
      if e.Update? && e.kind == kind && e.index == index then Some(e.value)
      else Last(history[..|history| - 1], kind, index)
  }

  lemma LastSnoc<V>(history: seq<Event<V>>, e: Event<V>, kind: PointKind, index: nat)
    ensures Last(history + [e], kind, index)
            == if e.Update? && e.kind == kind && e.index == index then Some(e.value) else Last(history, kind, index)
  {
    assert (history + [e])[..|history|] == history;
  }

  /** Only these three kinds are counted. */
  predicate Counted(k: PointKind) { k.Binary? || k.Analog? || k.Counter? }

  ghost predicate Agrees<V>(reference: PointMaps<V>, history: seq<Event<V>>, kind: PointKind)
    requires Complete(reference)
  {
    forall i :: i in reference[kind] ==> Last(history, kind, i) == Some(reference[kind][i])
  }

  /** The last update of every binary, analog and counter of the reference gave it the value
      of the reference. */
  ghost predicate Converged<V>(reference: PointMaps<V>, history: seq<Event<V>>)
    requires Complete(reference)
  {
    forall k :: Counted(k) ==> Agrees(reference, history, k)
  }

  /** At the end of some transaction since the reset. */
  ghost predicate OnceConverged<V>(reference: PointMaps<V>, history: seq<Event<V>>)
    requires Complete(reference)
  {
    exists n :: 0 <= n < |history| && ConvergedAt(reference, history, n)
  }

  ghost predicate ConvergedAt<V>(reference: PointMaps<V>, history: seq<Event<V>>, n: nat)
    requires Complete(reference) && n < |history|
  {
    history[n].End? && Converged(reference, history[..n])
  }

  lemma OnceSnoc<V>(reference: PointMaps<V>, history: seq<Event<V>>, e: Event<V>)
    requires Complete(reference)
    ensures OnceConverged(reference, history + [e])
            <==> OnceConverged(reference, history) || (e.End? && Converged(reference, history))
  {
    var longer := history + [e];
    assert forall n :: 0 <= n < |history| ==> longer[..n] == history[..n];
    assert longer[..|history|] == history;
    assert forall n :: 0 <= n < |history| ==>
                         (ConvergedAt(reference, longer, n) <==> ConvergedAt(reference, history, n));
    assert ConvergedAt(reference, longer, |history|) <==> e.End? && Converged(reference, history);
  }

  // ---- The compare maps ----

  /** An index is in the compare map exactly when it is in the reference and its last update
      brought the reference value. */
  ghost predicate Tracks<V>(reference: map<nat, V>, compare: map<nat, bool>, history: seq<Event<V>>, kind: PointKind) {
    forall i :: i in compare <==> i in reference && Last(history, kind, i) == Some(reference[i])
  }

  method UpdateAny<V(==)>(point: V, index: nat, reference: map<nat, V>, compare: map<nat, bool>)
    returns (updated: map<nat, bool>)
    ensures forall i :: i in updated <==>
                          if i == index && index in reference then reference[index] == point else i in compare
  {
    updated := compare;
    if index in reference {
      if reference[index] == point {
        updated := compare[index := true];
      } else {
        updated := compare - {index};
      }
    }
  }

  function Cleared(): PointMaps<bool> {
    map[Binary := map[], Analog := map[], Counter := map[], ControlStatus := map[], SetpointStatus := map[]]
  }

  lemma ClearedKinds()
    ensures Complete(Cleared()) && forall k :: Cleared()[k] == map[]
  {
    forall k ensures k in Cleared() && Cleared()[k] == map[] {
      match k
      case Binary =>
      case Analog =>
      case Counter =>
      case ControlStatus =>
      case SetpointStatus =>
    }
  }

  // ---- Counting ----

  lemma KeysCount<K, V>(m: map<K, V>)
    ensures |m| == |m.Keys|
  {
  }

  lemma SubsetCount<K>(a: set<K>, b: set<K>)
    requires a <= b
    ensures |a| <= |b| && (|a| == |b| <==> a == b)
  {
    assert b == a + (b - a);
  }

  /** Equal sums mean that nothing is missing in any of the three maps. */
  lemma SumsMeet<V>(reference: PointMaps<V>, compare: PointMaps<bool>, history: seq<Event<V>>)
    requires Complete(reference) && Complete(compare)
    requires forall k :: Tracks(reference[k], compare[k], history, k)
    ensures |reference[Binary]| + |reference[Analog]| + |reference[Counter]|
            == |compare[Binary]| + |compare[Analog]| + |compare[Counter]|
            <==> Converged(reference, history)
  {
    forall k
      ensures |compare[k]| <= |reference[k]| && (|compare[k]| == |reference[k]| <==> Agrees(reference, history, k))
    {
      assert Tracks(reference[k], compare[k], history, k);
      KeysCount(reference[k]);
      KeysCount(compare[k]);
      SubsetCount(compare[k].Keys, reference[k].Keys);
      assert compare[k].Keys == reference[k].Keys <==> forall i :: i in reference[k] ==> i in compare[k];
    }
    assert Counted(Binary) && Counted(Analog) && Counted(Counter);
  }

  // ---- The observer ----

  class ComparingDataObserver<V(==)> {
    /** The maps of the reference observer, which stay as they are. */
    const reference: PointMaps<V>
    var compare: PointMaps<bool>
    var sameData: bool
    /** What happened since the last reset. */
    ghost var history: seq<Event<V>>

    ghost predicate Valid()
      reads this
    {
      && Complete(reference) && Complete(compare)
      && (forall k :: Tracks(reference[k], compare[k], history, k))
      && (sameData <==> OnceConverged(reference, history))
    }

    constructor (reference: PointMaps<V>)
      requires Complete(reference)
      ensures Valid() && this.reference == reference && history == []
    {
      this.reference := reference;
      ClearedKinds();
      compare := Cleared();
      sameData, history := false, [];
    }

    method Reset()
      requires Valid()
      modifies this
      ensures Valid() && history == [] && !sameData
    {
      ClearedKinds();
      compare := Cleared();
      sameData, history := false, [];
    }

    method IsSameData() returns (same: bool)
      requires Valid()
      ensures same <==> Converged(reference, history)
    {
      var required := |reference[Binary]| + |reference[Analog]| + |reference[Counter]|;
      var actual := |compare[Binary]| + |compare[Analog]| + |compare[Counter]|;
      SumsMeet(reference, compare, history);
      same := required == actual;
    }

    method Update(kind: PointKind, index: nat, value: V)
      requires Valid()
      modifies this
      ensures Valid() && history == old(history) + [Event.Update(kind, index, value)] && sameData == old(sameData)
    {
      var updated := UpdateAny(value, index, reference[kind], compare[kind]);
      ghost var e := Event.Update(kind, index, value);
      ghost var was := history;
      compare := compare[kind := updated];
      history := history + [e];
      forall k ensures Tracks(reference[k], compare[k], history, k) {
        assert Tracks(reference[k], old(compare)[k], was, k);
        forall i ensures i in compare[k] <==> i in reference[k] && Last(history, k, i) == Some(reference[k][i]) {
          LastSnoc(was, e, k, i);
        }
      }
      OnceSnoc(reference, was, e);
    }

    method EndTransaction()
      requires Valid()
      modifies this
      ensures Valid() && history == old(history) + [End]
      ensures sameData == (old(sameData) || Converged(reference, old(history)))
    {
      var same := IsSameData();
      if same { sameData := true; }
      ghost var was := history;
      history := history + [End];
      forall k ensures Tracks(reference[k], compare[k], history, k) {
        assert Tracks(reference[k], compare[k], was, k);
        forall i { LastSnoc(was, End, k, i); }
      }
      OnceSnoc(reference, was, End);
    }
  }
}
