/** The emitter/observer registry of `include/Observer.hpp`. An emitter holds
    a list of observer pointers; an observer registers itself on
    construction and unregisters on destruction, both through a weak
    reference that may have expired. Observers are identified by number,
    a list entry may be null, and the callbacks an observer holds are
    described by which observers have a non-empty one. `emit` is modelled by
    the sequence of observers whose callback it invokes. */
module Observer {
  import opened Wrappers

  type ObserverId = nat

  datatype Emitter = Emitter(observers: seq<Option<ObserverId>>)

  /** Number of occurrences of `x` in `s`. */
  function Count<X(==)>(s: seq<X>, x: X): nat {
    if |s| == 0 then 0 else (if s[0] == x then 1 else 0) + Count(s[1..], x)
  }

  lemma {:induction false} CountAppend<X>(a: seq<X>, b: seq<X>, x: X)
    ensures Count(a + b, x) == Count(a, x) + Count(b, x)
    decreases |a|
  {
    if |a| > 0 {
      assert (a + b)[1..] == a[1..] + b;
      CountAppend(a[1..], b, x);
    } else {
      assert a + b == b;
    }
  }

  /** `addObserver`: `emplace_front`. */
  function AddObserver(e: Emitter, id: ObserverId): (r: Emitter)
    ensures |r.observers| == |e.observers| + 1
    ensures r.observers[0] == Some(id) && r.observers[1..] == e.observers
  {
    Emitter([Some(id)] + e.observers)
  }

  /** `forward_list::remove`: drops every entry equal to the observer. */
  function RemoveAll(s: seq<Option<ObserverId>>, id: ObserverId): (r: seq<Option<ObserverId>>)
    ensures Some(id) !in r
    ensures forall x :: x != Some(id) ==> Count(r, x) == Count(s, x)
    ensures |r| == |s| - Count(s, Some(id))
  {
    if |s| == 0 then []
    else if s[0] == Some(id) then RemoveAll(s[1..], id)
    else [s[0]] + RemoveAll(s[1..], id)
  }

  /** `removeObserver`. */
  function RemoveObserver(e: Emitter, id: ObserverId): Emitter {
    Emitter(RemoveAll(e.observers, id))
  }

  /** The observers `emit` invokes, in list order: null entries and
      observers with an empty callback are skipped. */
  function EmitTo(s: seq<Option<ObserverId>>, hasCallback: ObserverId -> bool): seq<ObserverId> {
    if |s| == 0 then []
    else
      var rest := EmitTo(s[1..], hasCallback);
      match s[0]
      case Some(id) => if hasCallback(id) then [id] + rest else rest
      case None => rest
  }

  /** `emit`. The emitter itself is not changed: only the invocation trace
      is returned. */
  function Emit(e: Emitter, hasCallback: ObserverId -> bool): seq<ObserverId> {
    EmitTo(e.observers, hasCallback)
  }

  /** `emit` invokes each observer with a callback once per list entry that
      points at it, and never invokes one without a callback. */
  lemma {:induction false} EmitCounts(s: seq<Option<ObserverId>>, hasCallback: ObserverId -> bool, id: ObserverId)
    ensures Count(EmitTo(s, hasCallback), id) == (if hasCallback(id) then Count(s, Some(id)) else 0)
    decreases |s|
  {
    if |s| > 0 {
      EmitCounts(s[1..], hasCallback, id);
      var rest := EmitTo(s[1..], hasCallback);
      match s[0]
      case Some(o) =>
        if hasCallback(o) {
          CountAppend([o], rest, id);
        }
      case None =>
    }
  }

  /** `emit` follows list order: what it invokes for a concatenation of lists
      is what it invokes for the first list followed by the second. */
  lemma {:induction false} EmitAppend(a: seq<Option<ObserverId>>, b: seq<Option<ObserverId>>, hasCallback: ObserverId -> bool)
    ensures EmitTo(a + b, hasCallback) == EmitTo(a, hasCallback) + EmitTo(b, hasCallback)
    decreases |a|
  {
    if |a| > 0 {
      assert (a + b)[1..] == a[1..] + b;
      EmitAppend(a[1..], b, hasCallback);
    } else {
      assert a + b == b;
    }
  }

  /** Most recently registered first: after registering `a` and then `b`,
      an emit invokes `b`, then `a`, then the earlier observers. */
  lemma MostRecentFirst(e: Emitter, a: ObserverId, b: ObserverId, hasCallback: ObserverId -> bool)
    requires hasCallback(a) && hasCallback(b)
    ensures Emit(AddObserver(AddObserver(e, a), b), hasCallback) == [b, a] + Emit(e, hasCallback)
  {
    var l := AddObserver(AddObserver(e, a), b).observers;
    assert l == [Some(b), Some(a)] + e.observers;
    EmitAppend([Some(b), Some(a)], e.observers, hasCallback);
    assert [Some(b), Some(a)][1..] == [Some(a)];
    assert [Some(a)][1..] == [];
  }

  /** Removing an observer keeps the remaining entries in their order: the
      result is the list with those entries filtered out, so an emit after
      the removal invokes what it invoked before minus that observer. */
  lemma {:induction false} RemoveThenEmit(s: seq<Option<ObserverId>>, id: ObserverId, hasCallback: ObserverId -> bool)
    ensures EmitTo(RemoveAll(s, id), hasCallback) == EmitTo(s, (o: ObserverId) => o != id && hasCallback(o))
    decreases |s|
  {
    if |s| > 0 {
      RemoveThenEmit(s[1..], id, hasCallback);
      if s[0] != Some(id) {
        assert ([s[0]] + RemoveAll(s[1..], id))[1..] == RemoveAll(s[1..], id);
      }
    }
  }

  /** Registering then unregistering an observer that was not listed gives
      back the original list. */
  lemma {:induction false} AddRemoveRoundTrip(e: Emitter, id: ObserverId)
    requires Some(id) !in e.observers
    ensures RemoveObserver(AddObserver(e, id), id) == e
  {
    RemoveAbsent(e.observers, id);
    assert AddObserver(e, id).observers[1..] == e.observers;
  }

  lemma {:induction false} RemoveAbsent(s: seq<Option<ObserverId>>, id: ObserverId)
    requires Some(id) !in s
    ensures RemoveAll(s, id) == s
    decreases |s|
  {
    if |s| > 0 {
      assert s[1..] + [] == s[1..];
      assert Some(id) !in s[1..] by {
        forall j | 0 <= j < |s[1..]| ensures s[1..][j] != Some(id) {
          assert s[1..][j] == s[j + 1];
        }
      }
      RemoveAbsent(s[1..], id);
      assert [s[0]] + s[1..] == s;
    }
  }

  /** `Observer(emitter, callback)`: registers with the emitter if it is
      still alive; `None` stands for an expired weak reference. */
  function Construct(emitter: Option<Emitter>, id: ObserverId): (r: Option<Emitter>)
    ensures r.None? <==> emitter.None?
    ensures r.Some? ==> Emit(r.value, _ => true) == [id] + Emit(emitter.value, _ => true)
  {
    match emitter
    case Some(e) => Some(AddObserver(e, id))
    case None => None
  }

  /** `~Observer()`: unregisters every entry of this observer if the emitter
      is still alive. */
  function Destroy(emitter: Option<Emitter>, id: ObserverId): (r: Option<Emitter>)
    ensures r.None? <==> emitter.None?
    ensures r.Some? ==> Some(id) !in r.value.observers
    ensures r.Some? ==> forall o :: o != Some(id) ==> Count(r.value.observers, o) == Count(emitter.value.observers, o)
  {
    match emitter
    case Some(e) => Some(RemoveObserver(e, id))
    case None => None
  }

  /** An observer's lifetime leaves a live emitter as it found it, provided
      the observer was not already listed. */
  lemma Lifetime(emitter: Option<Emitter>, id: ObserverId)
    requires emitter.Some? ==> Some(id) !in emitter.value.observers
    ensures Destroy(Construct(emitter, id), id) == emitter
  {
    if emitter.Some? {
      AddRemoveRoundTrip(emitter.value, id);
    }
  }
}
