/** `ViewEventManager<TEvent, TEffect>`: reconciles the effects that are
  * playing with the events the latest simulated frames asked for.  The
  * callbacks a concrete manager overrides (`OnStartEffect`,
  * `EffectIsFinished`) are parameters; each call of `OnEndEffect` is
  * recorded, in order, in the effects a call returns. */
module ViewEventManagers {
  import opened Frames

  /** `ViewEvent<TEvent>`. */
  datatype ViewEvent<E> = ViewEvent(StartFrame: Frame, Hash: int, Event: E)

  /** `ViewEvent.Equals`: frame, hash and event compared, the event by its
    * own `Equals`, taken to be equality of values. */
  predicate EventEquals<E(==)>(a: ViewEvent<E>, b: ViewEvent<E>)
  {
    a.StartFrame == b.StartFrame && a.Event == b.Event && a.Hash == b.Hash
  }

  /** `Equals` is equality on the three fields. */
  lemma EventEqualsIsIdentity<E>(a: ViewEvent<E>, b: ViewEvent<E>)
    ensures EventEquals(a, b) <==> a == b
  {
  }

  /** Whether an active event is ended: not wanted again and started in
    * `[start, end]`, or with a finished effect. */
  predicate Ends<E(==), F>(ev: ViewEvent<E>, effect: F, desired: set<ViewEvent<E>>, start: Frame, end: Frame,
                           finished: F -> bool)
  {
    (ev !in desired && LessEq(start, ev.StartFrame) && LessEq(ev.StartFrame, end)) || finished(effect)
  }

  /** The active events `InvalidateAndConsume` ends. */
  function Invalidated<E(==), F>(active: map<ViewEvent<E>, F>, desired: set<ViewEvent<E>>, start: Frame, end: Frame,
                                 finished: F -> bool): set<ViewEvent<E>>
  {
    set ev | ev in active && Ends(ev, active[ev], desired, start, end, finished)
  }

  /** The active effects after `InvalidateAndConsume`: the survivors, and
    * a new effect for each desired event no longer active. */
  function Consumed<E(==), F>(active: map<ViewEvent<E>, F>, desired: set<ViewEvent<E>>, start: Frame, end: Frame,
                              onStart: ViewEvent<E> -> F, finished: F -> bool): map<ViewEvent<E>, F>
  {
    var kept := active - Invalidated(active, desired, start, end, finished);
    map ev | ev in kept.Keys + desired :: if ev in kept then kept[ev] else onStart(ev)
  }

  /** After a call every desired event is active, with its old effect when
    * it survived and a new one when not; an event ends exactly when it is
    * finished or is an unwanted one inside the window; unfinished events
    * outside the window survive whether wanted or not, and no event that
    * was neither active nor wanted becomes active. */
  lemma ConsumedMeaning<E, F>(active: map<ViewEvent<E>, F>, desired: set<ViewEvent<E>>, start: Frame, end: Frame,
                                  onStart: ViewEvent<E> -> F, finished: F -> bool)
    ensures var r := Consumed(active, desired, start, end, onStart, finished);
      var gone := Invalidated(active, desired, start, end, finished);
      desired <= r.Keys && r.Keys <= active.Keys + desired &&
      (forall ev :: ev in active && ev !in gone ==> ev in r && r[ev] == active[ev]) &&
      (forall ev :: ev in desired && (ev !in active || ev in gone) ==> r[ev] == onStart(ev)) &&
      (forall ev :: ev in active ==>
         (ev in gone <==> finished(active[ev]) ||
                          (ev !in desired && LessEq(start, ev.StartFrame) && LessEq(ev.StartFrame, end)))) &&
      (forall ev :: ev in active && !finished(active[ev]) && (Less(ev.StartFrame, start) || Less(end, ev.StartFrame)) ==>
         ev in r && r[ev] == active[ev]) &&
      (forall ev :: ev in active && ev !in desired && ev in gone ==> ev !in r)
  {
    CompareIsOrder();
  }

  /** Nothing is wanted and nothing playing is finished or in the window:
    * the call changes nothing. */
  lemma ConsumedQuiet<E, F>(active: map<ViewEvent<E>, F>, start: Frame, end: Frame,
                                onStart: ViewEvent<E> -> F, finished: F -> bool)
    requires forall ev :: ev in active ==> !finished(active[ev]) && (Less(ev.StartFrame, start) || Less(end, ev.StartFrame))
    ensures Consumed(active, {}, start, end, onStart, finished) == active
  {
    CompareIsOrder();
    assert Invalidated(active, {}, start, end, finished) == {};
  }

  /** The frame comparisons are those of the frame numbers. */
  lemma CompareIsOrder()
    ensures forall a: Frame, b: Frame :: LessEq(a, b) <==> a.No <= b.No
    ensures forall a: Frame, b: Frame :: Less(a, b) <==> a.No < b.No
  {
  }

  /** The manager's state: `_curActive` and `_desired`. */
  class ViewEventManager<E(==), F(==)> {
    var curActive: map<ViewEvent<E>, F>
    var desired: set<ViewEvent<E>>

    constructor ()
      ensures curActive == map[] && desired == {}
    {
      curActive := map[];
      desired := {};
    }

    /** `AddDesired`: a set insertion, so adding an event twice is adding
      * it once. */
    method AddDesired(ev: ViewEvent<E>)
      modifies this
      ensures desired == old(desired) + {ev} && curActive == old(curActive)
    {
      desired := desired + {ev};
    }

    /** The first loop of `InvalidateAndConsume`: the events to end, an
      * event both unwanted and finished listed twice. */
    method Collect(start: Frame, end: Frame, finished: F -> bool) returns (toRemove: seq<ViewEvent<E>>)
      ensures forall ev :: ev in toRemove <==> ev in Invalidated(curActive, desired, start, end, finished)
    {
      toRemove := [];
      var keys := curActive.Keys;
      while keys != {}
        invariant keys <= curActive.Keys
        invariant forall ev :: ev in toRemove ==> ev in curActive.Keys - keys
        invariant forall ev :: ev in curActive.Keys - keys ==>
          (ev in toRemove <==> Ends(ev, curActive[ev], desired, start, end, finished))
        decreases keys
      {
        var ev :| ev in keys;
        if ev !in desired && LessEq(start, ev.StartFrame) && LessEq(ev.StartFrame, end) {
          toRemove := toRemove + [ev];
        }
        if finished(curActive[ev]) {
          toRemove := toRemove + [ev];
        }
        keys := keys - {ev};
      }
    }

    /** The second loop: each listed event still active is removed and its
      * effect ended, once. */
    method RemoveAll(toRemove: seq<ViewEvent<E>>) returns (ended: seq<F>, ghost endedFor: seq<ViewEvent<E>>)
      requires forall ev :: ev in toRemove ==> ev in curActive
      modifies this
      ensures desired == old(desired) && curActive == old(curActive) - set ev | ev in toRemove
      ensures (forall j, k :: 0 <= j < k < |endedFor| ==> endedFor[j] != endedFor[k]) &&
        (forall ev :: ev in endedFor <==> ev in toRemove) &&
        |ended| == |endedFor| &&
        forall k :: 0 <= k < |ended| ==> endedFor[k] in old(curActive) && ended[k] == old(curActive)[endedFor[k]]
    {
      ended, endedFor := [], [];
      for i := 0 to |toRemove|
        invariant desired == old(desired)
        invariant curActive == old(curActive) - set ev | ev in endedFor
        invariant forall ev :: ev in toRemove[..i] <==> ev in endedFor
        invariant forall j, k :: 0 <= j < k < |endedFor| ==> endedFor[j] != endedFor[k]
        invariant |ended| == |endedFor|
        invariant forall k :: 0 <= k < |ended| ==> endedFor[k] in old(curActive) && ended[k] == old(curActive)[endedFor[k]]
      {
        assert toRemove[..i + 1] == toRemove[..i] + [toRemove[i]];
        var rem := toRemove[i];
        if rem in curActive {
          ended := ended + [curActive[rem]];
          endedFor := endedFor + [rem];
          curActive := curActive - {rem};
        }
      }
      assert toRemove[..|toRemove|] == toRemove;
    }

    /** The third loop and the clear: every desired event not active is
      * started. */
    method StartDesired(onStart: ViewEvent<E> -> F) returns (started: seq<ViewEvent<E>>)
      modifies this
      ensures desired == {}
      ensures curActive == map ev | ev in old(curActive).Keys + old(desired) ::
                             if ev in old(curActive) then old(curActive)[ev] else onStart(ev)
      ensures (forall j, k :: 0 <= j < k < |started| ==> started[j] != started[k]) &&
              (forall ev :: ev in started <==> ev in old(desired) && ev !in old(curActive))
    {
      var wanted := desired;
      started := [];
      while wanted != {}
        invariant wanted <= desired && desired == old(desired)
        invariant forall ev :: ev in curActive <==> ev in old(curActive) || ev in started
        invariant forall ev :: ev in old(curActive) ==> curActive[ev] == old(curActive)[ev]
        invariant forall ev :: ev in started ==> ev in desired - wanted && ev !in old(curActive) && curActive[ev] == onStart(ev)
        invariant forall ev :: ev in desired - wanted && ev !in old(curActive) ==> ev in started
        invariant forall j, k :: 0 <= j < k < |started| ==> started[j] != started[k]
        decreases wanted
      {
        var ev :| ev in wanted;
        if ev !in curActive {
          curActive := curActive[ev := onStart(ev)];
          started := started + [ev];
        }
        wanted := wanted - {ev};
      }
      desired := {};
    }

    /** `InvalidateAndConsume(start, end)`: `ended` is the effects handed
      * to `OnEndEffect`, in order, `started` the events handed to
      * `OnStartEffect`. */
    method InvalidateAndConsume(start: Frame, end: Frame, onStart: ViewEvent<E> -> F, finished: F -> bool)
      returns (ended: seq<F>, started: seq<ViewEvent<E>>, ghost endedFor: seq<ViewEvent<E>>)
      modifies this
      ensures curActive == Consumed(old(curActive), old(desired), start, end, onStart, finished) && desired == {}
      ensures var gone := Invalidated(old(curActive), old(desired), start, end, finished);
        (forall j, k :: 0 <= j < k < |endedFor| ==> endedFor[j] != endedFor[k]) &&
        (forall ev :: ev in endedFor <==> ev in gone) &&
        |ended| == |endedFor| &&
        forall k :: 0 <= k < |ended| ==> endedFor[k] in old(curActive) && ended[k] == old(curActive)[endedFor[k]]
      ensures var gone := Invalidated(old(curActive), old(desired), start, end, finished);
        (forall j, k :: 0 <= j < k < |started| ==> started[j] != started[k]) &&
        (forall ev :: ev in started <==> ev in old(desired) && (ev !in old(curActive) || ev in gone))
    {
      ghost var gone := Invalidated(curActive, desired, start, end, finished);
      var toRemove := Collect(start, end, finished);
      ended, endedFor := RemoveAll(toRemove);
      assert curActive == old(curActive) - gone;
      started := StartDesired(onStart);
    }
  }
}
