/** find_all_events: slice every column, then classify every pair of
    adjacent columns with a fresh connection graph. */
module AllEvents {
  import opened BcdTypes
  import opened SliceExtraction
  import opened Classification
  import opened ConnectionGraph

  /** The slices of every column. */
  function SlicesOfAll(columns: seq<seq<bool>>, target: bool): (r: seq<seq<Slice>>)
    ensures |r| == |columns|
  {
    seq(|columns|, i requires 0 <= i < |columns| => SlicesOf(columns[i], target))
  }

  /** The events of the first n boundaries, given every column's slices. */
  function PairsUpTo(allSlices: seq<seq<Slice>>, n: nat): (r: seq<seq<Event>>)
    requires n < |allSlices|
    ensures |r| == n
  {
    if n == 0 then [] else PairsUpTo(allSlices, n - 1) + [BoundaryEvents(allSlices[n - 1], allSlices[n])]
  }

  lemma {:induction false} PairsUpToAt(allSlices: seq<seq<Slice>>, n: nat, t: nat)
    requires n < |allSlices| && t < n
    ensures PairsUpTo(allSlices, n)[t] == BoundaryEvents(allSlices[t], allSlices[t + 1])
  {
    if t < n - 1 {
      PairsUpToAt(allSlices, n - 1, t);
    }
  }

  /** The event list of boundary i sits between columns i and i + 1. */
  function EventsSpec(columns: seq<seq<bool>>, target: bool): (r: seq<seq<Event>>)
    requires |columns| > 0
    ensures |r| == |columns| - 1
  {
    PairsUpTo(SlicesOfAll(columns, target), |columns| - 1)
  }

  lemma EventsSpecAt(columns: seq<seq<bool>>, target: bool, y: nat)
    requires y < |columns| - 1
    ensures EventsSpec(columns, target)[y] ==
      BoundaryEvents(SlicesOf(columns[y], target), SlicesOf(columns[y + 1], target))
  {
    var all := SlicesOfAll(columns, target);
    PairsUpToAt(all, |columns| - 1, y);
    assert all[y] == SlicesOf(columns[y], target);
    assert all[y + 1] == SlicesOf(columns[y + 1], target);
  }

  /** Every event of the reference grid has its type's shape. */
  lemma EventsShaped(columns: seq<seq<bool>>, target: bool, y: nat)
    requires y < |columns| - 1
    ensures forall e :: 0 <= e < |EventsSpec(columns, target)[y]| ==> Shaped(EventsSpec(columns, target)[y][e])
    ensures forall e :: e in EventsSpec(columns, target)[y] ==> Shaped(e)
  {
    EventsSpecAt(columns, target, y);
    BoundaryEventsShaped(SlicesOf(columns[y], target), SlicesOf(columns[y + 1], target));
  }

  /** One START per slice, in the given order. */
  function Starts(ss: seq<Slice>): (r: seq<Event>)
    ensures |r| == |ss|
  {
    seq(|ss|, i requires 0 <= i < |ss| => Event(Start, [], [ss[i]]))
  }

  /** One END per slice, in the given order. */
  function Ends(ss: seq<Slice>): (r: seq<Event>)
    ensures |r| == |ss|
  {
    seq(|ss|, i requires 0 <= i < |ss| => Event(End, [ss[i]], []))
  }

  lemma {:induction false} RightEventsIsolated(keys: seq<Slice>, m: map<Slice, seq<Slice>>)
    requires forall b :: b in keys ==> b in m && m[b] == []
    ensures RightEvents(keys, m) == Starts(keys)
  {
    if |keys| > 0 {
      var init := keys[..|keys| - 1];
      assert forall b :: b in init ==> b in keys;
      RightEventsIsolated(init, m);
      assert Starts(keys) == Starts(init) + [Event(Start, [], [keys[|keys| - 1]])];
    } else {
      assert RightEvents(keys, m) == [];
    }
  }

  lemma {:induction false} LeftEventsIsolated(keys: seq<Slice>, m: map<Slice, seq<Slice>>)
    requires forall a :: a in keys ==> a in m && m[a] == []
    ensures LeftEvents(keys, m) == Ends(keys)
  {
    if |keys| > 0 {
      var init := keys[..|keys| - 1];
      assert forall a :: a in init ==> a in keys;
      LeftEventsIsolated(init, m);
      assert Ends(keys) == Ends(init) + [Event(End, [keys[|keys| - 1]], [])];
    } else {
      assert LeftEvents(keys, m) == [];
    }
  }

  /** Next to an empty column every slice starts (on the right) ... */
  lemma EmptyLeftColumn(R: seq<Slice>)
    ensures BoundaryEvents([], R) == Starts(R)
  {
    RightEventsIsolated(R, InMap([], R));
  }

  /** ... or ends (on the left). */
  lemma EmptyRightColumn(L: seq<Slice>)
    ensures BoundaryEvents(L, []) == Ends(L)
  {
    LeftEventsIsolated(L, OutMap(L, []));
  }

  /** The first loop of find_all_events: the slices of every column. */
  method AllSlices(columns: seq<seq<bool>>, target: bool) returns (allSlices: seq<seq<Slice>>)
    ensures |allSlices| == |columns|
    ensures forall t :: 0 <= t < |columns| ==> allSlices[t] == SlicesOf(columns[t], target)
    ensures forall t :: 0 <= t < |columns| ==> StrictlyAscending(allSlices[t])
  {
    allSlices := [];
    for i := 0 to |columns|
      invariant |allSlices| == i
      invariant forall t :: 0 <= t < i ==> allSlices[t] == SlicesOf(columns[t], target)
      invariant forall t :: 0 <= t < i ==> StrictlyAscending(allSlices[t])
    {
      var slices := FindSlices(columns[i], target);
      allSlices := allSlices + [slices];
    }
  }

  /** The body of the second loop of find_all_events: a connection graph
      for two ascending slice lists, and its events. */
  method PairEvents(L: seq<Slice>, R: seq<Slice>) returns (events: seq<Event>)
    requires StrictlyAscending(L) && StrictlyAscending(R)
    ensures events == BoundaryEvents(L, R)
    ensures forall e :: e in events ==> Shaped(e)
  {
    var connections := new Connections(L, R);
    events := connections.FindEvents();
    ConnectionEvents(L, R, connections.leftKeys, connections.left, connections.rightKeys, connections.right);
  }

  /** Boundary lists built from the per-column slices are the reference grid. */
  lemma EventsFromSlices(columns: seq<seq<bool>>, target: bool, allSlices: seq<seq<Slice>>, events: seq<seq<Event>>)
    requires |columns| > 0 && |allSlices| == |columns|
    requires forall t :: 0 <= t < |columns| ==> allSlices[t] == SlicesOf(columns[t], target)
    requires events == PairsUpTo(allSlices, |allSlices| - 1)
    ensures events == EventsSpec(columns, target)
  {
    assert allSlices == SlicesOfAll(columns, target);
  }

  /** The loop of find_all_events over adjacent pairs of columns. */
  method AllPairEvents(allSlices: seq<seq<Slice>>) returns (events: seq<seq<Event>>)
    requires |allSlices| > 0
    requires forall t :: 0 <= t < |allSlices| ==> StrictlyAscending(allSlices[t])
    ensures events == PairsUpTo(allSlices, |allSlices| - 1)
  {
    events := [];
    for i := 0 to |allSlices| - 1
      invariant events == PairsUpTo(allSlices, i)
    {
      var es := PairEvents(allSlices[i], allSlices[i + 1]);
      events := events + [es];
    }
  }

  /** find_all_events: the columns' slices first, then one Connections per
      adjacent pair. An empty input makes the source index past the end
      (the unsigned `size() - 1` wraps), hence the precondition. */
  method FindAllEvents(columns: seq<seq<bool>>, target: bool) returns (events: seq<seq<Event>>)
    requires |columns| > 0
    ensures events == EventsSpec(columns, target)
    ensures forall i, e :: 0 <= i < |events| && e in events[i] ==> Shaped(e)
  {
    var allSlices := AllSlices(columns, target);
    events := AllPairEvents(allSlices);
    EventsFromSlices(columns, target, allSlices, events);
    forall i | 0 <= i < |events| ensures forall e :: e in events[i] ==> Shaped(e) {
      EventsShaped(columns, target, i);
    }
  }
}
