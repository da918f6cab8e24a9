/** The overhang filter: a START (an END) looks up to `leeway` boundaries
    forward (backward) for the first slice that overlaps its own. If that
    slice belongs to a MERGE (a SPLIT), the trigger is cancelled and the
    partner loses the matched slice, or is cancelled too when it would be
    left with fewer than two. */
module Overhangs {
  import opened BcdTypes

  /** Forward is the START/MERGE search, Backward the END/SPLIT search. */
  datatype Direction = Forward | Backward

  /** Where the search first met an overlapping slice: the loop counter i
      (the distance to the trigger's boundary), the event's index in that
      boundary's list and the slice's index in the event's scanned side. */
  datatype Hit = Hit(step: nat, event: nat, index: nat)

  datatype Spot = Spot(event: nat, index: nat)

  /** The side of the trigger whose first slice is searched for. */
  function Probe(e: Event, dir: Direction): seq<Slice>
  {
    if dir == Forward then e.right else e.left
  }

  /** The side of a candidate partner that is scanned. */
  function Scanned(e: Event, dir: Direction): seq<Slice>
  {
    if dir == Forward then e.left else e.right
  }

  function PartnerKind(dir: Direction): EventType
  {
    if dir == Forward then Merge else Split
  }

  /** The boundaries the search may read: below the grid's end going
      forward, not below boundary 0 going backward. */
  predicate InWindow(n: nat, x: nat, i: nat, dir: Direction)
    ensures InWindow(n, x, i, dir) ==> (dir == Backward ==> i <= x) && (x < n ==> Boundary(x, i, dir) < n)
  {
    if dir == Forward then x + i < n else i <= x
  }

  /** The boundary i steps from x in the search direction. */
  function Boundary(x: nat, i: nat, dir: Direction): (r: nat)
    requires dir == Backward ==> i <= x
    ensures dir == Forward ==> x <= r
    ensures dir == Backward ==> r <= x
    ensures r == x <==> i == 0
  {
    if dir == Forward then x + i else x - i
  }

  /** No slice of e's scanned side overlaps s. */
  predicate Clear(e: Event, s: Slice, dir: Direction)
  {
    forall j :: 0 <= j < |Scanned(e, dir)| ==> !Overlaps(s, Scanned(e, dir)[j])
  }

  /** The first index at or after j of a slice of `side` overlapping s. */
  function SideFrom(side: seq<Slice>, s: Slice, j: nat): (r: Option<nat>)
    decreases |side| - j
    ensures r.Some? ==> j <= r.value < |side| && Overlaps(s, side[r.value])
    ensures r.Some? ==> forall t :: j <= t < r.value ==> !Overlaps(s, side[t])
    ensures r.None? ==> forall t :: j <= t < |side| ==> !Overlaps(s, side[t])
  {
    if j >= |side| then None
    else if Overlaps(s, side[j]) then Some(j)
    else SideFrom(side, s, j + 1)
  }

  /** The first overlap in one boundary's event list, events from index k
      on, each event's scanned side in order. */
  function ColumnFrom(column: seq<Event>, s: Slice, dir: Direction, k: nat): (r: Option<Spot>)
    decreases |column| - k
    ensures r.Some? ==> k <= r.value.event < |column|
    ensures r.Some? ==> var side := Scanned(column[r.value.event], dir);
      r.value.index < |side| && Overlaps(s, side[r.value.index]) &&
      forall t :: 0 <= t < r.value.index ==> !Overlaps(s, side[t])
    ensures r.Some? ==> forall e :: k <= e < r.value.event ==> Clear(column[e], s, dir)
    ensures r.None? ==> forall e :: k <= e < |column| ==> Clear(column[e], s, dir)
  {
    if k >= |column| then None
    else match SideFrom(Scanned(column[k], dir), s, 0)
      case Some(j) => Some(Spot(k, j))
      case None => ColumnFrom(column, s, dir, k + 1)
  }

  /** The search from loop counter i on: boundary x + i (x - i) while
      i <= leeway and the boundary is in the window. */
  function SearchFrom(g: seq<seq<Event>>, x: nat, s: Slice, leeway: nat, dir: Direction, i: nat): (r: Option<Hit>)
    requires x < |g| && 1 <= i
    decreases leeway + 1 - i
    ensures r.Some? ==> i <= r.value.step <= leeway && InWindow(|g|, x, r.value.step, dir)
    ensures r.Some? ==> var y := Boundary(x, r.value.step, dir);
      y < |g| && r.value.event < |g[y]| && r.value.index < |Scanned(g[y][r.value.event], dir)|
  {
    if i > leeway || !InWindow(|g|, x, i, dir) then None
    else match ColumnFrom(g[Boundary(x, i, dir)], s, dir, 0)
      case Some(spot) => Some(Hit(i, spot.event, spot.index))
      case None => SearchFrom(g, x, s, leeway, dir, i + 1)
  }

  /** What a hit partner becomes: cancelled when its scanned side holds at
      most two slices, otherwise that side loses entry j. */
  function Shrink(b: Event, j: nat, dir: Direction): (r: Event)
    requires j < |Scanned(b, dir)|
    ensures r.kind == b.kind
    ensures |Scanned(b, dir)| <= 2 ==> IsTomb(r)
    ensures |Scanned(b, dir)| > 2 ==>
      Probe(r, dir) == Probe(b, dir) && |Scanned(r, dir)| == |Scanned(b, dir)| - 1
    ensures |Scanned(b, dir)| > 2 ==>
      forall t :: 0 <= t < |Scanned(r, dir)| ==>
        Scanned(r, dir)[t] == Scanned(b, dir)[if t < j then t else t + 1]
  {
    if |Scanned(b, dir)| <= 2 then Tomb(b)
    else if dir == Forward then b.(left := RemoveAt(b.left, j))
    else b.(right := RemoveAt(b.right, j))
  }

  /** One call of invalidate_start_merge (Forward) or invalidate_split_end
      (Backward) for the event at index k of boundary x. */
  function AfterTrigger(g: seq<seq<Event>>, x: nat, k: nat, leeway: nat, dir: Direction): (r: seq<seq<Event>>)
    requires x < |g| && k < |g[x]| && |Probe(g[x][k], dir)| > 0
    ensures |r| == |g| && forall y :: 0 <= y < |g| ==> |r[y]| == |g[y]|
  {
    match SearchFrom(g, x, Probe(g[x][k], dir)[0], leeway, dir, 1)
    case None => g
    case Some(h) =>
      var y := Boundary(x, h.step, dir);
      var b := g[y][h.event];
      if b.kind != PartnerKind(dir) then g
      else g[x := g[x][k := Tomb(g[x][k])]][y := g[y][h.event := Shrink(b, h.index, dir)]]
  }

  /** Every event of boundary y is clear of s. */
  predicate BoundaryClear(g: seq<seq<Event>>, y: nat, s: Slice, dir: Direction)
    requires y < |g|
  {
    forall e :: 0 <= e < |g[y]| ==> Clear(g[y][e], s, dir)
  }

  /** The hit is the first overlap in search order: nearest boundary first,
      then event order, then slice order; no hit means no overlap anywhere
      in the window. */
  lemma {:induction false} SearchFromFirst(g: seq<seq<Event>>, x: nat, s: Slice, leeway: nat, dir: Direction, i: nat)
    requires x < |g| && 1 <= i
    decreases leeway + 1 - i
    ensures SearchFrom(g, x, s, leeway, dir, i).None? ==>
      forall i' :: i <= i' <= leeway && InWindow(|g|, x, i', dir) ==> BoundaryClear(g, Boundary(x, i', dir), s, dir)
    ensures SearchFrom(g, x, s, leeway, dir, i).Some? ==>
      var h := SearchFrom(g, x, s, leeway, dir, i).value;
      var y := Boundary(x, h.step, dir);
      Overlaps(s, Scanned(g[y][h.event], dir)[h.index]) &&
      (forall t :: 0 <= t < h.index ==> !Overlaps(s, Scanned(g[y][h.event], dir)[t])) &&
      (forall e :: 0 <= e < h.event ==> Clear(g[y][e], s, dir)) &&
      (forall i' :: i <= i' < h.step ==> BoundaryClear(g, Boundary(x, i', dir), s, dir))
  {
    if i <= leeway && InWindow(|g|, x, i, dir) {
      var y := Boundary(x, i, dir);
      if ColumnFrom(g[y], s, dir, 0).None? {
        SearchFromFirst(g, x, s, leeway, dir, i + 1);
        assert BoundaryClear(g, y, s, dir);
      }
    }
  }

  /** Only the window is read: grids that agree on the boundaries the search
      may visit give the same hit. */
  lemma {:induction false} SearchReadsWindow(g: seq<seq<Event>>, g': seq<seq<Event>>, x: nat, s: Slice,
                                             leeway: nat, dir: Direction, i: nat)
    requires x < |g| && |g| == |g'| && 1 <= i
    requires forall i' :: i <= i' <= leeway && InWindow(|g|, x, i', dir) ==>
      g[Boundary(x, i', dir)] == g'[Boundary(x, i', dir)]
    decreases leeway + 1 - i
    ensures SearchFrom(g, x, s, leeway, dir, i) == SearchFrom(g', x, s, leeway, dir, i)
  {
    if i <= leeway && InWindow(|g|, x, i, dir) {
      SearchReadsWindow(g, g', x, s, leeway, dir, i + 1);
    }
  }

  /** With no leeway the search loop never runs. */
  lemma ZeroLeewayTrigger(g: seq<seq<Event>>, x: nat, k: nat, dir: Direction)
    requires x < |g| && k < |g[x]| && |Probe(g[x][k], dir)| > 0
    ensures AfterTrigger(g, x, k, 0, dir) == g
  {
    assert SearchFrom(g, x, Probe(g[x][k], dir)[0], 0, dir, 1) == None;
  }

  /** When the first overlap is missing, or belongs to an event that is not
      the partner kind, the grid is left as it was. */
  lemma TriggerNoEffect(g: seq<seq<Event>>, x: nat, k: nat, leeway: nat, dir: Direction)
    requires x < |g| && k < |g[x]| && |Probe(g[x][k], dir)| > 0
    requires var r := SearchFrom(g, x, Probe(g[x][k], dir)[0], leeway, dir, 1);
      r.None? || g[Boundary(x, r.value.step, dir)][r.value.event].kind != PartnerKind(dir)
    ensures AfterTrigger(g, x, k, leeway, dir) == g
  {
  }

  /** A partner hit cancels the trigger (both lists empty, kind kept) and
      either cancels the partner (at most two slices on the matched side)
      or removes exactly the matched slice from that side, the other side
      untouched; every other event is unchanged. */
  lemma TriggerEffect(g: seq<seq<Event>>, x: nat, k: nat, leeway: nat, dir: Direction)
    requires x < |g| && k < |g[x]| && |Probe(g[x][k], dir)| > 0
    requires var r := SearchFrom(g, x, Probe(g[x][k], dir)[0], leeway, dir, 1);
      r.Some? && g[Boundary(x, r.value.step, dir)][r.value.event].kind == PartnerKind(dir)
    ensures var h := SearchFrom(g, x, Probe(g[x][k], dir)[0], leeway, dir, 1).value;
      var y := Boundary(x, h.step, dir);
      var r := AfterTrigger(g, x, k, leeway, dir);
      y != x &&
      IsTomb(r[x][k]) && r[x][k].kind == g[x][k].kind &&
      r[y][h.event].kind == PartnerKind(dir) &&
      (|Scanned(g[y][h.event], dir)| <= 2 ==> IsTomb(r[y][h.event])) &&
      (|Scanned(g[y][h.event], dir)| > 2 ==>
        Probe(r[y][h.event], dir) == Probe(g[y][h.event], dir) &&
        Scanned(r[y][h.event], dir) == RemoveAt(Scanned(g[y][h.event], dir), h.index)) &&
      (forall y', e :: 0 <= y' < |g| && 0 <= e < |g[y']| && !(y' == x && e == k) && !(y' == y && e == h.event) ==>
        r[y'][e] == g[y'][e])
  {
    var h := SearchFrom(g, x, Probe(g[x][k], dir)[0], leeway, dir, 1).value;
    var y := Boundary(x, h.step, dir);
    var b := g[y][h.event];
    var r := AfterTrigger(g, x, k, leeway, dir);
    if |Scanned(b, dir)| > 2 {
      var side := Scanned(r[y][h.event], dir);
      var want := RemoveAt(Scanned(b, dir), h.index);
      assert |side| == |want|;
      forall t | 0 <= t < |side| ensures side[t] == want[t] { }
    }
  }

  /** One trigger call changes at most two events, the trigger and one
      partner of the partner kind; no event changes kind and no list
      changes length. */
  lemma TriggerFrame(g: seq<seq<Event>>, x: nat, k: nat, leeway: nat, dir: Direction)
    requires x < |g| && k < |g[x]| && |Probe(g[x][k], dir)| > 0
    ensures var r := AfterTrigger(g, x, k, leeway, dir);
      forall y, e :: 0 <= y < |g| && 0 <= e < |g[y]| ==> r[y][e].kind == g[y][e].kind
    ensures var r := AfterTrigger(g, x, k, leeway, dir);
      forall y, e :: 0 <= y < |g| && 0 <= e < |g[y]| && r[y][e] != g[y][e] && !(y == x && e == k) ==>
        g[y][e].kind == PartnerKind(dir)
    ensures var r := AfterTrigger(g, x, k, leeway, dir);
      forall y1, e1, y2, e2 :: 0 <= y1 < |g| && 0 <= e1 < |g[y1]| && 0 <= y2 < |g| && 0 <= e2 < |g[y2]| &&
        r[y1][e1] != g[y1][e1] && !(y1 == x && e1 == k) &&
        r[y2][e2] != g[y2][e2] && !(y2 == x && e2 == k)
        ==> y1 == y2 && e1 == e2
  {
    var q := SearchFrom(g, x, Probe(g[x][k], dir)[0], leeway, dir, 1);
    if q.Some? && g[Boundary(x, q.value.step, dir)][q.value.event].kind == PartnerKind(dir) {
      TriggerEffect(g, x, k, leeway, dir);
    }
  }

  /** Classified shapes survive a trigger call: cancelled events are tombs,
      and a partner that keeps a slice list keeps at least two. */
  lemma TriggerKeepsShape(g: seq<seq<Event>>, x: nat, k: nat, leeway: nat, dir: Direction)
    requires x < |g| && k < |g[x]| && |Probe(g[x][k], dir)| > 0
    requires forall y, e :: 0 <= y < |g| && 0 <= e < |g[y]| ==> ShapedOrTomb(g[y][e])
    ensures var r := AfterTrigger(g, x, k, leeway, dir);
      forall y, e :: 0 <= y < |r| && 0 <= e < |r[y]| ==> ShapedOrTomb(r[y][e])
  {
    var q := SearchFrom(g, x, Probe(g[x][k], dir)[0], leeway, dir, 1);
    if q.Some? && g[Boundary(x, q.value.step, dir)][q.value.event].kind == PartnerKind(dir) {
      TriggerEffect(g, x, k, leeway, dir);
      var y := Boundary(x, q.value.step, dir);
      var b := g[y][q.value.event];
      assert ShapedOrTomb(b) && |Scanned(b, dir)| > 0;
      var r := AfterTrigger(g, x, k, leeway, dir);
      assert ShapedOrTomb(r[y][q.value.event]);
    }
  }

  /** invalidate_start_merge: the forward search of a START, boundaries
      x + 1 .. x + leeway below the end of the grid. */
  method InvalidateStartMerge(grid: array<seq<Event>>, x: nat, k: nat, leeway: nat)
    requires x < grid.Length && k < |grid[x]| && |grid[x][k].right| > 0
    modifies grid
    ensures grid[..] == AfterTrigger(old(grid[..]), x, k, leeway, Forward)
  {
    ghost var g := grid[..];
    var s := grid[x][k].right[0];
    var i: nat := 1;
    while i <= leeway && x + i < grid.Length
      invariant 1 <= i && grid[..] == g
      invariant SearchFrom(g, x, s, leeway, Forward, i) == SearchFrom(g, x, s, leeway, Forward, 1)
      decreases leeway + 1 - i
    {
      var column := grid[x + i];
      var e := 0;
      while e < |column|
        invariant e <= |column| && grid[..] == g
        invariant ColumnFrom(column, s, Forward, e) == ColumnFrom(column, s, Forward, 0)
      {
        var b := column[e];
        var j := 0;
        while j < |b.left|
          invariant j <= |b.left| && grid[..] == g
          invariant SideFrom(b.left, s, j) == SideFrom(b.left, s, 0)
        {
          if s.first < b.left[j].second && b.left[j].first < s.second {
            assert SearchFrom(g, x, s, leeway, Forward, i) == Some(Hit(i, e, j));
            if b.kind == Merge {
              grid[x] := grid[x][k := Tomb(grid[x][k])];
              grid[x + i] := grid[x + i][e := Shrink(b, j, Forward)];
            }
            return;
          }
          j := j + 1;
        }
        e := e + 1;
      }
      i := i + 1;
    }
  }

  /** invalidate_split_end: the backward search of an END, boundaries
      x - 1 .. x - leeway and never below boundary 0 (see the findings in the
      README: the source's own guard does not stop there). */
  method InvalidateSplitEnd(grid: array<seq<Event>>, x: nat, k: nat, leeway: nat)
    requires x < grid.Length && k < |grid[x]| && |grid[x][k].left| > 0
    modifies grid
    ensures grid[..] == AfterTrigger(old(grid[..]), x, k, leeway, Backward)
  {
    ghost var g := grid[..];
    var s := grid[x][k].left[0];
    var i: nat := 1;
    while i <= leeway && i <= x
      invariant 1 <= i && grid[..] == g
      invariant SearchFrom(g, x, s, leeway, Backward, i) == SearchFrom(g, x, s, leeway, Backward, 1)
      decreases leeway + 1 - i
    {
      var column := grid[x - i];
      var e := 0;
      while e < |column|
        invariant e <= |column| && grid[..] == g
        invariant ColumnFrom(column, s, Backward, e) == ColumnFrom(column, s, Backward, 0)
      {
        var b := column[e];
        var j := 0;
        while j < |b.right|
          invariant j <= |b.right| && grid[..] == g
          invariant SideFrom(b.right, s, j) == SideFrom(b.right, s, 0)
        {
          if s.first < b.right[j].second && b.right[j].first < s.second {
            assert SearchFrom(g, x, s, leeway, Backward, i) == Some(Hit(i, e, j));
            if b.kind == Split {
              grid[x] := grid[x][k := Tomb(grid[x][k])];
              grid[x - i] := grid[x - i][e := Shrink(b, j, Backward)];
            }
            return;
          }
          j := j + 1;
        }
        e := e + 1;
      }
      i := i + 1;
    }
  }

  /** The loop body of invalidate_overhangs for the event at (x, k): START
      events search forward, END events backward, all others are skipped.
      A START without a right slice (an END without a left one) makes the
      source throw; InvalidateOverhangs excludes it, and here it is a no-op. */
  function StepAt(g: seq<seq<Event>>, x: nat, k: nat, leeway: nat): (r: seq<seq<Event>>)
    requires x < |g| && k < |g[x]|
    ensures |r| == |g| && |r[x]| == |g[x]|
  {
    var a := g[x][k];
    var dir := if a.kind == Start then Forward else Backward;
    if (a.kind == Start || a.kind == End) && |Probe(a, dir)| > 0 then AfterTrigger(g, x, k, leeway, dir)
    else g
  }

  /** The first n events of boundary x processed in order. */
  function ColumnPass(g: seq<seq<Event>>, x: nat, n: nat, leeway: nat): (r: seq<seq<Event>>)
    requires x < |g| && n <= |g[x]|
    ensures |r| == |g| && |r[x]| == |g[x]|
  {
    if n == 0 then g else StepAt(ColumnPass(g, x, n - 1, leeway), x, n - 1, leeway)
  }

  /** The first n boundaries processed in order. */
  function GridPass(g: seq<seq<Event>>, n: nat, leeway: nat): (r: seq<seq<Event>>)
    requires n <= |g|
    ensures |r| == |g|
  {
    if n == 0 then g
    else
      var h := GridPass(g, n - 1, leeway);
      ColumnPass(h, n - 1, |h[n - 1]|, leeway)
  }

  /** invalidate_overhangs: the whole grid, boundary by boundary, each
      boundary's events in order, every call seeing the grid as the earlier
      calls left it. */
  function Pass(g: seq<seq<Event>>, leeway: nat): (r: seq<seq<Event>>)
    ensures |r| == |g|
  {
    GridPass(g, |g|, leeway)
  }

  /** The trigger slice that invalidate_start_merge (invalidate_split_end)
      reads with `at(0)` exists. */
  predicate Armed(e: Event)
  {
    (e.kind == Start ==> |e.right| > 0) && (e.kind == End ==> |e.left| > 0)
  }

  /** Every event at or after position (x, k) in processing order is armed. */
  predicate ArmedFrom(g: seq<seq<Event>>, x: nat, k: nat)
  {
    forall y, e :: 0 <= y < |g| && 0 <= e < |g[y]| && (x < y || (x == y && k <= e)) ==> Armed(g[y][e])
  }

  lemma StepKeepsArmed(g: seq<seq<Event>>, x: nat, k: nat, leeway: nat)
    requires x < |g| && k < |g[x]| && ArmedFrom(g, x, k)
    ensures ArmedFrom(StepAt(g, x, k, leeway), x, k + 1)
  {
    var a := g[x][k];
    if a.kind == Start {
      TriggerFrame(g, x, k, leeway, Forward);
    } else if a.kind == End {
      TriggerFrame(g, x, k, leeway, Backward);
    }
  }

  /** invalidate_overhangs on the event grid. */
  method InvalidateOverhangs(grid: array<seq<Event>>, leeway: nat)
    requires forall y, e :: 0 <= y < grid.Length && 0 <= e < |grid[y]| ==> Armed(grid[y][e])
    modifies grid
    ensures grid[..] == Pass(old(grid[..]), leeway)
  {
    ghost var g := grid[..];
    for x := 0 to grid.Length
      invariant grid[..] == GridPass(g, x, leeway)
      invariant ArmedFrom(grid[..], x, 0)
    {
      ghost var h := grid[..];
      for k := 0 to |grid[x]|
        invariant grid[..] == ColumnPass(h, x, k, leeway)
        invariant |grid[x]| == |h[x]|
        invariant ArmedFrom(grid[..], x, k)
      {
        StepKeepsArmed(grid[..], x, k, leeway);
        if grid[x][k].kind == Start {
          InvalidateStartMerge(grid, x, k, leeway);
        } else if grid[x][k].kind == End {
          InvalidateSplitEnd(grid, x, k, leeway);
        }
      }
    }
    assert grid[..] == GridPass(g, grid.Length, leeway);
  }

  /** Every event of one boundary is classified-shaped or a tomb. */
  predicate ColumnShapedOrTomb(column: seq<Event>)
  {
    forall e :: 0 <= e < |column| ==> ShapedOrTomb(column[e])
  }

  predicate AllShapedOrTomb(g: seq<seq<Event>>)
  {
    forall y :: 0 <= y < |g| ==> ColumnShapedOrTomb(g[y])
  }

  /** The kind of every event, boundary by boundary. */
  function Kinds(g: seq<seq<Event>>): (r: seq<seq<EventType>>)
    ensures |r| == |g|
  {
    seq(|g|, y requires 0 <= y < |g| => seq(|g[y]|, e requires 0 <= e < |g[y]| => g[y][e].kind))
  }

  /** The events of one boundary have the kinds ks, one for one. */
  predicate ColumnHasKinds(column: seq<Event>, ks: seq<EventType>)
  {
    |column| == |ks| && forall e :: 0 <= e < |column| ==> column[e].kind == ks[e]
  }

  /** g has the layout of ks and every event the kind ks gives it. */
  predicate HasKinds(g: seq<seq<Event>>, ks: seq<seq<EventType>>)
  {
    |g| == |ks| && forall y :: 0 <= y < |g| ==> ColumnHasKinds(g[y], ks[y])
  }

  lemma StepKeepsKinds(g: seq<seq<Event>>, x: nat, k: nat, leeway: nat, ks: seq<seq<EventType>>)
    requires x < |g| && k < |g[x]| && HasKinds(g, ks)
    ensures HasKinds(StepAt(g, x, k, leeway), ks)
  {
    var a := g[x][k];
    var dir := if a.kind == Start then Forward else Backward;
    if (a.kind == Start && |a.right| > 0) || (a.kind == End && |a.left| > 0) {
      TriggerFrame(g, x, k, leeway, dir);
    }
  }

  lemma StepKeepsShape(g: seq<seq<Event>>, x: nat, k: nat, leeway: nat)
    requires x < |g| && k < |g[x]| && AllShapedOrTomb(g)
    ensures AllShapedOrTomb(StepAt(g, x, k, leeway))
  {
    var a := g[x][k];
    var dir := if a.kind == Start then Forward else Backward;
    if (a.kind == Start && |a.right| > 0) || (a.kind == End && |a.left| > 0) {
      TriggerKeepsShape(g, x, k, leeway, dir);
    }
  }

  lemma {:induction false} ColumnPassKeepsKinds(g: seq<seq<Event>>, x: nat, n: nat, leeway: nat, ks: seq<seq<EventType>>)
    requires x < |g| && n <= |g[x]| && HasKinds(g, ks)
    ensures HasKinds(ColumnPass(g, x, n, leeway), ks)
  {
    if n > 0 {
      ColumnPassKeepsKinds(g, x, n - 1, leeway, ks);
      StepKeepsKinds(ColumnPass(g, x, n - 1, leeway), x, n - 1, leeway, ks);
    }
  }

  lemma {:induction false} ColumnPassKeepsShape(g: seq<seq<Event>>, x: nat, n: nat, leeway: nat)
    requires x < |g| && n <= |g[x]| && AllShapedOrTomb(g)
    ensures AllShapedOrTomb(ColumnPass(g, x, n, leeway))
  {
    if n > 0 {
      ColumnPassKeepsShape(g, x, n - 1, leeway);
      StepKeepsShape(ColumnPass(g, x, n - 1, leeway), x, n - 1, leeway);
    }
  }

  lemma {:induction false} GridPassKeepsKinds(g: seq<seq<Event>>, n: nat, leeway: nat, ks: seq<seq<EventType>>)
    requires n <= |g| && HasKinds(g, ks)
    ensures HasKinds(GridPass(g, n, leeway), ks)
  {
    if n > 0 {
      GridPassKeepsKinds(g, n - 1, leeway, ks);
      var h := GridPass(g, n - 1, leeway);
      ColumnPassKeepsKinds(h, n - 1, |h[n - 1]|, leeway, ks);
    }
  }

  lemma {:induction false} GridPassKeepsShape(g: seq<seq<Event>>, n: nat, leeway: nat)
    requires n <= |g| && AllShapedOrTomb(g)
    ensures AllShapedOrTomb(GridPass(g, n, leeway))
  {
    if n > 0 {
      GridPassKeepsShape(g, n - 1, leeway);
      var h := GridPass(g, n - 1, leeway);
      ColumnPassKeepsShape(h, n - 1, |h[n - 1]|, leeway);
    }
  }

  /** The whole filter changes no event's kind, no boundary's event count,
      and leaves every event either classified-shaped or cancelled. */
  lemma PassKeepsShape(g: seq<seq<Event>>, leeway: nat)
    ensures HasKinds(Pass(g, leeway), Kinds(g))
    ensures AllShapedOrTomb(g) ==> AllShapedOrTomb(Pass(g, leeway))
  {
    assert HasKinds(g, Kinds(g));
    GridPassKeepsKinds(g, |g|, leeway, Kinds(g));
    if AllShapedOrTomb(g) {
      GridPassKeepsShape(g, |g|, leeway);
    }
  }

  lemma {:induction false} ColumnPassZero(g: seq<seq<Event>>, x: nat, n: nat)
    requires x < |g| && n <= |g[x]|
    ensures ColumnPass(g, x, n, 0) == g
  {
    if n > 0 {
      ColumnPassZero(g, x, n - 1);
      var a := g[x][n - 1];
      if a.kind == Start && |a.right| > 0 {
        ZeroLeewayTrigger(g, x, n - 1, Forward);
      } else if a.kind == End && |a.left| > 0 {
        ZeroLeewayTrigger(g, x, n - 1, Backward);
      }
    }
  }

  lemma {:induction false} GridPassZero(g: seq<seq<Event>>, n: nat)
    requires n <= |g|
    ensures GridPass(g, n, 0) == g
  {
    if n > 0 {
      GridPassZero(g, n - 1);
      ColumnPassZero(g, n - 1, |g[n - 1]|);
    }
  }

  /** With leeway 0 the filter leaves the grid unchanged. */
  lemma PassZeroLeeway(g: seq<seq<Event>>)
    ensures Pass(g, 0) == g
  {
    GridPassZero(g, |g|);
  }

  /** The values of a 64-bit `size_t`. */
  const SizeRange: nat := 0x1_0000_0000_0000_0000

  datatype BackwardScan = Found(hit: Hit) | Exhausted | OutOfRange(index: nat)

  /** The backward search of invalidate_split_end as written: the guard
      `x - i >= 0` holds for every unsigned value, so the loop runs while
      i <= leeway and indexes boundary `x - i` modulo 2^64, where `at`
      throws once that index is past the grid. */
  function SplitEndScanAsWritten(g: seq<seq<Event>>, x: nat, s: Slice, leeway: nat, i: nat): (r: BackwardScan)
    requires x < |g| && 1 <= i
    decreases leeway + 1 - i
    ensures r.OutOfRange? ==> r.index >= |g|
  {
    if i > leeway then Exhausted
    else
      var index := (x - i) % SizeRange;
      if index >= |g| then OutOfRange(index)
      else match ColumnFrom(g[index], s, Backward, 0)
        case Some(spot) => Found(Hit(i, spot.event, spot.index))
        case None => SplitEndScanAsWritten(g, x, s, leeway, i + 1)
  }

  /** While the leeway does not reach past boundary 0, the source's search
      and the bounded one agree. */
  lemma {:induction false} AsWrittenAgreesInRange(g: seq<seq<Event>>, x: nat, s: Slice, leeway: nat, i: nat)
    requires x < |g| < SizeRange && 1 <= i && leeway <= x
    decreases leeway + 1 - i
    ensures SplitEndScanAsWritten(g, x, s, leeway, i) ==
      match SearchFrom(g, x, s, leeway, Backward, i)
      case Some(h) => Found(h)
      case None => Exhausted
  {
    if i <= leeway {
      assert (x - i) % SizeRange == x - i;
      AsWrittenAgreesInRange(g, x, s, leeway, i + 1);
    }
  }

  /** On every input, the source's search either runs past boundary 0 or
      agrees with the bounded one. */
  lemma {:induction false} AsWrittenAgrees(g: seq<seq<Event>>, x: nat, s: Slice, leeway: nat, i: nat)
    requires x < |g| < SizeRange && 1 <= i <= x + 1
    decreases leeway + 1 - i
    ensures SplitEndScanAsWritten(g, x, s, leeway, i).OutOfRange? ||
      SplitEndScanAsWritten(g, x, s, leeway, i) ==
        match SearchFrom(g, x, s, leeway, Backward, i)
        case Some(h) => Found(h)
        case None => Exhausted
  {
    if i <= leeway {
      if i <= x {
        assert (x - i) % SizeRange == x - i;
        AsWrittenAgrees(g, x, s, leeway, i + 1);
      } else {
        assert (x - i) % SizeRange == SizeRange - 1;
      }
    }
  }

  /** Whenever the leeway exceeds x and boundaries x - 1 .. 0 hold no
      overlapping slice, the source's search goes on to index 2^64 - 1,
      where `at` throws; the bounded search just finds nothing. */
  lemma {:induction false} AsWrittenOverrunsBoundaryZero(g: seq<seq<Event>>, x: nat, s: Slice, leeway: nat, i: nat)
    requires x < |g| < SizeRange && 1 <= i <= x + 1 && x < leeway
    requires SearchFrom(g, x, s, leeway, Backward, i) == None
    decreases x + 1 - i
    ensures SplitEndScanAsWritten(g, x, s, leeway, i) == OutOfRange(SizeRange - 1)
  {
    if i <= x {
      assert (x - i) % SizeRange == x - i;
      AsWrittenOverrunsBoundaryZero(g, x, s, leeway, i + 1);
    } else {
      assert (x - i) % SizeRange == SizeRange - 1;
    }
  }

  /** A grid that padding and classification produce: a START on boundary
      0 whose slice meets nothing later, and an END on boundary 3. With
      leeway 4 the filter reaches the END with the grid unchanged, and the
      END's search passes boundaries 2, 1 and 0 and then wraps, while the
      bounded filter leaves the grid as it is. */
  lemma OverrunExample()
    ensures var g := [[Event(Start, [], [Slice(0, 5)])], [], [], [Event(End, [Slice(5, 6)], [])]];
      GridPass(g, 3, 4) == g &&
      SplitEndScanAsWritten(g, 3, Slice(5, 6), 4, 1) == OutOfRange(SizeRange - 1) &&
      AfterTrigger(g, 3, 0, 4, Backward) == g
  {
    var g := [[Event(Start, [], [Slice(0, 5)])], [], [], [Event(End, [Slice(5, 6)], [])]];
    assert AfterTrigger(g, 0, 0, 4, Forward) == g by {
      assert ColumnFrom(g[3], Slice(0, 5), Forward, 0) == None by {
        assert SideFrom([Slice(5, 6)], Slice(0, 5), 0) == None;
      }
      assert SearchFrom(g, 0, Slice(0, 5), 4, Forward, 1) == None;
    }
    assert ColumnPass(g, 0, 1, 4) == g;
    assert GridPass(g, 1, 4) == g;
    assert GridPass(g, 2, 4) == g;
    assert ColumnFrom(g[0], Slice(5, 6), Backward, 0) == None by {
      assert SideFrom([Slice(0, 5)], Slice(5, 6), 0) == None;
    }
    assert SearchFrom(g, 3, Slice(5, 6), 4, Backward, 1) == None;
    AsWrittenOverrunsBoundaryZero(g, 3, Slice(5, 6), 4, 1);
  }
}
