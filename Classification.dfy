/** Event classification at one column boundary: every slice is classified by
    the number of slices it overlaps in the other column. */
module Classification {
  import opened BcdTypes

  /** The event of a slice of column x with the given right neighbours:
      none is an END, two or more a SPLIT, exactly one a plain continuation. */
  function LeftEvent(a: Slice, neighbors: seq<Slice>): (r: seq<Event>)
    ensures |r| <= 1 && (r == [] <==> |neighbors| == 1)
    ensures |r| == 1 ==>
      r[0].left == [a] && r[0].right == neighbors && Shaped(r[0]) && (r[0].kind == End || r[0].kind == Split)
  {
    if |neighbors| == 0 then [Event(End, [a], [])]
    else if |neighbors| > 1 then [Event(Split, [a], neighbors)]
    else []
  }

  /** The event of a slice of column x + 1 with the given left neighbours:
      none is a START, two or more a MERGE, exactly one a plain continuation. */
  function RightEvent(b: Slice, neighbors: seq<Slice>): (r: seq<Event>)
    ensures |r| <= 1 && (r == [] <==> |neighbors| == 1)
    ensures |r| == 1 ==>
      r[0].left == neighbors && r[0].right == [b] && Shaped(r[0]) && (r[0].kind == Start || r[0].kind == Merge)
  {
    if |neighbors| == 0 then [Event(Start, [], [b])]
    else if |neighbors| > 1 then [Event(Merge, neighbors, [b])]
    else []
  }

  /** The events of the left-hand slices, visited in the order of `keys`. */
  function LeftEvents(keys: seq<Slice>, m: map<Slice, seq<Slice>>): (r: seq<Event>)
    requires forall a :: a in keys ==> a in m
    ensures |r| <= |keys|
  {
    if |keys| == 0 then []
    else LeftEvents(keys[..|keys| - 1], m) + LeftEvent(keys[|keys| - 1], m[keys[|keys| - 1]])
  }

  /** The events of the right-hand slices, visited in the order of `keys`. */
  function RightEvents(keys: seq<Slice>, m: map<Slice, seq<Slice>>): (r: seq<Event>)
    requires forall b :: b in keys ==> b in m
    ensures |r| <= |keys|
  {
    if |keys| == 0 then []
    else RightEvents(keys[..|keys| - 1], m) + RightEvent(keys[|keys| - 1], m[keys[|keys| - 1]])
  }

  /** For every slice of L, the slices of R it overlaps, in the order of R. */
  function OutMap(L: seq<Slice>, R: seq<Slice>): (r: map<Slice, seq<Slice>>)
    ensures forall a :: a in r <==> a in L
    ensures forall a :: a in r ==> |r[a]| <= |R|
  {
    map a | a in L :: Overlapping(R, a)
  }

  /** For every slice of R, the slices of L it overlaps, in the order of L. */
  function InMap(L: seq<Slice>, R: seq<Slice>): (r: map<Slice, seq<Slice>>)
    ensures forall b :: b in r <==> b in R
    ensures forall b :: b in r ==> |r[b]| <= |L|
  {
    map b | b in R :: Overlapping(L, b)
  }

  /** The events of the boundary between columns with slices L and R: the
      END/SPLIT events of L in order, then the START/MERGE events of R. */
  function BoundaryEvents(L: seq<Slice>, R: seq<Slice>): (r: seq<Event>)
    ensures |r| <= |L| + |R|
  {
    LeftEvents(L, OutMap(L, R)) + RightEvents(R, InMap(L, R))
  }

  lemma {:induction false} LeftEventsMember(keys: seq<Slice>, m: map<Slice, seq<Slice>>, e: Event)
    requires forall a :: a in keys ==> a in m
    ensures e in LeftEvents(keys, m) <==> exists a :: a in keys && e in LeftEvent(a, m[a])
  {
    if |keys| > 0 {
      var init, last := keys[..|keys| - 1], keys[|keys| - 1];
      LeftEventsMember(init, m, e);
      assert keys == init + [last];
      if e in LeftEvents(keys, m) && e !in LeftEvent(last, m[last]) {
        var a :| a in init && e in LeftEvent(a, m[a]);
        assert a in keys;
      }
      if exists a :: a in keys && e in LeftEvent(a, m[a]) {
        var a :| a in keys && e in LeftEvent(a, m[a]);
        if a != last { assert a in init; }
      }
    }
  }

  lemma {:induction false} RightEventsMember(keys: seq<Slice>, m: map<Slice, seq<Slice>>, e: Event)
    requires forall b :: b in keys ==> b in m
    ensures e in RightEvents(keys, m) <==> exists b :: b in keys && e in RightEvent(b, m[b])
  {
    if |keys| > 0 {
      var init, last := keys[..|keys| - 1], keys[|keys| - 1];
      RightEventsMember(init, m, e);
      assert keys == init + [last];
      if e in RightEvents(keys, m) && e !in RightEvent(last, m[last]) {
        var b :| b in init && e in RightEvent(b, m[b]);
        assert b in keys;
      }
      if exists b :: b in keys && e in RightEvent(b, m[b]) {
        var b :| b in keys && e in RightEvent(b, m[b]);
        if b != last { assert b in init; }
      }
    }
  }

  /** Every classified event has its type's shape; the left-hand pass yields
      only END and SPLIT events, the right-hand pass only START and MERGE. */
  lemma ClassifiedShapes(lk: seq<Slice>, lm: map<Slice, seq<Slice>>, rk: seq<Slice>, rm: map<Slice, seq<Slice>>)
    requires forall a :: a in lk ==> a in lm
    requires forall b :: b in rk ==> b in rm
    ensures forall e :: e in LeftEvents(lk, lm) ==> Shaped(e) && (e.kind == End || e.kind == Split)
    ensures forall e :: e in RightEvents(rk, rm) ==> Shaped(e) && (e.kind == Start || e.kind == Merge)
  {
    forall e | e in LeftEvents(lk, lm)
      ensures Shaped(e) && (e.kind == End || e.kind == Split)
    {
      LeftEventsMember(lk, lm, e);
    }
    forall e | e in RightEvents(rk, rm)
      ensures Shaped(e) && (e.kind == Start || e.kind == Merge)
    {
      RightEventsMember(rk, rm, e);
    }
  }

  /** Every event of a boundary has its type's shape. */
  lemma BoundaryEventsShaped(L: seq<Slice>, R: seq<Slice>)
    ensures forall e :: e in BoundaryEvents(L, R) ==> Shaped(e)
    ensures forall i :: 0 <= i < |BoundaryEvents(L, R)| ==> Shaped(BoundaryEvents(L, R)[i])
  {
    var le, re := LeftEvents(L, OutMap(L, R)), RightEvents(R, InMap(L, R));
    var es := le + re;
    ClassifiedShapes(L, OutMap(L, R), R, InMap(L, R));
    forall e | e in es ensures Shaped(e) {
      if e in le { } else { assert e in re; }
    }
    forall i | 0 <= i < |es| ensures Shaped(es[i]) {
      assert es[i] in es;
    }
  }

  /** Every event has a left slice, and the first ones strictly ascend. */
  predicate AscendingByLeft(es: seq<Event>)
  {
    (forall i :: 0 <= i < |es| ==> |es[i].left| > 0) &&
    forall i, j :: 0 <= i < j < |es| ==> Less(es[i].left[0], es[j].left[0])
  }

  /** Every event has a right slice, and the first ones strictly ascend. */
  predicate AscendingByRight(es: seq<Event>)
  {
    (forall i :: 0 <= i < |es| ==> |es[i].right| > 0) &&
    forall i, j :: 0 <= i < j < |es| ==> Less(es[i].right[0], es[j].right[0])
  }

  /** END and SPLIT events are listed by ascending key of their left slice. */
  lemma {:induction false} LeftEventsAscending(keys: seq<Slice>, m: map<Slice, seq<Slice>>)
    requires forall a :: a in keys ==> a in m
    requires StrictlyAscending(keys)
    ensures AscendingByLeft(LeftEvents(keys, m))
  {
    if |keys| > 0 {
      var init, last := keys[..|keys| - 1], keys[|keys| - 1];
      LeftEventsAscending(init, m);
      var es0, ev := LeftEvents(init, m), LeftEvent(last, m[last]);
      var es := LeftEvents(keys, m);
      assert es == es0 + ev;
      forall i | 0 <= i < |es0| ensures |es0[i].left| > 0 && Less(es0[i].left[0], last) {
        LeftEventsMember(init, m, es0[i]);
        var a :| a in init && es0[i] in LeftEvent(a, m[a]);
        var t :| 0 <= t < |init| && init[t] == a;
        assert keys[t] == a;
      }
      forall i | 0 <= i < |es| ensures |es[i].left| > 0 {
        if i < |es0| { assert es[i] == es0[i]; } else { assert es[i] == ev[0]; }
      }
      forall i, j | 0 <= i < j < |es| ensures Less(es[i].left[0], es[j].left[0]) {
        if j < |es0| {
          assert es[i] == es0[i] && es[j] == es0[j];
        } else {
          assert es[i] == es0[i] && es[j] == ev[0];
        }
      }
    } else {
      assert LeftEvents(keys, m) == [];
    }
  }

  /** START and MERGE events are listed by ascending key of their right slice. */
  lemma {:induction false} RightEventsAscending(keys: seq<Slice>, m: map<Slice, seq<Slice>>)
    requires forall b :: b in keys ==> b in m
    requires StrictlyAscending(keys)
    ensures AscendingByRight(RightEvents(keys, m))
  {
    if |keys| > 0 {
      var init, last := keys[..|keys| - 1], keys[|keys| - 1];
      RightEventsAscending(init, m);
      var es0, ev := RightEvents(init, m), RightEvent(last, m[last]);
      var es := RightEvents(keys, m);
      assert es == es0 + ev;
      forall i | 0 <= i < |es0| ensures |es0[i].right| > 0 && Less(es0[i].right[0], last) {
        RightEventsMember(init, m, es0[i]);
        var b :| b in init && es0[i] in RightEvent(b, m[b]);
        var t :| 0 <= t < |init| && init[t] == b;
        assert keys[t] == b;
      }
      forall i | 0 <= i < |es| ensures |es[i].right| > 0 {
        if i < |es0| { assert es[i] == es0[i]; } else { assert es[i] == ev[0]; }
      }
      forall i, j | 0 <= i < j < |es| ensures Less(es[i].right[0], es[j].right[0]) {
        if j < |es0| {
          assert es[i] == es0[i] && es[j] == es0[j];
        } else {
          assert es[i] == es0[i] && es[j] == ev[0];
        }
      }
    } else {
      assert RightEvents(keys, m) == [];
    }
  }

  /** Exactly which events a boundary carries, in both directions, for each
      event type. A slice with exactly one neighbour yields no event. */
  lemma BoundaryEventsExact(L: seq<Slice>, R: seq<Slice>, e: Event)
    ensures e.kind == End ==>
      (e in BoundaryEvents(L, R) <==>
        |e.left| == 1 && e.right == [] && e.left[0] in L && Overlapping(R, e.left[0]) == [])
    ensures e.kind == Split ==>
      (e in BoundaryEvents(L, R) <==>
        |e.left| == 1 && e.left[0] in L && e.right == Overlapping(R, e.left[0]) && |e.right| >= 2)
    ensures e.kind == Start ==>
      (e in BoundaryEvents(L, R) <==>
        e.left == [] && |e.right| == 1 && e.right[0] in R && Overlapping(L, e.right[0]) == [])
    ensures e.kind == Merge ==>
      (e in BoundaryEvents(L, R) <==>
        |e.right| == 1 && e.right[0] in R && e.left == Overlapping(L, e.right[0]) && |e.left| >= 2)
  {
    LeftEventsMember(L, OutMap(L, R), e);
    RightEventsMember(R, InMap(L, R), e);
    if e.kind == End || e.kind == Split {
      if |e.left| == 1 && e.left[0] in L {
        assert e.left == [e.left[0]];
      }
    }
    if e.kind == Start || e.kind == Merge {
      if |e.right| == 1 && e.right[0] in R {
        assert e.right == [e.right[0]];
      }
    }
  }

  /** A slice of L with exactly one right neighbour is a plain continuation:
      no END or SPLIT event is about it. */
  lemma LeftContinuationNoEvent(L: seq<Slice>, R: seq<Slice>, a: Slice)
    requires a in L && |Overlapping(R, a)| == 1
    ensures forall e :: e in BoundaryEvents(L, R) && (e.kind == End || e.kind == Split) ==> e.left != [a]
  {
    forall e | e in BoundaryEvents(L, R) && (e.kind == End || e.kind == Split)
      ensures e.left != [a]
    {
      BoundaryEventsExact(L, R, e);
    }
  }

  /** A slice of R with exactly one left neighbour is a plain continuation:
      no START or MERGE event is about it. */
  lemma RightContinuationNoEvent(L: seq<Slice>, R: seq<Slice>, b: Slice)
    requires b in R && |Overlapping(L, b)| == 1
    ensures forall e :: e in BoundaryEvents(L, R) && (e.kind == Start || e.kind == Merge) ==> e.right != [b]
  {
    forall e | e in BoundaryEvents(L, R) && (e.kind == Start || e.kind == Merge)
      ensures e.right != [b]
    {
      BoundaryEventsExact(L, R, e);
    }
  }

  /** Every END/SPLIT event comes before every START/MERGE event. */
  predicate EndsFirst(es: seq<Event>)
  {
    forall i, j :: 0 <= i < j < |es| && (es[j].kind == End || es[j].kind == Split) ==>
      es[i].kind == End || es[i].kind == Split
  }

  /** Every END/SPLIT event has a left slice, and these strictly ascend. */
  predicate EndsAscending(es: seq<Event>)
  {
    (forall i :: 0 <= i < |es| && (es[i].kind == End || es[i].kind == Split) ==> |es[i].left| > 0) &&
    forall i, j ::
      0 <= i < j < |es| && (es[i].kind == End || es[i].kind == Split) && (es[j].kind == End || es[j].kind == Split)
      ==> Less(es[i].left[0], es[j].left[0])
  }

  /** Every START/MERGE event has a right slice, and these strictly ascend. */
  predicate StartsAscending(es: seq<Event>)
  {
    (forall i :: 0 <= i < |es| && (es[i].kind == Start || es[i].kind == Merge) ==> |es[i].right| > 0) &&
    forall i, j ::
      0 <= i < j < |es| && (es[i].kind == Start || es[i].kind == Merge) && (es[j].kind == Start || es[j].kind == Merge)
      ==> Less(es[i].right[0], es[j].right[0])
  }

  /** Any list of END/SPLIT events ascending by left slice followed by any
      list of START/MERGE events ascending by right slice is ordered the way
      a boundary's list is. */
  lemma {:induction false} ConcatOrder(le: seq<Event>, re: seq<Event>)
    requires forall e :: e in le ==> e.kind == End || e.kind == Split
    requires forall e :: e in re ==> e.kind == Start || e.kind == Merge
    requires AscendingByLeft(le)
    requires AscendingByRight(re)
    ensures EndsFirst(le + re) && EndsAscending(le + re) && StartsAscending(le + re)
  {
    ConcatEnds(le, re);
    ConcatStarts(le, re);
  }

  lemma {:induction false} ConcatEnds(le: seq<Event>, re: seq<Event>)
    requires forall e :: e in re ==> e.kind == Start || e.kind == Merge
    requires AscendingByLeft(le)
    requires forall e :: e in le ==> e.kind == End || e.kind == Split
    ensures EndsFirst(le + re) && EndsAscending(le + re)
  {
    var es := le + re;
    forall t | |le| <= t < |es| ensures es[t].kind == Start || es[t].kind == Merge {
      assert es[t] == re[t - |le|] && re[t - |le|] in re;
    }
    forall i | 0 <= i < |le| ensures es[i] == le[i] && (es[i].kind == End || es[i].kind == Split) {
      assert le[i] in le;
    }
  }

  lemma {:induction false} ConcatStarts(le: seq<Event>, re: seq<Event>)
    requires forall e :: e in le ==> e.kind == End || e.kind == Split
    requires AscendingByRight(re)
    ensures StartsAscending(le + re)
  {
    var es := le + re;
    forall t | 0 <= t < |le| ensures es[t].kind == End || es[t].kind == Split {
      assert es[t] == le[t] && le[t] in le;
    }
    forall t | |le| <= t < |es| ensures es[t] == re[t - |le|] { }
  }

  /** All END/SPLIT events precede all START/MERGE events, and each group is
      in ascending order of its slice when the columns are. */
  lemma BoundaryEventsOrder(L: seq<Slice>, R: seq<Slice>)
    requires StrictlyAscending(L) && StrictlyAscending(R)
    ensures var es := BoundaryEvents(L, R);
      EndsFirst(es) && EndsAscending(es) && StartsAscending(es)
  {
    ClassifiedShapes(L, OutMap(L, R), R, InMap(L, R));
    LeftEventsAscending(L, OutMap(L, R));
    RightEventsAscending(R, InMap(L, R));
    ConcatOrder(LeftEvents(L, OutMap(L, R)), RightEvents(R, InMap(L, R)));
  }

  lemma OverlappingOne(t: Slice, s: Slice)
    ensures Overlapping([t], s) == if Overlaps(s, t) then [t] else []
  {
    assert [t][..0] == [];
  }

  lemma OverlappingTwo(t: Slice, u: Slice, s: Slice)
    ensures Overlapping([t, u], s) == Overlapping([t], s) + if Overlaps(s, u) then [u] else []
  {
    assert [t, u][..1] == [t];
  }

  lemma LeftEventsOne(a: Slice, m: map<Slice, seq<Slice>>)
    requires a in m
    ensures LeftEvents([a], m) == LeftEvent(a, m[a])
  {
    assert [a][..0] == [];
  }

  lemma LeftEventsTwo(a: Slice, b: Slice, m: map<Slice, seq<Slice>>)
    requires a in m && b in m
    ensures LeftEvents([a, b], m) == LeftEvent(a, m[a]) + LeftEvent(b, m[b])
  {
    assert [a, b][..1] == [a];
    LeftEventsOne(a, m);
  }

  lemma RightEventsOne(b: Slice, m: map<Slice, seq<Slice>>)
    requires b in m
    ensures RightEvents([b], m) == RightEvent(b, m[b])
  {
    assert [b][..0] == [];
  }

  lemma RightEventsTwo(a: Slice, b: Slice, m: map<Slice, seq<Slice>>)
    requires a in m && b in m
    ensures RightEvents([a, b], m) == RightEvent(a, m[a]) + RightEvent(b, m[b])
  {
    assert [a, b][..1] == [a];
    RightEventsOne(a, m);
  }

  /** Two columns holding the same single slice: no event at all. */
  lemma SameSliceNoEvents()
    ensures BoundaryEvents([Slice(2, 5)], [Slice(2, 5)]) == []
  {
    OneToOneNoEvents(Slice(2, 5), Slice(2, 5));
  }

  /** One slice facing two: exactly one SPLIT. */
  lemma SplitExample()
    ensures BoundaryEvents([Slice(0, 10)], [Slice(0, 4), Slice(6, 10)]) ==
      [Event(Split, [Slice(0, 10)], [Slice(0, 4), Slice(6, 10)])]
  {
    var a, b, c := Slice(0, 10), Slice(0, 4), Slice(6, 10);
    var om, im := OutMap([a], [b, c]), InMap([a], [b, c]);
    OverlappingTwo(b, c, a);
    OverlappingOne(b, a);
    OverlappingOne(a, b);
    OverlappingOne(a, c);
    assert om[a] == [b, c];
    assert im[b] == [a] && im[c] == [a];
    LeftEventsOne(a, om);
    RightEventsTwo(b, c, im);
  }

  /** Two slices facing one: exactly one MERGE, the mirror image of SplitExample. */
  lemma MergeExample()
    ensures BoundaryEvents([Slice(0, 4), Slice(6, 10)], [Slice(0, 10)]) ==
      [Event(Merge, [Slice(0, 4), Slice(6, 10)], [Slice(0, 10)])]
  {
    var a, b, c := Slice(0, 10), Slice(0, 4), Slice(6, 10);
    var om, im := OutMap([b, c], [a]), InMap([b, c], [a]);
    OverlappingTwo(b, c, a);
    OverlappingOne(b, a);
    OverlappingOne(a, b);
    OverlappingOne(a, c);
    assert im[a] == [b, c];
    assert om[b] == [a] && om[c] == [a];
    RightEventsOne(a, im);
    LeftEventsTwo(b, c, om);
  }

  /** A slice facing nothing yields an END, and from the other side a START. */
  lemma DisjointStartEnd()
    ensures BoundaryEvents([Slice(0, 3)], [Slice(5, 8)]) ==
      [Event(End, [Slice(0, 3)], []), Event(Start, [], [Slice(5, 8)])]
  {
    var a, b := Slice(0, 3), Slice(5, 8);
    OverlappingOne(b, a);
    OverlappingOne(a, b);
    LeftEventsOne(a, OutMap([a], [b]));
    RightEventsOne(b, InMap([a], [b]));
  }

  /** A single slice overlapping a single slice is a continuation: no event. */
  lemma OneToOneNoEvents(a: Slice, b: Slice)
    requires Overlaps(a, b)
    ensures BoundaryEvents([a], [b]) == []
  {
    var om, im := OutMap([a], [b]), InMap([a], [b]);
    assert om[a] == [b] by { OverlappingOne(b, a); }
    assert im[b] == [a] by { OverlappingOne(a, b); }
    assert LeftEvents([a], om) == [] by { LeftEventsOne(a, om); }
    assert RightEvents([b], im) == [] by { RightEventsOne(b, im); }
  }
}
