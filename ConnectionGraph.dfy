/** The connection graph between two adjacent columns: every slice of the
    left column is linked to the slices of the right column it overlaps, and
    the other way round. Both sides are kept in ordered maps keyed by slice. */
module ConnectionGraph {
  import opened BcdTypes
  import opened Classification

  /** An edge of the graph, from a slice of column x to one of column x + 1. */
  datatype Edge = Edge(from: Slice, to: Slice)

  /** Inserting a key into the ascending key sequence of an ordered map;
      a key that is already present is left as it is. */
  function Insert(keys: seq<Slice>, k: Slice): (r: seq<Slice>)
    ensures forall s :: s in r <==> s in keys || s == k
  {
    if |keys| == 0 then [k]
    else if keys[0] == k then keys
    else if Less(k, keys[0]) then [k] + keys
    else
      var rest := Insert(keys[1..], k);
      assert forall s :: s in keys[1..] ==> s in keys;
      [keys[0]] + rest
  }

  lemma {:induction false} InsertAscending(keys: seq<Slice>, k: Slice)
    requires StrictlyAscending(keys)
    ensures StrictlyAscending(Insert(keys, k))
  {
    if |keys| > 0 && keys[0] != k {
      LessTotal(k, keys[0]);
      if !Less(k, keys[0]) {
        var rest := Insert(keys[1..], k);
        InsertAscending(keys[1..], k);
        forall s | s in rest ensures Less(keys[0], s) {
          if s != k {
            var t :| 0 <= t < |keys[1..]| && keys[1..][t] == s;
            assert keys[t + 1] == s;
          }
        }
        var r := [keys[0]] + rest;
        forall i, j | 0 <= i < j < |r| ensures Less(r[i], r[j]) {
          if i == 0 { assert r[j] == rest[j - 1] && r[j] in rest; }
          else { assert r[i] == rest[i - 1] && r[j] == rest[j - 1]; }
        }
      }
    }
  }

  /** The first entry of a strictly ascending sequence is its least one. */
  lemma AscendingFirstLeast(a: seq<Slice>, s: Slice)
    requires StrictlyAscending(a) && s in a
    ensures s == a[0] || Less(a[0], s)
  {
    var t :| 0 <= t < |a| && a[t] == s;
    if t > 0 {
      assert Less(a[0], a[t]);
    }
  }

  /** A strictly ascending sequence is determined by its elements. */
  lemma {:induction false} AscendingUnique(a: seq<Slice>, b: seq<Slice>)
    requires StrictlyAscending(a) && StrictlyAscending(b)
    requires forall s :: s in a <==> s in b
    ensures a == b
  {
    if |a| > 0 { assert a[0] in b; }
    if |b| > 0 { assert b[0] in a; }
    if |a| > 0 && |b| > 0 {
      var a0, b0 := a[0], b[0];
      AscendingFirstLeast(a, b0);
      AscendingFirstLeast(b, a0);
      LessTotal(a0, b0);
      assert a0 == b0;
      forall s ensures s in a[1..] <==> s in b[1..] {
        if s in a[1..] {
          var t :| 1 <= t < |a| && a[t] == s;
          assert Less(a[0], s);
          LessTotal(a[0], s);
          assert s in b;
        }
        if s in b[1..] {
          var t :| 1 <= t < |b| && b[t] == s;
          assert Less(b[0], s);
          LessTotal(b[0], s);
          assert s in a;
        }
      }
      AscendingUnique(a[1..], b[1..]);
      assert a == [a[0]] + a[1..] && b == [b[0]] + b[1..];
    }
  }

  /** The edges from slice a, in the order of R (the inner loop). */
  function Row(a: Slice, R: seq<Slice>): (r: seq<Edge>)
    ensures |r| <= |R|
  {
    if |R| == 0 then []
    else Row(a, R[..|R| - 1]) + (if Overlaps(a, R[|R| - 1]) then [Edge(a, R[|R| - 1])] else [])
  }

  /** All edges, in the order the nested loops of the constructor meet them. */
  function Edges(L: seq<Slice>, R: seq<Slice>): (r: seq<Edge>)
    ensures |r| <= |L| * |R|
  {
    if |L| == 0 then [] else Edges(L[..|L| - 1], R) + Row(L[|L| - 1], R)
  }

  /** The targets of a's edges, in edge order. */
  function Outs(E: seq<Edge>, a: Slice): (r: seq<Slice>)
    ensures |r| <= |E|
  {
    if |E| == 0 then []
    else Outs(E[..|E| - 1], a) + (if E[|E| - 1].from == a then [E[|E| - 1].to] else [])
  }

  /** The sources of b's edges, in edge order. */
  function Ins(E: seq<Edge>, b: Slice): (r: seq<Slice>)
    ensures |r| <= |E|
  {
    if |E| == 0 then []
    else Ins(E[..|E| - 1], b) + (if E[|E| - 1].to == b then [E[|E| - 1].from] else [])
  }

  lemma {:induction false} RowMember(a: Slice, R: seq<Slice>, e: Edge)
    ensures e in Row(a, R) <==> e.from == a && e.to in R && Overlaps(a, e.to)
  {
    if |R| > 0 {
      RowMember(a, R[..|R| - 1], e);
      assert R == R[..|R| - 1] + [R[|R| - 1]];
    }
  }

  lemma {:induction false} EdgesMember(L: seq<Slice>, R: seq<Slice>, e: Edge)
    ensures e in Edges(L, R) <==> e.from in L && e.to in R && Overlaps(e.from, e.to)
  {
    if |L| > 0 {
      EdgesMember(L[..|L| - 1], R, e);
      RowMember(L[|L| - 1], R, e);
      assert L == L[..|L| - 1] + [L[|L| - 1]];
    }
  }

  lemma {:induction false} OutsMember(E: seq<Edge>, a: Slice, b: Slice)
    ensures b in Outs(E, a) <==> Edge(a, b) in E
  {
    if |E| > 0 {
      OutsMember(E[..|E| - 1], a, b);
      assert E == E[..|E| - 1] + [E[|E| - 1]];
    }
  }

  lemma {:induction false} InsMember(E: seq<Edge>, a: Slice, b: Slice)
    ensures a in Ins(E, b) <==> Edge(a, b) in E
  {
    if |E| > 0 {
      InsMember(E[..|E| - 1], a, b);
      assert E == E[..|E| - 1] + [E[|E| - 1]];
    }
  }

  /** b is a neighbour of a iff the two overlap, iff a is a neighbour of b. */
  lemma NeighborsSymmetric(L: seq<Slice>, R: seq<Slice>, a: Slice, b: Slice)
    ensures b in Outs(Edges(L, R), a) <==> a in L && b in R && a.first < b.second && b.first < a.second
    ensures a in Ins(Edges(L, R), b) <==> a in L && b in R && a.first < b.second && b.first < a.second
  {
    OutsMember(Edges(L, R), a, b);
    InsMember(Edges(L, R), a, b);
    EdgesMember(L, R, Edge(a, b));
  }

  lemma {:induction false} OutsAppend(E1: seq<Edge>, E2: seq<Edge>, a: Slice)
    ensures Outs(E1 + E2, a) == Outs(E1, a) + Outs(E2, a)
  {
    if |E2| > 0 {
      OutsAppend(E1, E2[..|E2| - 1], a);
      assert (E1 + E2)[..|E1 + E2| - 1] == E1 + E2[..|E2| - 1];
    } else {
      assert E1 + E2 == E1;
    }
  }

  lemma {:induction false} InsAppend(E1: seq<Edge>, E2: seq<Edge>, b: Slice)
    ensures Ins(E1 + E2, b) == Ins(E1, b) + Ins(E2, b)
  {
    if |E2| > 0 {
      InsAppend(E1, E2[..|E2| - 1], b);
      assert (E1 + E2)[..|E1 + E2| - 1] == E1 + E2[..|E2| - 1];
    } else {
      assert E1 + E2 == E1;
    }
  }

  lemma {:induction false} OutsRow(a': Slice, R: seq<Slice>, a: Slice)
    ensures Outs(Row(a', R), a) == if a' == a then Overlapping(R, a) else []
  {
    if |R| > 0 {
      var init, last := R[..|R| - 1], R[|R| - 1];
      OutsRow(a', init, a);
      var tail := if Overlaps(a', last) then [Edge(a', last)] else [];
      OutsAppend(Row(a', init), tail, a);
      if Overlaps(a', last) {
        assert Outs(tail, a) == Outs([], a) + (if a' == a then [last] else []);
      } else {
        assert Outs(tail, a) == [];
      }
    }
  }

  lemma NoEdgeNoOuts(E: seq<Edge>, a: Slice)
    requires forall e :: e in E ==> e.from != a
    ensures Outs(E, a) == []
  {
    if |Outs(E, a)| > 0 {
      OutsMember(E, a, Outs(E, a)[0]);
    }
  }

  lemma NoEdgeNoIns(E: seq<Edge>, b: Slice)
    requires forall e :: e in E ==> e.to != b
    ensures Ins(E, b) == []
  {
    if |Ins(E, b)| > 0 {
      InsMember(E, Ins(E, b)[0], b);
    }
  }

  /** The last slice of a strictly ascending L is no source of the edges
      from the slices before it. */
  lemma EdgesMissLast(L: seq<Slice>, R: seq<Slice>)
    requires StrictlyAscending(L) && |L| > 0
    ensures Outs(Edges(L[..|L| - 1], R), L[|L| - 1]) == []
  {
    var init, a := L[..|L| - 1], L[|L| - 1];
    forall e | e in Edges(init, R) ensures e.from != a {
      EdgesMember(init, R, e);
      var t :| 0 <= t < |init| && init[t] == e.from;
      assert L[t] == e.from && Less(L[t], L[|L| - 1]);
      LessTotal(e.from, a);
    }
    NoEdgeNoOuts(Edges(init, R), a);
  }

  /** With strictly ascending (so repetition-free) left slices, a's neighbour list is the slices of
      R it overlaps, in the order of R. */
  lemma {:induction false} OutsOfEdges(L: seq<Slice>, R: seq<Slice>, a: Slice)
    requires StrictlyAscending(L) && a in L
    ensures Outs(Edges(L, R), a) == Overlapping(R, a)
  {
    var init, last := L[..|L| - 1], L[|L| - 1];
    assert L == init + [last];
    OutsAppend(Edges(init, R), Row(last, R), a);
    OutsRow(last, R, a);
    if a == last {
      EdgesMissLast(L, R);
    } else {
      assert a in init;
      OutsOfEdges(init, R, a);
    }
  }

  /** The last slice of a strictly ascending R is no target of the edges
      from a into the slices before it. */
  lemma RowMissesLast(a: Slice, R: seq<Slice>)
    requires StrictlyAscending(R) && |R| > 0
    ensures Ins(Row(a, R[..|R| - 1]), R[|R| - 1]) == []
  {
    var init, b := R[..|R| - 1], R[|R| - 1];
    forall e | e in Row(a, init) ensures e.to != b {
      RowMember(a, init, e);
      var t :| 0 <= t < |init| && init[t] == e.to;
      assert R[t] == e.to && Less(R[t], R[|R| - 1]);
      LessTotal(e.to, b);
    }
    NoEdgeNoIns(Row(a, init), b);
  }

  lemma {:induction false} InsRow(a: Slice, R: seq<Slice>, b: Slice)
    requires StrictlyAscending(R) && b in R
    ensures Ins(Row(a, R), b) == if Overlaps(a, b) then [a] else []
  {
    var init, last := R[..|R| - 1], R[|R| - 1];
    assert R == init + [last];
    var tail := if Overlaps(a, last) then [Edge(a, last)] else [];
    InsAppend(Row(a, init), tail, b);
    if Overlaps(a, last) {
      assert Ins(tail, b) == Ins([], b) + (if last == b then [a] else []);
    } else {
      assert Ins(tail, b) == [];
    }
    if b == last {
      RowMissesLast(a, R);
    } else {
      assert b in init;
      InsRow(a, init, b);
    }
  }

  /** With strictly ascending (so repetition-free) right slices, b's neighbour list is the slices of
      L it overlaps, in the order of L. */
  lemma {:induction false} InsOfEdges(L: seq<Slice>, R: seq<Slice>, b: Slice)
    requires StrictlyAscending(R) && b in R
    ensures Ins(Edges(L, R), b) == Overlapping(L, b)
  {
    if |L| > 0 {
      var init, last := L[..|L| - 1], L[|L| - 1];
      InsAppend(Edges(init, R), Row(last, R), b);
      InsRow(last, R, b);
      InsOfEdges(init, R, b);
      OverlapsSymmetric(last, b);
    }
  }

  /** The emplace loop of the constructor: one empty entry per distinct
      slice, keys in ascending order. */
  method EmptyEntries(slices: seq<Slice>) returns (m: map<Slice, seq<Slice>>, keys: seq<Slice>)
    ensures StrictlyAscending(keys)
    ensures forall a :: a in keys <==> a in m
    ensures forall a :: a in m <==> a in slices
    ensures forall a :: a in m ==> m[a] == []
  {
    m, keys := map[], [];
    for i := 0 to |slices|
      invariant StrictlyAscending(keys)
      invariant forall a :: a in keys <==> a in m
      invariant forall a :: a in m <==> a in slices[..i]
      invariant forall a :: a in m ==> m[a] == []
    {
      var a := slices[i];
      assert slices[..i + 1] == slices[..i] + [a];
      if a !in m {
        InsertAscending(keys, a);
        m := m[a := []];
        keys := Insert(keys, a);
      }
    }
    assert slices[..|slices|] == slices;
  }

  lemma OutsSnoc(E: seq<Edge>, e: Edge, a: Slice)
    ensures Outs(E + [e], a) == Outs(E, a) + (if e.from == a then [e.to] else [])
  {
    assert (E + [e])[..|E|] == E;
  }

  lemma InsSnoc(E: seq<Edge>, e: Edge, b: Slice)
    ensures Ins(E + [e], b) == Ins(E, b) + (if e.to == b then [e.from] else [])
  {
    assert (E + [e])[..|E|] == E;
  }

  /** Both adjacency maps are the projections of the edge sequence E. */
  predicate Linked(lm: map<Slice, seq<Slice>>, rm: map<Slice, seq<Slice>>, E: seq<Edge>)
  {
    (forall a :: a in lm ==> lm[a] == Outs(E, a)) && (forall b :: b in rm ==> rm[b] == Ins(E, b))
  }

  /** The edges from a into R[..j + 1] are those into R[..j], then (a, R[j])
      when the two overlap. */
  lemma RowSnoc(a: Slice, R: seq<Slice>, j: nat)
    requires j < |R|
    ensures Row(a, R[..j + 1]) == Row(a, R[..j]) + (if Overlaps(a, R[j]) then [Edge(a, R[j])] else [])
  {
    assert R[..j + 1][..j] == R[..j];
  }

  /** Appending one edge (a, b) to both adjacency maps keeps them equal to
      the projections of the extended edge sequence. */
  lemma LinkStep(E: seq<Edge>, a: Slice, b: Slice, lm: map<Slice, seq<Slice>>, rm: map<Slice, seq<Slice>>)
    requires a in lm && b in rm && Linked(lm, rm, E)
    ensures Linked(lm[a := lm[a] + [b]], rm[b := rm[b] + [a]], E + [Edge(a, b)])
  {
    forall a' | a' in lm ensures Outs(E + [Edge(a, b)], a') == Outs(E, a') + (if a' == a then [b] else []) {
      OutsSnoc(E, Edge(a, b), a');
    }
    forall b' | b' in rm ensures Ins(E + [Edge(a, b)], b') == Ins(E, b') + (if b' == b then [a] else []) {
      InsSnoc(E, Edge(a, b), b');
    }
  }

  /** One iteration of the inner loop keeps both maps the projections of
      the edges met so far. */
  lemma LinkRowStep(a: Slice, R: seq<Slice>, j: nat, done: seq<Edge>,
                    lm: map<Slice, seq<Slice>>, rm: map<Slice, seq<Slice>>)
    requires j < |R| && a in lm && R[j] in rm && Linked(lm, rm, done + Row(a, R[..j]))
    ensures Overlaps(a, R[j]) ==>
      Linked(lm[a := lm[a] + [R[j]]], rm[R[j] := rm[R[j]] + [a]], done + Row(a, R[..j + 1]))
    ensures !Overlaps(a, R[j]) ==> Linked(lm, rm, done + Row(a, R[..j + 1]))
  {
    var E := done + Row(a, R[..j]);
    RowSnoc(a, R, j);
    if Overlaps(a, R[j]) {
      assert done + Row(a, R[..j + 1]) == E + [Edge(a, R[j])];
      LinkStep(E, a, R[j], lm, rm);
    } else {
      assert done + Row(a, R[..j + 1]) == E;
    }
  }

  /** The body of the inner loop of the constructor: if a and R[j] overlap,
      R[j] is appended to a's list and a to R[j]'s list. */
  method LinkPair(a: Slice, R: seq<Slice>, j: nat, ghost done: seq<Edge>,
                  lm0: map<Slice, seq<Slice>>, rm0: map<Slice, seq<Slice>>)
    returns (lm: map<Slice, seq<Slice>>, rm: map<Slice, seq<Slice>>)
    requires j < |R| && a in lm0 && R[j] in rm0 && Linked(lm0, rm0, done + Row(a, R[..j]))
    ensures lm.Keys == lm0.Keys && rm.Keys == rm0.Keys
    ensures Linked(lm, rm, done + Row(a, R[..j + 1]))
  {
    var b := R[j];
    LinkRowStep(a, R, j, done, lm0, rm0);
    lm, rm := lm0, rm0;
    if Overlaps(a, b) {
      lm := lm[a := lm[a] + [b]];
      rm := rm[b := rm[b] + [a]];
    }
  }

  /** One pass of the inner loop of the constructor, for left slice a: every
      right slice b overlapping a appends b to a's list and a to b's list. */
  method LinkRow(a: Slice, R: seq<Slice>, ghost done: seq<Edge>,
                 lm0: map<Slice, seq<Slice>>, rm0: map<Slice, seq<Slice>>)
    returns (lm: map<Slice, seq<Slice>>, rm: map<Slice, seq<Slice>>)
    requires a in lm0 && forall b :: b in R ==> b in rm0
    requires Linked(lm0, rm0, done)
    ensures lm.Keys == lm0.Keys && rm.Keys == rm0.Keys
    ensures Linked(lm, rm, done + Row(a, R))
  {
    lm, rm := lm0, rm0;
    assert R[..0] == [] && done + Row(a, []) == done;
    for j := 0 to |R|
      invariant lm.Keys == lm0.Keys && rm.Keys == rm0.Keys
      invariant Linked(lm, rm, done + Row(a, R[..j]))
    {
      lm, rm := LinkPair(a, R, j, done, lm, rm);
    }
    assert R[..|R|] == R;
  }

  /** The nested loops of the constructor: every overlapping pair (a, b),
      met in loop order, appends b to a's list and a to b's list. */
  method LinkOverlaps(L: seq<Slice>, R: seq<Slice>, lm0: map<Slice, seq<Slice>>, rm0: map<Slice, seq<Slice>>)
    returns (lm: map<Slice, seq<Slice>>, rm: map<Slice, seq<Slice>>)
    requires forall a :: a in lm0 <==> a in L
    requires forall b :: b in rm0 <==> b in R
    requires forall a :: a in lm0 ==> lm0[a] == []
    requires forall b :: b in rm0 ==> rm0[b] == []
    ensures forall a :: a in lm <==> a in L
    ensures forall b :: b in rm <==> b in R
    ensures forall a :: a in lm ==> lm[a] == Outs(Edges(L, R), a)
    ensures forall b :: b in rm ==> rm[b] == Ins(Edges(L, R), b)
  {
    lm, rm := lm0, rm0;
    for i := 0 to |L|
      invariant lm.Keys == lm0.Keys && rm.Keys == rm0.Keys
      invariant Linked(lm, rm, Edges(L[..i], R))
    {
      assert L[..i + 1][..i] == L[..i];
      assert Edges(L[..i + 1], R) == Edges(L[..i], R) + Row(L[i], R);
      lm, rm := LinkRow(L[i], R, Edges(L[..i], R), lm, rm);
    }
    assert L[..|L|] == L;
  }

  /** The two ordered maps of Connections: for every slice, its neighbours in
      the other column. `leftKeys` and `rightKeys` are the ascending key
      orders in which the maps are iterated. */
  class Connections {
    var left: map<Slice, seq<Slice>>
    var right: map<Slice, seq<Slice>>
    var leftKeys: seq<Slice>
    var rightKeys: seq<Slice>

    ghost predicate Valid()
      reads this
    {
      StrictlyAscending(leftKeys) && (forall a :: a in leftKeys <==> a in left) &&
      StrictlyAscending(rightKeys) && (forall b :: b in rightKeys <==> b in right)
    }

    /** Every slice gets an (initially empty) entry, then every overlapping
        pair is appended to both lists, outer loop over the left slices. */
    constructor (leftSlices: seq<Slice>, rightSlices: seq<Slice>)
      ensures Valid()
      ensures forall a :: a in left <==> a in leftSlices
      ensures forall b :: b in right <==> b in rightSlices
      ensures forall a :: a in left ==> left[a] == Outs(Edges(leftSlices, rightSlices), a)
      ensures forall b :: b in right ==> right[b] == Ins(Edges(leftSlices, rightSlices), b)
    {
      var lm, lk := EmptyEntries(leftSlices);
      var rm, rk := EmptyEntries(rightSlices);
      lm, rm := LinkOverlaps(leftSlices, rightSlices, lm, rm);
      left, right, leftKeys, rightKeys := lm, rm, lk, rk;
    }

    /** find_events: END/SPLIT events of the left slices in key order, then
        START/MERGE events of the right slices in key order. */
    method FindEvents() returns (events: seq<Event>)
      requires Valid()
      ensures events == LeftEvents(leftKeys, left) + RightEvents(rightKeys, right)
      ensures forall e :: e in events ==> Shaped(e)
    {
      var leftPart := LeftPass(leftKeys, left);
      var rightPart := RightPass(rightKeys, right);
      events := leftPart + rightPart;
      ClassifiedShapes(leftKeys, left, rightKeys, right);
    }
  }

  /** The first loop of find_events: an END for a left slice without
      neighbours, a SPLIT for one with several. */
  method LeftPass(keys: seq<Slice>, m: map<Slice, seq<Slice>>) returns (events: seq<Event>)
    requires forall a :: a in keys ==> a in m
    ensures events == LeftEvents(keys, m)
  {
    events := [];
    for i := 0 to |keys|
      invariant events == LeftEvents(keys[..i], m)
    {
      var a := keys[i];
      var neighbors := m[a];
      assert keys[..i + 1][..i] == keys[..i];
      assert LeftEvents(keys[..i + 1], m) == LeftEvents(keys[..i], m) + LeftEvent(a, neighbors);
      if |neighbors| == 0 {
        events := events + [Event(End, [a], [])];
      } else if |neighbors| > 1 {
        events := events + [Event(Split, [a], neighbors)];
      }
    }
    assert keys[..|keys|] == keys;
  }

  /** The second loop of find_events: a START for a right slice without
      neighbours, a MERGE for one with several. */
  method RightPass(keys: seq<Slice>, m: map<Slice, seq<Slice>>) returns (events: seq<Event>)
    requires forall b :: b in keys ==> b in m
    ensures events == RightEvents(keys, m)
  {
    events := [];
    for i := 0 to |keys|
      invariant events == RightEvents(keys[..i], m)
    {
      var b := keys[i];
      var neighbors := m[b];
      assert keys[..i + 1][..i] == keys[..i];
      assert RightEvents(keys[..i + 1], m) == RightEvents(keys[..i], m) + RightEvent(b, neighbors);
      if |neighbors| == 0 {
        events := events + [Event(Start, [], [b])];
      } else if |neighbors| > 1 {
        events := events + [Event(Merge, neighbors, [b])];
      }
    }
    assert keys[..|keys|] == keys;
  }

  /** For strictly ascending columns (as slice extraction yields them), the
      maps' key order is the input order and the maps are OutMap and InMap,
      so the connection graph's events are BoundaryEvents. */
  lemma ConnectionEvents(L: seq<Slice>, R: seq<Slice>,
                         lk: seq<Slice>, lm: map<Slice, seq<Slice>>,
                         rk: seq<Slice>, rm: map<Slice, seq<Slice>>)
    requires StrictlyAscending(L) && StrictlyAscending(R)
    requires StrictlyAscending(lk) && (forall a :: a in lk <==> a in lm) && (forall a :: a in lm <==> a in L)
    requires StrictlyAscending(rk) && (forall b :: b in rk <==> b in rm) && (forall b :: b in rm <==> b in R)
    requires forall a :: a in lm ==> lm[a] == Outs(Edges(L, R), a)
    requires forall b :: b in rm ==> rm[b] == Ins(Edges(L, R), b)
    ensures lk == L && rk == R && lm == OutMap(L, R) && rm == InMap(L, R)
    ensures LeftEvents(lk, lm) + RightEvents(rk, rm) == BoundaryEvents(L, R)
  {
    AscendingUnique(lk, L);
    AscendingUnique(rk, R);
    forall a | a in lm ensures lm[a] == OutMap(L, R)[a] {
      OutsOfEdges(L, R, a);
    }
    forall b | b in rm ensures rm[b] == InMap(L, R)[b] {
      InsOfEdges(L, R, b);
    }
  }
}
