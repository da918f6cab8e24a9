/** Slice extraction: one boolean column becomes the maximal runs of pixels
    equal to `target`, as half-open slices. */
module SliceExtraction {
  import opened BcdTypes

  /** Some slice of `ss` contains pixel p. */
  predicate Covered(ss: seq<Slice>, p: int)
  {
    exists t :: 0 <= t < |ss| && InSlice(ss[t], p)
  }

  /** Slices are ordered and any two are separated by at least one pixel. */
  predicate Separated(ss: seq<Slice>)
  {
    forall i, j :: 0 <= i < j < |ss| ==> ss[i].second < ss[j].first
  }

  /** Every slice is non-empty and lies within `[0, n)`. */
  predicate Bounded(ss: seq<Slice>, n: nat)
  {
    forall t :: 0 <= t < |ss| ==> ss[t].first < ss[t].second <= n
  }

  /** Reference definition: the runs of `target` in `column[..n]`, where a run
      that reaches n is closed at n. A pixel equal to `target` either extends
      the run ending just before it or opens a new one. */
  function SlicesUpTo(column: seq<bool>, target: bool, n: nat): (r: seq<Slice>)
    requires n <= |column|
    ensures n > 0 && column[n - 1] == target ==> |r| > 0 && r[|r| - 1].second == n
  {
    if n == 0 then []
    else if column[n - 1] != target then SlicesUpTo(column, target, n - 1)
    else if n >= 2 && column[n - 2] == target then
      var s := SlicesUpTo(column, target, n - 1);
      s[|s| - 1 := Slice(s[|s| - 1].first, n)]
    else SlicesUpTo(column, target, n - 1) + [Slice(n - 1, n)]
  }

  function SlicesOf(column: seq<bool>, target: bool): (r: seq<Slice>)
    ensures Bounded(r, |column|) && Separated(r)
  {
    SlicesUpToWellFormed(column, target, |column|);
    SlicesUpTo(column, target, |column|)
  }

  lemma {:induction false} SlicesUpToWellFormed(column: seq<bool>, target: bool, n: nat)
    requires n <= |column|
    ensures Bounded(SlicesUpTo(column, target, n), n)
    ensures Separated(SlicesUpTo(column, target, n))
    ensures n > 0 && column[n - 1] != target ==> Bounded(SlicesUpTo(column, target, n), n - 1)
  {
    if n > 0 {
      SlicesUpToWellFormed(column, target, n - 1);
      var s := SlicesUpTo(column, target, n - 1);
      var r := SlicesUpTo(column, target, n);
      if column[n - 1] != target {
      } else if n >= 2 && column[n - 2] == target {
        assert r == s[|s| - 1 := Slice(s[|s| - 1].first, n)];
      } else {
        assert r == s + [Slice(n - 1, n)];
      }
    }
  }

  lemma CoveredSnoc(ss: seq<Slice>, x: Slice, p: int)
    ensures Covered(ss + [x], p) <==> Covered(ss, p) || InSlice(x, p)
  {
    if Covered(ss, p) {
      var t :| 0 <= t < |ss| && InSlice(ss[t], p);
      assert (ss + [x])[t] == ss[t];
    }
    if Covered(ss + [x], p) {
      var t :| 0 <= t < |ss| + 1 && InSlice((ss + [x])[t], p);
      if t < |ss| { assert (ss + [x])[t] == ss[t]; }
    }
    if InSlice(x, p) {
      assert (ss + [x])[|ss|] == x;
    }
  }

  /** Exactness: a pixel of the prefix lies in some slice iff it matches. */
  lemma {:induction false} SlicesUpToExact(column: seq<bool>, target: bool, n: nat, p: int)
    requires n <= |column| && 0 <= p < n
    ensures Covered(SlicesUpTo(column, target, n), p) <==> column[p] == target
  {
    var r := SlicesUpTo(column, target, n);
    SlicesUpToWellFormed(column, target, n);
    if p == n - 1 {
      if column[n - 1] == target {
        assert InSlice(r[|r| - 1], p);
      } else {
        forall t | 0 <= t < |r| ensures !InSlice(r[t], p) { }
      }
    } else {
      SlicesUpToExact(column, target, n - 1, p);
      var s := SlicesUpTo(column, target, n - 1);
      if column[n - 1] != target {
      } else if n >= 2 && column[n - 2] == target {
        var init := s[..|s| - 1];
        assert s == init + [s[|s| - 1]];
        assert r == init + [Slice(s[|s| - 1].first, n)];
        CoveredSnoc(init, s[|s| - 1], p);
        CoveredSnoc(init, Slice(s[|s| - 1].first, n), p);
      } else {
        CoveredSnoc(s, Slice(n - 1, n), p);
      }
    }
  }

  /** Maximality, first half: every slice starts at the top of the column
      or just after a non-matching pixel. */
  lemma {:induction false} SlicesUpToStart(column: seq<bool>, target: bool, n: nat, t: nat)
    requires n <= |column|
    requires t < |SlicesUpTo(column, target, n)|
    ensures var s := SlicesUpTo(column, target, n)[t];
      s.first == 0 || (s.first <= n && column[s.first - 1] != target)
  {
    var r := SlicesUpTo(column, target, n);
    var s := SlicesUpTo(column, target, n - 1);
    if column[n - 1] != target {
      assert r == s;
      SlicesUpToStart(column, target, n - 1, t);
    } else if n >= 2 && column[n - 2] == target {
      assert r == s[|s| - 1 := Slice(s[|s| - 1].first, n)];
      assert r[t].first == s[t].first;
      SlicesUpToStart(column, target, n - 1, t);
    } else {
      assert r == s + [Slice(n - 1, n)];
      if t < |s| {
        assert r[t] == s[t];
        SlicesUpToStart(column, target, n - 1, t);
      }
    }
  }

  /** Maximality, second half: every slice ends at n or at a non-matching
      pixel. */
  lemma {:induction false} SlicesUpToEnd(column: seq<bool>, target: bool, n: nat, t: nat)
    requires n <= |column|
    requires t < |SlicesUpTo(column, target, n)|
    ensures var s := SlicesUpTo(column, target, n)[t];
      s.second == n || (s.second < n && column[s.second] != target)
  {
    var r := SlicesUpTo(column, target, n);
    var s := SlicesUpTo(column, target, n - 1);
    if column[n - 1] != target {
      assert r == s;
      SlicesUpToWellFormed(column, target, n);
      SlicesUpToEnd(column, target, n - 1, t);
    } else if n >= 2 && column[n - 2] == target {
      assert r == s[|s| - 1 := Slice(s[|s| - 1].first, n)];
      if t < |s| - 1 {
        assert r[t] == s[t];
        assert s[t].second < n - 1 by {
          SlicesUpToWellFormed(column, target, n - 1);
          assert s[t].second < s[|s| - 1].first < s[|s| - 1].second;
        }
        SlicesUpToEnd(column, target, n - 1, t);
      }
    } else {
      assert r == s + [Slice(n - 1, n)];
      if t < |s| {
        assert r[t] == s[t];
        assert s[t].second < n - 1 by {
          SlicesUpToWellFormed(column, target, n - 1);
        }
        SlicesUpToEnd(column, target, n - 1, t);
      }
    }
  }

  /** The facts of the lemmas above, for a whole column. */
  lemma ColumnSlices(column: seq<bool>, target: bool)
    ensures var r := SlicesOf(column, target);
      Bounded(r, |column|) && Separated(r) && StrictlyAscending(r) &&
      (forall p :: 0 <= p < |column| ==> (Covered(r, p) <==> column[p] == target)) &&
      (forall t :: 0 <= t < |r| ==> r[t].first == 0 || column[r[t].first - 1] != target) &&
      (forall t :: 0 <= t < |r| ==> r[t].second == |column| || column[r[t].second] != target)
  {
    var r := SlicesOf(column, target);
    SlicesUpToWellFormed(column, target, |column|);
    forall p | 0 <= p < |column| ensures Covered(r, p) <==> column[p] == target {
      SlicesUpToExact(column, target, |column|, p);
    }
    forall t | 0 <= t < |r|
      ensures r[t].first == 0 || column[r[t].first - 1] != target
      ensures r[t].second == |column| || column[r[t].second] != target
    {
      SlicesUpToStart(column, target, |column|, t);
      SlicesUpToEnd(column, target, |column|, t);
    }
  }

  /** No matching pixel (in particular an empty column): no slice. */
  lemma NoMatchNoSlices(column: seq<bool>, target: bool)
    requires forall p :: 0 <= p < |column| ==> column[p] != target
    ensures SlicesOf(column, target) == []
  {
    var r := SlicesOf(column, target);
    ColumnSlices(column, target);
    if |r| > 0 {
      assert InSlice(r[0], r[0].first);
      assert Covered(r, r[0].first);
    }
  }

  /** No matching pixel below n: no slice so far. */
  lemma {:induction false} NoMatchPrefix(column: seq<bool>, target: bool, n: nat)
    requires n <= |column| && forall p :: 0 <= p < n ==> column[p] != target
    ensures SlicesUpTo(column, target, n) == []
  {
    if n > 0 { NoMatchPrefix(column, target, n - 1); }
  }

  /** A column of height n that matches everywhere is the one slice `[0, n)`. */
  lemma {:induction false} AllMatchOneSlice(column: seq<bool>, target: bool, n: nat)
    requires 0 < n <= |column|
    requires forall p :: 0 <= p < n ==> column[p] == target
    ensures SlicesUpTo(column, target, n) == [Slice(0, n)]
  {
    if n > 1 {
      AllMatchOneSlice(column, target, n - 1);
    }
  }

  /** find_slices: scans the column with a `!target` sentinel on both ends,
      opening a slice with a placeholder end on a rising edge and patching the
      end of the last slice on a falling edge. */
  method FindSlices(column: seq<bool>, target: bool) returns (slices: seq<Slice>)
    ensures slices == SlicesOf(column, target)
    ensures Bounded(slices, |column|) && Separated(slices) && StrictlyAscending(slices)
    ensures forall p :: 0 <= p < |column| ==> (Covered(slices, p) <==> column[p] == target)
  {
    slices := [];
    var previous := !target;
    var i := 0;
    while i <= |column|
      invariant 0 <= i <= |column| + 1
      invariant i <= |column| ==> previous == (if i == 0 then !target else column[i - 1])
      invariant i <= |column| && previous != target ==> slices == SlicesUpTo(column, target, i)
      invariant i <= |column| && previous == target ==>
        var s := SlicesUpTo(column, target, i);
        |s| > 0 && slices == s[|s| - 1 := Slice(s[|s| - 1].first, 0)]
      invariant i == |column| + 1 ==> slices == SlicesOf(column, target)
    {
      var current := if i == |column| then !target else column[i];
      if previous != target && current == target {
        slices := slices + [Slice(i, 0)];
      } else if previous == target && current != target {
        slices := slices[|slices| - 1 := Slice(slices[|slices| - 1].first, i)];
      }
      previous := current;
      i := i + 1;
    }
    ColumnSlices(column, target);
  }
}
