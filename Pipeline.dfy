/** The decomposition steps of the program's entry point: pad the image
    with an empty column on each side, find the events of every boundary,
    filter overhangs and drop the cancelled events. */
module Pipeline {
  import opened BcdTypes
  import opened SliceExtraction
  import opened Classification
  import opened AllEvents
  import opened Overhangs
  import opened Compaction

  function Blank(height: nat): (r: seq<bool>)
    ensures |r| == height && forall p :: 0 <= p < height ==> !r[p]
  {
    seq(height, _ => false)
  }

  /** One all-background column of the first column's height on each side. */
  function Pad(image: seq<seq<bool>>): (r: seq<seq<bool>>)
    requires |image| > 0
    ensures |r| == |image| + 2
    ensures r[0] == Blank(|image[0]|) && r[|r| - 1] == Blank(|image[0]|)
    ensures forall i :: 0 <= i < |image| ==> r[i + 1] == image[i]
  {
    [Blank(|image[0]|)] + image + [Blank(|image[0]|)]
  }

  /** What the program decomposes an image into, boundary by boundary. */
  function Decomposition(image: seq<seq<bool>>, leeway: nat): (r: seq<seq<Event>>)
    requires |image| > 0
    ensures |r| == |image| + 1
  {
    var g := Pass(EventsSpec(Pad(image), true), leeway);
    seq(|g|, y requires 0 <= y < |g| => Compact(g[y]))
  }

  /** Behind the padding, boundary 0 holds one START per slice of the first
      image column, and the last boundary one END per slice of the last. */
  lemma PaddedBorders(image: seq<seq<bool>>)
    requires |image| > 0
    ensures EventsSpec(Pad(image), true)[0] == Starts(SlicesOf(image[0], true))
    ensures EventsSpec(Pad(image), true)[|image|] == Ends(SlicesOf(image[|image| - 1], true))
  {
    var p := Pad(image);
    EventsSpecAt(p, true, 0);
    EventsSpecAt(p, true, |image|);
    NoMatchNoSlices(p[0], true);
    NoMatchNoSlices(p[|p| - 1], true);
    EmptyLeftColumn(SlicesOf(image[0], true));
    EmptyRightColumn(SlicesOf(image[|image| - 1], true));
  }

  /** Classified events are never tombs. */
  lemma ShapedIsNotTomb(e: Event)
    requires Shaped(e)
    ensures !IsTomb(e)
  {
  }

  /** With leeway 0 the program reports exactly the classified events. */
  lemma ZeroLeewayDecomposition(image: seq<seq<bool>>)
    requires |image| > 0
    ensures Decomposition(image, 0) == EventsSpec(Pad(image), true)
  {
    var g := EventsSpec(Pad(image), true);
    PassZeroLeeway(g);
    forall y | 0 <= y < |g| ensures Compact(g[y]) == g[y] {
      EventsShaped(Pad(image), true, y);
      CompactNoTombs(g[y]);
    }
  }

  /** bcd.cc's decomposition steps on an image given as its columns. The
      first column's height is read with `at(0)`, so the image has one. */
  method Decompose(image: seq<seq<bool>>, leeway: nat) returns (events: seq<seq<Event>>)
    requires |image| > 0
    ensures events == Decomposition(image, leeway)
    ensures forall y, e :: 0 <= y < |events| && e in events[y] ==> Shaped(e)
  {
    var height := |image[0]|;
    var columns := [Blank(height)] + image + [Blank(height)];
    assert columns == Pad(image);
    var found := FindAllEvents(columns, true);
    var grid := new seq<Event>[|found|](i requires 0 <= i < |found| => found[i]);
    assert grid[..] == found;
    forall y, e | 0 <= y < grid.Length && 0 <= e < |grid[y]| ensures Armed(grid[y][e]) {
      assert grid[y] == found[y] && found[y][e] in found[y];
      assert Shaped(found[y][e]);
    }
    InvalidateOverhangs(grid, leeway);
    ghost var filtered := grid[..];
    assert AllShapedOrTomb(found) by {
      forall y, e | 0 <= y < |found| && 0 <= e < |found[y]| ensures ShapedOrTomb(found[y][e]) {
        assert found[y][e] in found[y];
      }
    }
    PassKeepsShape(found, leeway);
    EraseInvalid(grid);
    events := grid[..];
    forall y | 0 <= y < |events| ensures forall e :: e in events[y] ==> Shaped(e) {
      CompactShaped(filtered[y]);
    }
  }

  /** The slices of the three image columns of OverrunImage. */
  lemma OverrunColumns(c1: seq<bool>, c2: seq<bool>, c3: seq<bool>)
    requires c1 == [true, true, true, true, true, false, false]
    requires c2 == [false, false, false, false, true, true, true]
    requires c3 == [false, false, false, false, false, true, false]
    ensures SlicesOf(c1, true) == [Slice(0, 5)]
    ensures SlicesOf(c2, true) == [Slice(4, 7)]
    ensures SlicesOf(c3, true) == [Slice(5, 6)]
  {
    AllMatchOneSlice(c1, true, 5);
    assert SlicesUpTo(c1, true, 7) == SlicesUpTo(c1, true, 5);
    NoMatchPrefix(c2, true, 4);
    assert SlicesUpTo(c2, true, 5) == [Slice(4, 5)];
    assert SlicesUpTo(c2, true, 6) == [Slice(4, 6)];
    NoMatchPrefix(c3, true, 5);
    assert SlicesUpTo(c3, true, 6) == [Slice(5, 6)];
  }

  predicate IsOverrunImage(image: seq<seq<bool>>)
  {
    image == [[true, true, true, true, true, false, false],
              [false, false, false, false, true, true, true],
              [false, false, false, false, false, true, false]]
  }

  /** The slices of the padded columns of the overrun image. */
  lemma OverrunSlices(image: seq<seq<bool>>)
    requires IsOverrunImage(image)
    ensures var p := Pad(image);
      SlicesOf(p[0], true) == [] && SlicesOf(p[1], true) == [Slice(0, 5)] &&
      SlicesOf(p[2], true) == [Slice(4, 7)] && SlicesOf(p[3], true) == [Slice(5, 6)] &&
      SlicesOf(p[4], true) == []
  {
    OverrunColumns(image[0], image[1], image[2]);
    NoMatchNoSlices(Pad(image)[0], true);
    NoMatchNoSlices(Pad(image)[4], true);
  }

  /** The events of boundary y of the padded overrun image, given the
      slices of its two sides. */
  lemma OverrunBoundaryFrom(image: seq<seq<bool>>, y: nat, L: seq<Slice>, R: seq<Slice>)
    requires 0 < |image| && y < |image| + 1
    requires SlicesOf(Pad(image)[y], true) == L && SlicesOf(Pad(image)[y + 1], true) == R
    ensures EventsSpec(Pad(image), true)[y] == BoundaryEvents(L, R)
  {
    EventsSpecAt(Pad(image), true, y);
  }

  /** The events of each boundary of the padded overrun image. */
  lemma OverrunBoundaries(image: seq<seq<bool>>, y: nat)
    requires IsOverrunImage(image) && y < 4
    ensures EventsSpec(Pad(image), true)[y] ==
      if y == 0 then [Event(Start, [], [Slice(0, 5)])]
      else if y == 3 then [Event(End, [Slice(5, 6)], [])]
      else []
  {
    OverrunSlices(image);
    if y == 0 {
      OverrunBoundaryFrom(image, 0, [], [Slice(0, 5)]);
      EmptyLeftColumn([Slice(0, 5)]);
    } else if y == 1 {
      OverrunBoundaryFrom(image, 1, [Slice(0, 5)], [Slice(4, 7)]);
      OneToOneNoEvents(Slice(0, 5), Slice(4, 7));
    } else if y == 2 {
      OverrunBoundaryFrom(image, 2, [Slice(4, 7)], [Slice(5, 6)]);
      OneToOneNoEvents(Slice(4, 7), Slice(5, 6));
    } else {
      OverrunBoundaryFrom(image, 3, [Slice(5, 6)], []);
      EmptyRightColumn([Slice(5, 6)]);
    }
  }

  /** A three-column image whose padded event grid is the one of
      Overhangs.OverrunExample: the END's backward search there comes from
      a real decomposition. */
  lemma OverrunImage(image: seq<seq<bool>>)
    requires IsOverrunImage(image)
    ensures EventsSpec(Pad(image), true) ==
      [[Event(Start, [], [Slice(0, 5)])], [], [], [Event(End, [Slice(5, 6)], [])]]
  {
    var g := EventsSpec(Pad(image), true);
    var want := [[Event(Start, [], [Slice(0, 5)])], [], [], [Event(End, [Slice(5, 6)], [])]];
    forall y | 0 <= y < 4 ensures g[y] == want[y] {
      OverrunBoundaries(image, y);
    }
  }
}
