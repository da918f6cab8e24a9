/** color_event: an event's slices are painted, in the colour of its type,
    into the colour columns on both sides of its boundary. */
module Painting {
  import opened BcdTypes

  newtype Byte = x: int | 0 <= x < 256

  datatype Color = Color(r: Byte, g: Byte, b: Byte)

  const Black := Color(0x00, 0x00, 0x00)
  const White := Color(0xff, 0xff, 0xff)

  /** The colour of each event type. */
  function EventColor(kind: EventType): (c: Color)
    ensures c != Black && c != White
  {
    match kind
    case Start => Color(0x00, 0x99, 0xff)
    case End => Color(0x99, 0x00, 0xff)
    case Merge => Color(0x00, 0xff, 0x99)
    case Split => Color(0xff, 0x00, 0x99)
  }

  /** Each event type is told apart by its colour, and no event colour is
      the black background or the white of a matching pixel. */
  lemma EventColorsDistinct(k1: EventType, k2: EventType)
    ensures EventColor(k1) == EventColor(k2) <==> k1 == k2
    ensures EventColor(k1) != Black && EventColor(k1) != White
  {
  }

  /** std::fill over `[s.first, s.second)`. */
  function Fill(column: seq<Color>, s: Slice, c: Color): (r: seq<Color>)
    requires s.first <= s.second <= |column|
    ensures |r| == |column|
    ensures forall p :: 0 <= p < |column| ==> r[p] == if InSlice(s, p) then c else column[p]
  {
    column[..s.first] + seq(s.second - s.first, _ => c) + column[s.second..]
  }

  predicate Fits(ss: seq<Slice>, height: nat)
  {
    forall t :: 0 <= t < |ss| ==> ss[t].first <= ss[t].second <= height
  }

  /** The slices of ss filled one after another. */
  function PaintAll(column: seq<Color>, ss: seq<Slice>, c: Color): (r: seq<Color>)
    requires Fits(ss, |column|)
    ensures |r| == |column|
  {
    if |ss| == 0 then column
    else Fill(PaintAll(column, ss[..|ss| - 1], c), ss[|ss| - 1], c)
  }

  /** A cell gets c exactly when some slice covers it; every other cell
      keeps its colour. */
  lemma {:induction false} PaintAllCell(column: seq<Color>, ss: seq<Slice>, c: Color, p: nat)
    requires Fits(ss, |column|) && p < |column|
    ensures PaintAll(column, ss, c)[p] ==
      if exists t :: 0 <= t < |ss| && InSlice(ss[t], p) then c else column[p]
  {
    if |ss| > 0 {
      var init := ss[..|ss| - 1];
      PaintAllCell(column, init, c, p);
      if exists t :: 0 <= t < |init| && InSlice(init[t], p) {
        var t :| 0 <= t < |init| && InSlice(init[t], p);
        assert ss[t] == init[t];
      }
      if exists t :: 0 <= t < |ss| && InSlice(ss[t], p) {
        var t :| 0 <= t < |ss| && InSlice(ss[t], p);
        if t < |init| { assert init[t] == ss[t]; }
      }
    }
  }

  /** color_event: column x gets the event's left slices, column x + 1 its
      right slices, in the event's colour; no other column changes. */
  method ColorEvent(event: Event, x: nat, columns: array<seq<Color>>)
    requires x + 1 < columns.Length
    requires Fits(event.left, |columns[x]|) && Fits(event.right, |columns[x + 1]|)
    modifies columns
    ensures columns[x] == PaintAll(old(columns[x]), event.left, EventColor(event.kind))
    ensures columns[x + 1] == PaintAll(old(columns[x + 1]), event.right, EventColor(event.kind))
    ensures forall y :: 0 <= y < columns.Length && y != x && y != x + 1 ==> columns[y] == old(columns[y])
  {
    var c := EventColor(event.kind);
    ghost var leftColumn := columns[x];
    for t := 0 to |event.left|
      invariant columns[x] == PaintAll(leftColumn, event.left[..t], c)
      invariant forall y :: 0 <= y < columns.Length && y != x ==> columns[y] == old(columns[y])
    {
      var a := event.left[t];
      assert event.left[..t + 1][..t] == event.left[..t];
      columns[x] := Fill(columns[x], a, c);
    }
    assert event.left[..|event.left|] == event.left;
    ghost var rightColumn := columns[x + 1];
    for t := 0 to |event.right|
      invariant columns[x + 1] == PaintAll(rightColumn, event.right[..t], c)
      invariant columns[x] == PaintAll(leftColumn, event.left, c)
      invariant forall y :: 0 <= y < columns.Length && y != x && y != x + 1 ==> columns[y] == old(columns[y])
    {
      var b := event.right[t];
      assert event.right[..t + 1][..t] == event.right[..t];
      columns[x + 1] := Fill(columns[x + 1], b, c);
    }
    assert event.right[..|event.right|] == event.right;
  }
}
