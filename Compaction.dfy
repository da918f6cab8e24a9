/** erase_invalid: the events the overhang filter cancelled are removed,
    boundary by boundary, the others keeping their order. */
module Compaction {
  import opened BcdTypes

  /** The events of one boundary that are not tombs, in order. */
  function Compact(column: seq<Event>): (r: seq<Event>)
    ensures |r| <= |column|
  {
    if |column| == 0 then []
    else
      var last := column[|column| - 1];
      Compact(column[..|column| - 1]) + (if IsTomb(last) then [] else [last])
  }

  /** Exactly the tombs are removed. */
  lemma {:induction false} CompactMember(column: seq<Event>, e: Event)
    ensures e in Compact(column) <==> e in column && !IsTomb(e)
  {
    if |column| > 0 {
      var init := column[..|column| - 1];
      CompactMember(init, e);
      assert column == init + [column[|column| - 1]];
    }
  }

  /** Removal works element by element, so the survivors keep their
      relative order. */
  lemma {:induction false} CompactAppend(a: seq<Event>, b: seq<Event>)
    ensures Compact(a + b) == Compact(a) + Compact(b)
  {
    if |b| == 0 {
      assert a + b == a;
    } else {
      CompactAppend(a, b[..|b| - 1]);
      assert (a + b)[..|a + b| - 1] == a + b[..|b| - 1];
    }
  }

  /** A boundary without tombs is left as it is. */
  lemma {:induction false} CompactNoTombs(column: seq<Event>)
    requires forall i :: 0 <= i < |column| ==> !IsTomb(column[i])
    ensures Compact(column) == column
  {
    if |column| > 0 {
      CompactNoTombs(column[..|column| - 1]);
    }
  }

  lemma CompactLeavesNoTombs(column: seq<Event>)
    ensures forall i :: 0 <= i < |Compact(column)| ==> !IsTomb(Compact(column)[i])
  {
    forall i | 0 <= i < |Compact(column)| ensures !IsTomb(Compact(column)[i]) {
      CompactMember(column, Compact(column)[i]);
    }
  }

  lemma CompactIdempotent(column: seq<Event>)
    ensures Compact(Compact(column)) == Compact(column)
  {
    CompactLeavesNoTombs(column);
    CompactNoTombs(Compact(column));
  }

  /** After the filter every event is shaped or a tomb; after compaction
      every event is shaped. */
  lemma CompactShaped(column: seq<Event>)
    requires forall i :: 0 <= i < |column| ==> ShapedOrTomb(column[i])
    ensures forall e :: e in Compact(column) ==> Shaped(e)
  {
    forall e | e in Compact(column) ensures Shaped(e) {
      CompactMember(column, e);
    }
  }

  /** The remove_if/erase idiom on one boundary's list. */
  method RemoveTombs(column: seq<Event>) returns (kept: seq<Event>)
    ensures kept == Compact(column)
  {
    kept := [];
    for i := 0 to |column|
      invariant kept == Compact(column[..i])
    {
      assert column[..i + 1][..i] == column[..i];
      if !(column[i].left == [] && column[i].right == []) {
        kept := kept + [column[i]];
      }
    }
    assert column[..|column|] == column;
  }

  /** erase_invalid over every boundary; the number of boundaries is kept. */
  method EraseInvalid(grid: array<seq<Event>>)
    modifies grid
    ensures forall y :: 0 <= y < grid.Length ==> grid[y] == Compact(old(grid[y]))
  {
    for y := 0 to grid.Length
      invariant forall t :: 0 <= t < y ==> grid[t] == Compact(old(grid[t]))
      invariant forall t :: y <= t < grid.Length ==> grid[t] == old(grid[t])
    {
      var kept := RemoveTombs(grid[y]);
      grid[y] := kept;
    }
  }
}
