/** Shared vocabulary of the sweep-line decomposition: slices, events and
    the orderings and shape invariants the later stages rely on. */
module BcdTypes {

  datatype Option<T> = None | Some(value: T)

  /** A half-open run `[first, second)` of pixels along one column. */
  datatype Slice = Slice(first: nat, second: nat)

  datatype EventType = Start | End | Merge | Split

  /** A topological event at one column boundary: `left` holds slices of
      column x, `right` slices of column x + 1. */
  datatype Event = Event(kind: EventType, left: seq<Slice>, right: seq<Slice>)

  /** The open-interval overlap test used both by the connection graph and
      by the overhang filter. */
  predicate Overlaps(a: Slice, b: Slice)
    ensures (exists p :: InSlice(a, p) && InSlice(b, p)) ==> Overlaps(a, b)
  {
    a.first < b.second && b.first < a.second
  }

  lemma OverlapsSymmetric(a: Slice, b: Slice)
    ensures Overlaps(a, b) <==> Overlaps(b, a)
  {
  }

  predicate InSlice(s: Slice, p: int)
  {
    s.first <= p < s.second
  }

  /** For non-empty slices the test is exact: they overlap iff they share a
      pixel. */
  lemma OverlapsSharedPixel(a: Slice, b: Slice)
    requires a.first < a.second && b.first < b.second
    ensures Overlaps(a, b) <==> exists p :: InSlice(a, p) && InSlice(b, p)
  {
    if Overlaps(a, b) {
      var p := if a.first < b.first then b.first else a.first;
      assert InSlice(a, p) && InSlice(b, p);
    }
  }

  /** Lexicographic order on `(first, second)`, the key order of the
      ordered map the connection graph is stored in. */
  predicate Less(a: Slice, b: Slice)
    ensures Less(a, b) ==> a != b
  {
    a.first < b.first || (a.first == b.first && a.second < b.second)
  }

  lemma LessTotal(a: Slice, b: Slice)
    ensures a == b || Less(a, b) || Less(b, a)
    ensures !(Less(a, b) && Less(b, a))
    ensures !Less(a, a)
  {
  }

  predicate StrictlyAscending(s: seq<Slice>)
  {
    forall i, j :: 0 <= i < j < |s| ==> Less(s[i], s[j])
  }

  /** An event with both lists empty has been cancelled by the filter. */
  predicate IsTomb(e: Event)
  {
    e.left == [] && e.right == []
  }

  function Tomb(e: Event): (r: Event)
    ensures IsTomb(r) && r.kind == e.kind
  {
    Event(e.kind, [], [])
  }

  /** The per-type shape every classified event has. */
  predicate Shaped(e: Event)
  {
    match e.kind
    case Start => e.left == [] && |e.right| == 1
    case End => |e.left| == 1 && e.right == []
    case Split => |e.left| == 1 && |e.right| >= 2
    case Merge => |e.left| >= 2 && |e.right| == 1
  }

  predicate ShapedOrTomb(e: Event)
  {
    Shaped(e) || IsTomb(e)
  }

  /** The slices of `ss` that overlap `s`, in the order of `ss`. */
  function Overlapping(ss: seq<Slice>, s: Slice): (r: seq<Slice>)
    ensures |r| <= |ss|
  {
    if |ss| == 0 then []
    else Overlapping(ss[..|ss| - 1], s) + (if Overlaps(s, ss[|ss| - 1]) then [ss[|ss| - 1]] else [])
  }

  /** A slice is among the overlapping ones iff it is in ss and overlaps s. */
  lemma {:induction false} OverlappingMember(ss: seq<Slice>, s: Slice, t: Slice)
    ensures t in Overlapping(ss, s) <==> t in ss && Overlaps(s, t)
  {
    if |ss| > 0 {
      OverlappingMember(ss[..|ss| - 1], s, t);
      assert ss == ss[..|ss| - 1] + [ss[|ss| - 1]];
    }
  }

  /** `ss` without its entry at index j, the other entries in order. */
  function RemoveAt(ss: seq<Slice>, j: nat): (r: seq<Slice>)
    requires j < |ss|
    ensures |r| == |ss| - 1
    ensures forall t :: 0 <= t < j ==> r[t] == ss[t]
    ensures forall t :: j <= t < |r| ==> r[t] == ss[t + 1]
  {
    ss[..j] + ss[j + 1..]
  }
}
