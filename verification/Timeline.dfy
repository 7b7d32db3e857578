/** The horizontal timeline of one day's changes (src/components/history/HorizontalTimeline.tsx):
sorted and original positions, arrow keys, marker positions and clicks. */
module Timeline {
  import opened StableSort

  datatype ChangePoint = ChangePoint(timestamp: int, peerId: string, frontier: seq<(string, int)>)

  predicate Earlier(a: ChangePoint, b: ChangePoint) { a.timestamp < b.timestamp }

  predicate Same(a: ChangePoint, b: ChangePoint) {
    a.timestamp == b.timestamp && a.peerId == b.peerId
  }

  function SortedPoints(points: seq<ChangePoint>): (r: seq<ChangePoint>)
    ensures |r| == |points|
  {
    Sort(points, Earlier)
  }

  /** findIndex by timestamp and peer: the first match, or -1. */
  function FindSame(points: seq<ChangePoint>, p: ChangePoint): (i: int)
    ensures -1 <= i < |points|
    ensures i >= 0 ==> Same(points[i], p) && forall j :: 0 <= j < i ==> !Same(points[j], p)
    ensures i == -1 ==> forall j :: 0 <= j < |points| ==> !Same(points[j], p)
  {
    if points == [] then -1
    else if Same(points[0], p) then 0
    else
      var i := FindSame(points[1..], p);
      if i == -1 then -1 else i + 1
  }

  function OriginalIndex(points: seq<ChangePoint>, sortedIndex: nat): int
    requires sortedIndex < |points|
  {
    FindSame(points, SortedPoints(points)[sortedIndex])
  }

  function SortedIndex(points: seq<ChangePoint>, index: int): int {
    if index < 0 || index >= |points| then -1 else FindSame(SortedPoints(points), points[index])
  }

  lemma SortedMembers(points: seq<ChangePoint>)
    ensures forall p :: p in SortedPoints(points) <==> p in points
  {
    forall p ensures p in SortedPoints(points) <==> p in points {
      assert p in SortedPoints(points) <==> p in multiset(SortedPoints(points));
      assert p in points <==> p in multiset(points);
    }
  }

  /** Neither map ever misses. */
  lemma IndicesInRange(points: seq<ChangePoint>, k: nat)
    requires k < |points|
    ensures 0 <= OriginalIndex(points, k) < |points|
    ensures 0 <= SortedIndex(points, k) < |points|
  {
    SortedMembers(points);
    var p := SortedPoints(points)[k];
    assert p in points;
    assert points[k] in SortedPoints(points);
  }

  predicate Inverse(points: seq<ChangePoint>) {
    && (forall k :: 0 <= k < |points| ==> SortedIndex(points, OriginalIndex(points, k)) == k)
    && (forall i :: 0 <= i < |points| ==>
          0 <= SortedIndex(points, i) < |points| && OriginalIndex(points, SortedIndex(points, i)) == i)
  }

  /** Sorted-to-original and original-to-sorted are inverse bijections if and only if no two
      changes share both timestamp and peer. Timestamps have a resolution of one second. */
  lemma InverseExactly(points: seq<ChangePoint>)
    ensures Inverse(points) <==> Apart(points, Same)
  {
    var sorted := SortedPoints(points);
    SortedMembers(points);
    if Apart(points, Same) {
      ApartPart(sorted, points, Same);
      forall k | 0 <= k < |points| ensures SortedIndex(points, OriginalIndex(points, k)) == k {
        IndicesInRange(points, k);
        var s := SortedIndex(points, OriginalIndex(points, k));
        IndicesInRange(points, OriginalIndex(points, k));
        assert Same(sorted[s], sorted[k]);
      }
      forall i | 0 <= i < |points|
        ensures 0 <= SortedIndex(points, i) < |points| && OriginalIndex(points, SortedIndex(points, i)) == i
      {
        IndicesInRange(points, i);
        IndicesInRange(points, SortedIndex(points, i));
        assert Same(points[OriginalIndex(points, SortedIndex(points, i))], points[i]);
      }
    } else {
      var i, j :| 0 <= i < j < |points| && Same(points[i], points[j]);
      IndicesInRange(points, j);
      assert OriginalIndex(points, SortedIndex(points, j)) <= i;
    }
  }

  // ---------------------------------------------------------------- keys

  datatype ArrowKey = ArrowLeft | ArrowRight | Home | End

  /** The index selected after a key press. */
  function Press(points: seq<ChangePoint>, selected: int, key: ArrowKey): int
    requires points != []
  {
    var s := SortedIndex(points, selected);
    match key
    case ArrowLeft => if s > 0 then OriginalIndex(points, s - 1) else selected
    case ArrowRight => if s < |points| - 1 then OriginalIndex(points, s + 1) else selected
    case Home => OriginalIndex(points, 0)
    case End => OriginalIndex(points, |points| - 1)
  }

  function PressRight(points: seq<ChangePoint>, selected: int, times: nat): int
    requires points != []
  {
    if times == 0 then selected else Press(points, PressRight(points, selected, times - 1), ArrowRight)
  }

  /** With distinct changes, left undoes right and right undoes left, wherever they move. */
  lemma LeftUndoesRight(points: seq<ChangePoint>, selected: nat)
    requires selected < |points| && Apart(points, Same)
    ensures var s := SortedIndex(points, selected);
            && (s < |points| - 1 ==> Press(points, Press(points, selected, ArrowRight), ArrowLeft) == selected)
            && (s > 0 ==> Press(points, Press(points, selected, ArrowLeft), ArrowRight) == selected)
  {
    hide SortedIndex, OriginalIndex, Apart;
    InverseExactly(points);
    var s := SortedIndex(points, selected);
    assert OriginalIndex(points, s) == selected;
    if s < |points| - 1 { assert SortedIndex(points, OriginalIndex(points, s + 1)) == s + 1; }
    if s > 0 { assert SortedIndex(points, OriginalIndex(points, s - 1)) == s - 1; }
  }

  /** From Home, pressing right walks through every change in order of time. */
  lemma {:induction false} RightWalksInTimeOrder(points: seq<ChangePoint>, k: nat)
    requires k < |points| && Apart(points, Same)
    ensures var selected := PressRight(points, Press(points, 0, Home), k);
            && selected == OriginalIndex(points, k)
            && 0 <= selected < |points|
            && points[selected] == SortedPoints(points)[k]
            && (k > 0 ==> SortedPoints(points)[k - 1].timestamp <= points[selected].timestamp)
  {
    hide SortedPoints, SortedIndex, OriginalIndex, Apart, Inverse;
    OriginalPoint(points, k);
    if k > 0 {
      RightWalksInTimeOrder(points, k - 1);
      RightOfPosition(points, k - 1);
      InTimeOrder(points, k);
    }
  }

  lemma RightOfPosition(points: seq<ChangePoint>, k: nat)
    requires k + 1 < |points| && Apart(points, Same)
    ensures Press(points, OriginalIndex(points, k), ArrowRight) == OriginalIndex(points, k + 1)
  {
    hide SortedIndex, OriginalIndex, Apart;
    InverseExactly(points);
    assert SortedIndex(points, OriginalIndex(points, k)) == k;
  }

  lemma InTimeOrder(points: seq<ChangePoint>, k: nat)
    requires 0 < k < |points|
    ensures SortedPoints(points)[k - 1].timestamp <= SortedPoints(points)[k].timestamp
  {
    SortSorted(points, Earlier);
    assert !Earlier(SortedPoints(points)[k], SortedPoints(points)[k - 1]);
  }

  lemma OriginalPoint(points: seq<ChangePoint>, k: nat)
    requires k < |points| && Apart(points, Same)
    ensures 0 <= OriginalIndex(points, k) < |points|
    ensures points[OriginalIndex(points, k)] == SortedPoints(points)[k]
  {
    IndicesInRange(points, k);
    SortedMembers(points);
    var p := SortedPoints(points)[k];
    assert p in points;
    var i :| 0 <= i < |points| && points[i] == p;
    var o := OriginalIndex(points, k);
    assert Same(points[o], points[i]) && (o < i || i < o || o == i);
  }

  /** Right as often as there are further changes leads from Home to End. */
  lemma {:induction false} HomeToEnd(points: seq<ChangePoint>)
    requires points != [] && Apart(points, Same)
    ensures PressRight(points, Press(points, 0, Home), |points| - 1) == Press(points, 0, End)
  {
    RightWalksInTimeOrder(points, |points| - 1);
  }

  // ---------------------------------------------------------------- markers

  /** Position of a time on the track, in percent. */
  function Position(t: int, earliest: int, latest: int): real {
    if earliest == latest then 50.0
    else ((t - earliest) as real / (latest - earliest) as real) * 100.0
  }

  /** The first key and the last do not move further. */
  lemma EndsHold(points: seq<ChangePoint>)
    requires points != [] && Apart(points, Same)
    ensures var first, last := Press(points, 0, Home), Press(points, 0, End);
            && Press(points, first, ArrowLeft) == first && Press(points, last, ArrowRight) == last
            && Press(points, first, Home) == first && Press(points, last, End) == last
            && Press(points, -1, ArrowRight) == first && Press(points, -1, ArrowLeft) == -1
  {
    hide OriginalIndex, Apart;
    InverseExactly(points);
    var n := |points| - 1;
    assert SortedIndex(points, OriginalIndex(points, 0)) == 0 && SortedIndex(points, OriginalIndex(points, n)) == n;
  }

  lemma FractionMonotone(a: real, b: real, span: real)
    requires span > 0.0 && 0.0 <= a <= b <= span
    ensures 0.0 <= a / span * 100.0 <= b / span * 100.0 <= 100.0
  {
    assert b / span - a / span == (b - a) / span;
    assert b / span <= 1.0;
  }

  function Positions(points: seq<ChangePoint>): (r: seq<real>)
    ensures |r| == |points|
  {
    var sorted := SortedPoints(points);
    seq(|sorted|, i requires 0 <= i < |sorted| =>
      Position(sorted[i].timestamp, sorted[0].timestamp, sorted[|sorted| - 1].timestamp))
  }

  /** Markers lie within the track, later changes never left of earlier ones. */
  lemma PositionsMonotone(points: seq<ChangePoint>, i: nat, j: nat)
    requires i <= j < |points|
    ensures 0.0 <= Positions(points)[i] <= Positions(points)[j] <= 100.0
  {
    var sorted := SortedPoints(points);
    SortSorted(points, Earlier);
    var first, last := sorted[0].timestamp, sorted[|sorted| - 1].timestamp;
    var a, b := sorted[i].timestamp, sorted[j].timestamp;
    assert i > 0 ==> !Earlier(sorted[i], sorted[0]);
    assert i < j ==> !Earlier(sorted[j], sorted[i]);
    assert j < |sorted| - 1 ==> !Earlier(sorted[|sorted| - 1], sorted[j]);
    assert first <= a <= b <= last;
    if first < last {
      FractionMonotone((a - first) as real, (b - first) as real, (last - first) as real);
    }
  }

  /** Markers are spread by time: the earliest at 0 and the latest at 100, any two as far apart as
      their times; all in the middle if there is only one time. */
  lemma PositionsSpread(points: seq<ChangePoint>, i: nat, j: nat)
    requires i < |points| && j < |points|
    ensures var sorted, at := SortedPoints(points), Positions(points);
            var span := sorted[|sorted| - 1].timestamp - sorted[0].timestamp;
            && (span == 0 ==> at[i] == 50.0)
            && (span != 0 ==>
                  && at[0] == 0.0 && at[|at| - 1] == 100.0
                  && (at[j] - at[i]) * span as real == (sorted[j].timestamp - sorted[i].timestamp) as real * 100.0)
  {
    var sorted := SortedPoints(points);
    var first, span := sorted[0].timestamp, sorted[|sorted| - 1].timestamp - sorted[0].timestamp;
    if span != 0 {
      Share(sorted[i].timestamp - first, span);
      Share(sorted[j].timestamp - first, span);
      Share(0, span);
      Share(span, span);
    }
  }

  lemma Share(part: int, whole: int)
    requires whole != 0
    ensures part as real / whole as real * 100.0 * whole as real == part as real * 100.0
    ensures part == 0 ==> part as real / whole as real == 0.0
    ensures part == whole ==> part as real / whole as real == 1.0
  {
    assert part as real / whole as real * whole as real == part as real;
  }

  function Distance(a: real, b: real): real { if a < b then b - a else a - b }

  /** Marker i is as near to the click as any, and nearer than all markers before it. */
  predicate IsNearest(points: seq<ChangePoint>, clickPercent: real, i: nat) {
    && i < |points|
    && (forall j :: 0 <= j < |points| ==>
          Distance(Positions(points)[i], clickPercent) <= Distance(Positions(points)[j], clickPercent))
    && (forall j :: 0 <= j < i ==>
          Distance(Positions(points)[i], clickPercent) < Distance(Positions(points)[j], clickPercent))
  }

  /** A click selects the change of a nearest marker, of the first one on a tie. */
  method HandleTrackClick(points: seq<ChangePoint>, clickPercent: real) returns (selected: int)
    requires points != []
    ensures exists i :: IsNearest(points, clickPercent, i) && selected == OriginalIndex(points, i)
  {
    var markers := Positions(points);
    var nearestIndex := 0;
    var nearestDistance := Distance(markers[0], clickPercent);
    var i := 1;
    while i < |markers|
      invariant 1 <= i <= |markers| && 0 <= nearestIndex < i
      invariant nearestDistance == Distance(markers[nearestIndex], clickPercent)
      invariant forall j :: 0 <= j < i ==> nearestDistance <= Distance(markers[j], clickPercent)
      invariant forall j :: 0 <= j < nearestIndex ==> nearestDistance < Distance(markers[j], clickPercent)
    {
      var distance := Distance(markers[i], clickPercent);
      if distance < nearestDistance {
        nearestDistance := distance;
        nearestIndex := i;
      }
      i := i + 1;
    }
    assert IsNearest(points, clickPercent, nearestIndex);
    selected := OriginalIndex(points, nearestIndex);
  }
}
