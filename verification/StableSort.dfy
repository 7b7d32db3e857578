/** A stable sort, as the library sorts of both source languages are: elements that neither
comes before the other keep their order. `before(a, b)` says a must come strictly first. */
module StableSort {
  import opened Sequences

  /** What a comparator must satisfy for sorting to mean anything. */
  ghost predicate WeakOrder<T(!new)>(before: (T, T) -> bool) {
    && (forall a, b :: before(a, b) ==> !before(b, a))
    && (forall a, b, c :: before(a, c) ==> before(a, b) || before(b, c))
  }

  ghost predicate Sorted<T>(xs: seq<T>, before: (T, T) -> bool) {
    forall i, j :: 0 <= i < j < |xs| ==> !before(xs[j], xs[i])
  }

  function Insert<T>(x: T, xs: seq<T>, before: (T, T) -> bool): (r: seq<T>)
    ensures multiset(r) == multiset(xs) + multiset{x}
  {
    if xs == [] || !before(xs[0], x) then
      assert multiset([x] + xs) == multiset{x} + multiset(xs);
      [x] + xs
    else
      assert xs == [xs[0]] + xs[1..];
      [xs[0]] + Insert(x, xs[1..], before)
  }

  /** Sorting moves elements about and does nothing else. */
  function Sort<T>(xs: seq<T>, before: (T, T) -> bool): (r: seq<T>)
    ensures multiset(r) == multiset(xs)
    ensures |r| == |xs|
  {
    if xs == [] then []
    else
      assert xs == [xs[0]] + xs[1..];
      var r := Insert(xs[0], Sort(xs[1..], before), before);
      assert |multiset(r)| == |r| && |multiset(xs)| == |xs|;
      r
  }

  lemma {:induction false} InsertSorted<T(!new)>(x: T, xs: seq<T>, before: (T, T) -> bool)
    requires WeakOrder(before) && Sorted(xs, before)
    ensures Sorted(Insert(x, xs, before), before)
  {
    if xs == [] || !before(xs[0], x) {
      assert forall j :: 0 < j < |xs| ==> !before(xs[j], xs[0]);
    } else {
      InsertSorted(x, xs[1..], before);
      var rest := Insert(x, xs[1..], before);
      forall j | 0 <= j < |rest| ensures !before(rest[j], xs[0]) {
        assert rest[j] in multiset(rest);
        assert rest[j] == x || rest[j] in xs[1..];
      }
    }
  }

  lemma {:induction false} SortSorted<T(!new)>(xs: seq<T>, before: (T, T) -> bool)
    requires WeakOrder(before)
    ensures Sorted(Sort(xs, before), before)
  {
    if xs != [] {
      SortSorted(xs[1..], before);
      InsertSorted(xs[0], Sort(xs[1..], before), before);
    }
  }

  lemma {:induction false} InsertStable<T(!new)>(x: T, xs: seq<T>, before: (T, T) -> bool, p: T -> bool)
    requires forall a, b :: p(a) && p(b) ==> !before(a, b)
    ensures Select(Insert(x, xs, before), p) == (if p(x) then [x] else []) + Select(xs, p)
  {
    hide Insert, Select;
    InsertUnfold(x, xs, before);
    if xs == [] || !before(xs[0], x) {
      SelectUnfold([x] + xs, p);
      assert ([x] + xs)[1..] == xs;
    } else {
      var first, rest := [xs[0]], Insert(x, xs[1..], before);
      InsertStable(x, xs[1..], before, p);
      SelectUnfold(xs, p);
      SelectUnfold(first + rest, p);
      assert (first + rest)[1..] == rest;
    }
  }

  /** Any group of elements that are all tied comes out in the order it went in. */
  lemma {:induction false} SortStable<T(!new)>(xs: seq<T>, before: (T, T) -> bool, p: T -> bool)
    requires forall a, b :: p(a) && p(b) ==> !before(a, b)
    ensures Select(Sort(xs, before), p) == Select(xs, p)
  {
    if xs != [] {
      SortStable(xs[1..], before, p);
      InsertStable(xs[0], Sort(xs[1..], before), before, p);
    }
  }

  /** Nothing of `all` that is left out of `kept` should come before anything kept. */
  ghost predicate Foremost<T(!new)>(kept: seq<T>, all: seq<T>, before: (T, T) -> bool) {
    && multiset(kept) <= multiset(all)
    && forall k, d :: k in kept && d in multiset(all) - multiset(kept) ==> !before(d, k)
  }

  /** The first n of a sorted sequence are foremost, and of a tied group a first part is kept. */
  lemma TopOfSort<T(!new)>(xs: seq<T>, before: (T, T) -> bool, n: nat)
    requires WeakOrder(before) && n <= |xs|
    ensures Foremost(Sort(xs, before)[..n], xs, before)
  {
    hide Sort, Sorted, Foremost, WeakOrder;
    var sorted := Sort(xs, before);
    SortSorted(xs, before);
    assert sorted == sorted[..n] + sorted[n..];
    SplitForemost(sorted[..n], sorted[n..], xs, before);
  }

  lemma SplitForemost<T(!new)>(kept: seq<T>, dropped: seq<T>, all: seq<T>, before: (T, T) -> bool)
    requires Sorted(kept + dropped, before) && multiset(kept + dropped) == multiset(all)
    ensures Foremost(kept, all, before)
  {
    assert multiset(all) - multiset(kept) == multiset(dropped);
    forall k, d | k in kept && d in multiset(all) - multiset(kept) ensures !before(d, k) {
      assert d in dropped;
      var i :| 0 <= i < |kept| && kept[i] == k;
      var j :| 0 <= j < |dropped| && dropped[j] == d;
      assert (kept + dropped)[i] == k && (kept + dropped)[|kept| + j] == d;
    }
  }

  lemma TopOfSortStable<T(!new)>(xs: seq<T>, before: (T, T) -> bool, n: nat, p: T -> bool)
    requires n <= |xs|
    requires forall a, b :: p(a) && p(b) ==> !before(a, b)
    ensures Select(Sort(xs, before)[..n], p) <= Select(xs, p)
  {
    SortStable(xs, before, p);
    SelectPrefix(Sort(xs, before), n, p);
  }

  lemma InsertUnfold<T>(x: T, xs: seq<T>, before: (T, T) -> bool)
    ensures Insert(x, xs, before)
            == if xs == [] || !before(xs[0], x) then [x] + xs else [xs[0]] + Insert(x, xs[1..], before)
  {
  }

  lemma SortMembers<T>(xs: seq<T>, before: (T, T) -> bool, x: T)
    ensures x in Sort(xs, before) <==> x in xs
  {
    assert x in Sort(xs, before) <==> x in multiset(Sort(xs, before));
    assert x in multiset(xs) <==> x in xs;
  }

  /** Does y come before x or is it tied with x? */
  function NotBehind<T>(x: T, before: (T, T) -> bool): T -> bool {
    y => !before(x, y)
  }

  /** Where x may stand: nothing in front of it should come after it, everything behind should. */
  ghost predicate Around<T>(front: seq<T>, x: T, back: seq<T>, before: (T, T) -> bool) {
    && (forall y :: y in front ==> !before(x, y))
    && (forall y :: y in back ==> before(x, y))
  }

  lemma InsertInFront<T(!new)>(z: T, x: T, back: seq<T>, before: (T, T) -> bool)
    returns (front': seq<T>, back': seq<T>)
    requires Around([], x, back, before)
    ensures Insert(z, [x] + back, before) == front' + [x] + back' && Around(front', x, back', before)
    ensures |front'| == if before(x, z) then 0 else 1
    ensures forall y :: y in front' || y in back' ==> y == z || y in back
  {
    hide Insert;
    InsertUnfold(z, [x] + back, before);
    assert ([x] + back)[1..] == back;
    if before(x, z) {
      front', back' := [], Insert(z, back, before);
      InsertMembers(z, back, before);
      assert [x] + back' == [] + [x] + back';
    } else {
      front', back' := [z], back;
      Assoc([z], [x], back);
    }
  }

  /** An insertion goes to the side it belongs to, and puts nothing across. */
  lemma {:induction false} InsertAround<T(!new)>(
    z: T, front: seq<T>, x: T, back: seq<T>, before: (T, T) -> bool)
    returns (front': seq<T>, back': seq<T>)
    requires WeakOrder(before) && Around(front, x, back, before)
    ensures Insert(z, front + [x] + back, before) == front' + [x] + back' && Around(front', x, back', before)
    ensures |front'| == |front| + if before(x, z) then 0 else 1
    ensures forall y :: y in front' || y in back' ==> y == z || y in front || y in back
    decreases |front|
  {
    hide Insert;
    if front == [] {
      assert front + [x] + back == [x] + back;
      front', back' := InsertInFront(z, x, back, before);
    } else {
      var all := front + [x] + back;
      assert front[0] in front;
      InsertUnfold(z, all, before);
      if before(front[0], z) {
        assert all[1..] == front[1..] + [x] + back;
        front', back' := InsertAround(z, front[1..], x, back, before);
        assert [front[0]] + (front' + [x] + back') == [front[0]] + front' + [x] + back';
        front' := [front[0]] + front';
      } else {
        front', back' := [z] + front, back;
        assert [z] + all == [z] + front + [x] + back;
      }
    }
  }

  lemma InsertMembers<T>(z: T, xs: seq<T>, before: (T, T) -> bool)
    ensures forall y :: y in Insert(z, xs, before) <==> y == z || y in xs
  {
    forall y ensures y in Insert(z, xs, before) <==> y == z || y in xs {
      assert y in Insert(z, xs, before) <==> y in multiset(Insert(z, xs, before));
      assert y in xs <==> y in multiset(xs);
    }
  }

  /** An element added at the end comes out behind exactly those that do not come after it. */
  lemma {:induction false} AddedPlace<T(!new)>(xs: seq<T>, x: T, before: (T, T) -> bool)
    returns (front: seq<T>, back: seq<T>)
    requires WeakOrder(before)
    ensures Sort(xs + [x], before) == front + [x] + back && Around(front, x, back, before)
    ensures |front| == |Select(xs, NotBehind(x, before))|
    ensures forall y :: y in front || y in back ==> y in xs
  {
    if xs == [] {
      front, back := [], [];
      assert [x][1..] == [] && xs + [x] == [x];
      assert [] + [x] + [] == [x];
    } else {
      hide Insert;
      front, back := AddedPlace(xs[1..], x, before);
      assert (xs + [x])[1..] == xs[1..] + [x];
      front, back := InsertAround(xs[0], front, x, back, before);
    }
  }

  /** So it is among the first n if and only if fewer than n of the others come before it or are
      tied with it. */
  lemma AddedAmongFirstExactly<T(!new)>(xs: seq<T>, x: T, before: (T, T) -> bool, n: nat)
    requires WeakOrder(before) && x !in xs && n <= |xs|
    ensures x in Sort(xs + [x], before)[..n] <==> |Select(xs, NotBehind(x, before))| < n
  {
    hide Sort, Select;
    var front, back := AddedPlace(xs, x, before);
    var sorted := Sort(xs + [x], before);
    assert sorted[|front|] == x;
    assert forall i :: 0 <= i < |front| ==> sorted[i] in front;
    assert forall i :: |front| < i < |sorted| ==> sorted[i] == back[i - |front| - 1] && sorted[i] in back;
  }

  // ---------------------------------------------------------------- distinct elements

  /** No two positions hold the same thing, in the sense of `same`. */
  predicate Apart<T>(xs: seq<T>, same: (T, T) -> bool) {
    forall i, j :: 0 <= i < j < |xs| ==> !same(xs[i], xs[j])
  }

  lemma {:induction false} CountsTwo<T>(xs: seq<T>, x: T) returns (i: nat, j: nat)
    requires multiset(xs)[x] >= 2
    ensures i < j < |xs| && xs[i] == x && xs[j] == x
  {
    assert xs == [xs[0]] + xs[1..];
    if xs[0] == x {
      assert x in multiset(xs[1..]);
      i := 0;
      j :| 1 <= j < |xs| && xs[j] == x;
    } else {
      i, j := CountsTwo(xs[1..], x);
      i, j := i + 1, j + 1;
    }
  }

  lemma TwoCount<T>(xs: seq<T>, i: nat, j: nat)
    requires i < j < |xs| && xs[i] == xs[j]
    ensures multiset(xs)[xs[i]] >= 2
  {
    assert xs == xs[..j] + xs[j..];
    assert xs[..j][i] == xs[i] && xs[j..][0] == xs[i];
    assert xs[i] in multiset(xs[..j]) && xs[i] in multiset(xs[j..]);
  }

  /** Distinctness passes to any part of a sequence, in any order. */
  lemma ApartPart<T(!new)>(part: seq<T>, whole: seq<T>, same: (T, T) -> bool)
    requires multiset(part) <= multiset(whole) && Apart(whole, same)
    requires (forall a :: same(a, a)) && (forall a, b :: same(a, b) ==> same(b, a))
    ensures Apart(part, same)
  {
    forall i, j | 0 <= i < j < |part| ensures !same(part[i], part[j]) {
      var a, b := part[i], part[j];
      if a == b {
        TwoCount(part, i, j);
        var p, q := CountsTwo(whole, a);
      } else {
        assert a in multiset(part) && b in multiset(part);
        var p :| 0 <= p < |whole| && whole[p] == a;
        var q :| 0 <= q < |whole| && whole[q] == b;
        assert p < q || q < p;
      }
    }
  }
}
