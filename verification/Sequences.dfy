/** The elements of a sequence that satisfy a predicate, in order, and facts about them. */
module Sequences {
  function Select<T>(xs: seq<T>, p: T -> bool): seq<T> {
    if xs == [] then [] else (if p(xs[0]) then [xs[0]] else []) + Select(xs[1..], p)
  }

  lemma SelectUnfold<T>(xs: seq<T>, p: T -> bool)
    ensures Select(xs, p) == if xs == [] then [] else (if p(xs[0]) then [xs[0]] else []) + Select(xs[1..], p)
  {
  }

  lemma SelectOne<T>(x: T, p: T -> bool)
    ensures Select([x], p) == if p(x) then [x] else []
  {
    assert [x][1..] == [];
  }

  lemma Assoc<T>(a: seq<T>, b: seq<T>, c: seq<T>)
    ensures a + (b + c) == (a + b) + c
  {
  }

  lemma {:induction false} SelectAppend<T>(xs: seq<T>, ys: seq<T>, p: T -> bool)
    ensures Select(xs + ys, p) == Select(xs, p) + Select(ys, p)
  {
    hide Select;
    SelectUnfold(xs, p);
    if xs == [] {
      assert xs + ys == ys;
    } else {
      SelectUnfold(xs + ys, p);
      assert (xs + ys)[1..] == xs[1..] + ys;
      SelectAppend(xs[1..], ys, p);
      Assoc(if p(xs[0]) then [xs[0]] else [], Select(xs[1..], p), Select(ys, p));
    }
  }

  lemma {:induction false} SelectPrefix<T>(xs: seq<T>, n: nat, p: T -> bool)
    requires n <= |xs|
    ensures Select(xs[..n], p) <= Select(xs, p)
  {
    if n > 0 {
      assert xs[..n][1..] == xs[1..][..n - 1];
      SelectPrefix(xs[1..], n - 1, p);
    }
  }

  lemma {:induction false} SelectMembers<T>(xs: seq<T>, p: T -> bool)
    ensures forall x :: x in Select(xs, p) <==> x in xs && p(x)
    ensures multiset(Select(xs, p)) <= multiset(xs)
  {
    if xs != [] {
      SelectMembers(xs[1..], p);
      assert xs == [xs[0]] + xs[1..];
    }
  }

  lemma {:induction false} SelectAll<T>(xs: seq<T>, p: T -> bool)
    requires forall x :: x in xs ==> p(x)
    ensures Select(xs, p) == xs
  {
    if xs != [] {
      SelectAll(xs[1..], p);
    }
  }

  lemma {:induction false} SelectLength<T>(xs: seq<T>, p: T -> bool)
    ensures |Select(xs, p)| <= |xs|
    ensures |Select(xs, p)| == |xs| <==> forall x :: x in xs ==> p(x)
  {
    if xs != [] { SelectLength(xs[1..], p); }
  }

  lemma {:induction false} SelectSame<T>(xs: seq<T>, p: T -> bool, q: T -> bool)
    requires forall x :: x in xs ==> p(x) == q(x)
    ensures Select(xs, p) == Select(xs, q)
  {
    if xs != [] { SelectSame(xs[1..], p, q); }
  }

  lemma WithoutOne<T>(xs: seq<T>, ys: seq<T>, j: nat)
    requires xs != [] && multiset(xs) == multiset(ys) && j < |ys| && ys[j] == xs[0]
    ensures multiset(ys[..j] + ys[j + 1..]) == multiset(xs[1..])
  {
    assert xs == [xs[0]] + xs[1..];
    assert ys == ys[..j] + [ys[j]] + ys[j + 1..];
    assert multiset(xs[1..]) == multiset(xs) - multiset{xs[0]};
    assert multiset(ys[..j] + ys[j + 1..]) == multiset(ys) - multiset{xs[0]};
  }

  /** How many are selected does not depend on the order. */
  lemma {:induction false} SelectPermuted<T>(xs: seq<T>, ys: seq<T>, p: T -> bool)
    requires multiset(xs) == multiset(ys)
    ensures |Select(xs, p)| == |Select(ys, p)|
  {
    if xs == [] {
      assert |ys| == |multiset(ys)| == 0;
    } else {
      hide Select;
      assert xs[0] in multiset(ys);
      var j :| 0 <= j < |ys| && ys[j] == xs[0];
      var rest := ys[..j] + ys[j + 1..];
      WithoutOne(xs, ys, j);
      assert ys == ys[..j] + [ys[j]] + ys[j + 1..];
      SelectPermuted(xs[1..], rest, p);
      SelectUnfold(xs, p);
      SelectAppend(ys[..j], ys[j + 1..], p);
      SelectAppend(ys[..j] + [ys[j]], ys[j + 1..], p);
      SelectAppend(ys[..j], [ys[j]], p);
      SelectOne(ys[j], p);
    }
  }

  /** If each element is selected by exactly one of three, they share the elements out. */
  lemma {:induction false} SelectThree<T>(xs: seq<T>, p: T -> bool, q: T -> bool, r: T -> bool)
    requires forall x :: x in xs ==> (p(x) || q(x) || r(x)) && !(p(x) && q(x)) && !(p(x) && r(x)) && !(q(x) && r(x))
    ensures |Select(xs, p)| + |Select(xs, q)| + |Select(xs, r)| == |xs|
  {
    if xs != [] {
      SelectThree(xs[1..], p, q, r);
      assert xs[0] in xs;
    }
  }

  lemma {:induction false} SelectNone<T>(xs: seq<T>, p: T -> bool)
    requires forall x :: x in xs ==> !p(x)
    ensures Select(xs, p) == []
  {
    if xs != [] { SelectNone(xs[1..], p); }
  }
}
