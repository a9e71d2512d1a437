/** `Array.prototype.sort` as the scripts use it: a stable sort by a comparator.
    A comparator is given as the "may come before" relation `le`, which must be a
    total preorder. */
module Sorting {

  ghost predicate TotalPreorder<T(!new)>(le: (T, T) -> bool) {
    && (forall a, b :: le(a, b) || le(b, a))
    && (forall a, b, c :: le(a, b) && le(b, c) ==> le(a, c))
  }

  predicate SortedBy<T>(xs: seq<T>, le: (T, T) -> bool) {
    forall i, j :: 0 <= i < j < |xs| ==> le(xs[i], xs[j])
  }

  /** Puts x in front of the first element it may come before. */
  function Insert<T(!new)>(x: T, xs: seq<T>, le: (T, T) -> bool): (r: seq<T>)
    requires TotalPreorder(le)
    requires SortedBy(xs, le)
    ensures multiset(r) == multiset(xs) + multiset{x}
    ensures SortedBy(r, le)
  {
    if xs == [] then [x]
    else if le(x, xs[0]) then
      ConsSorted(x, xs, le);
      [x] + xs
    else
      var rest := Insert(x, xs[1..], le);
      assert xs == [xs[0]] + xs[1..];
      BelowAll(xs[0], x, xs[1..], rest, le);
      ConsSorted(xs[0], rest, le);
      [xs[0]] + rest
  }

  lemma ConsSorted<T>(h: T, xs: seq<T>, le: (T, T) -> bool)
    requires SortedBy(xs, le)
    requires forall k :: 0 <= k < |xs| ==> le(h, xs[k])
    ensures SortedBy([h] + xs, le)
  {
    var ys := [h] + xs;
    forall i, j | 0 <= i < j < |ys| ensures le(ys[i], ys[j]) {
      assert ys[j] == xs[j - 1];
      if i > 0 {
        assert ys[i] == xs[i - 1];
      }
    }
  }

  /** The head of a sorted list may come before x and everything after it,
      so before every element of a list made of those. */
  lemma BelowAll<T(!new)>(h: T, x: T, xs: seq<T>, rest: seq<T>, le: (T, T) -> bool)
    requires TotalPreorder(le)
    requires SortedBy([h] + xs, le) && !le(x, h)
    requires multiset(rest) == multiset(xs) + multiset{x}
    ensures forall k :: 0 <= k < |rest| ==> le(h, rest[k])
  {
    assert le(h, x);
    forall k | 0 <= k < |rest| ensures le(h, rest[k]) {
      assert rest[k] in multiset(rest);
      if rest[k] != x {
        assert rest[k] in multiset(xs);
        var j :| 0 <= j < |xs| && xs[j] == rest[k];
        assert ([h] + xs)[0] == h && ([h] + xs)[j + 1] == xs[j];
      }
    }
  }

  /** Insertion sort: each element goes in front of the later elements it ties
      with, so ties keep their input order. */
  function SortBy<T(!new)>(xs: seq<T>, le: (T, T) -> bool): (r: seq<T>)
    requires TotalPreorder(le)
    ensures multiset(r) == multiset(xs)
    ensures |r| == |xs|
    ensures SortedBy(r, le)
  {
    if xs == [] then []
    else
      assert xs == [xs[0]] + xs[1..];
      Insert(xs[0], SortBy(xs[1..], le), le)
  }

  /** a and b may each come before the other: the comparator returns 0. */
  predicate Tie<T>(a: T, b: T, le: (T, T) -> bool) {
    le(a, b) && le(b, a)
  }

  /** The elements of xs that tie with p, in the order of xs. */
  function TiesWith<T>(xs: seq<T>, p: T, le: (T, T) -> bool): (r: seq<T>)
    ensures |r| <= |xs|
    ensures forall k :: 0 <= k < |r| ==> Tie(r[k], p, le)
  {
    if xs == [] then []
    else (if Tie(xs[0], p, le) then [xs[0]] else []) + TiesWith(xs[1..], p, le)
  }

  lemma TiesWithCons<T>(x: T, xs: seq<T>, p: T, le: (T, T) -> bool)
    ensures TiesWith([x] + xs, p, le) == (if Tie(x, p, le) then [x] else []) + TiesWith(xs, p, le)
  {
    assert ([x] + xs)[0] == x && ([x] + xs)[1..] == xs;
  }

  lemma NotBothTie<T(!new)>(x: T, h: T, p: T, le: (T, T) -> bool)
    requires TotalPreorder(le)
    requires !le(x, h)
    ensures !(Tie(x, p, le) && Tie(h, p, le))
  {
  }

  lemma SortedTail<T>(xs: seq<T>, le: (T, T) -> bool)
    requires xs != [] && SortedBy(xs, le)
    ensures SortedBy(xs[1..], le)
  {
    var t := xs[1..];
    forall i, j | 0 <= i < j < |t| ensures le(t[i], t[j]) {
      assert t[i] == xs[i + 1] && t[j] == xs[j + 1];
    }
  }

  /** The step of `InsertStable` past a head h, when x and h do not both tie
      with p. */
  lemma InsertStableStep<T>(x: T, h: T, t: seq<T>, ins: seq<T>, p: T, le: (T, T) -> bool)
    requires !(Tie(x, p, le) && Tie(h, p, le))
    requires TiesWith(ins, p, le) == TiesWith([x] + t, p, le)
    ensures TiesWith([h] + ins, p, le) == TiesWith([x] + ([h] + t), p, le)
  {
    TiesWithCons(h, ins, p, le);
    TiesWithCons(x, t, p, le);
    TiesWithCons(x, [h] + t, p, le);
    TiesWithCons(h, t, p, le);
  }

  /** Inserting x keeps the elements that tie with p in the order they have
      with x in front: x is placed only after elements strictly before it. */
  lemma {:induction false} InsertStable<T(!new)>(x: T, xs: seq<T>, p: T, le: (T, T) -> bool)
    requires TotalPreorder(le)
    requires SortedBy(xs, le)
    ensures TiesWith(Insert(x, xs, le), p, le) == TiesWith([x] + xs, p, le)
  {
    if xs != [] && !le(x, xs[0]) {
      var h, t := xs[0], xs[1..];
      assert xs == [h] + t;
      SortedTail(xs, le);
      InsertStable(x, t, p, le);
      NotBothTie(x, h, p, le);
      InsertStableStep(x, h, t, Insert(x, t, le), p, le);
    }
  }

  /** The sort is stable: the elements that tie with any p keep their input
      order. */
  lemma {:induction false} SortByStable<T(!new)>(xs: seq<T>, p: T, le: (T, T) -> bool)
    requires TotalPreorder(le)
    ensures TiesWith(SortBy(xs, le), p, le) == TiesWith(xs, p, le)
  {
    if xs != [] {
      var h, t := xs[0], xs[1..];
      assert xs == [h] + t;
      SortByStable(t, p, le);
      InsertStable(h, SortBy(t, le), p, le);
      TiesWithCons(h, SortBy(t, le), p, le);
      TiesWithCons(h, t, p, le);
    }
  }
}
