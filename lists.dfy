/** The list operations the game loop relies on: distinctness of a list of
    objects, Python's `list.remove`, and the removal of dropped elements from a
    live list while walking a snapshot of it. */
module Lists {

  /** No element occurs twice. */
  predicate Distinct<T(==)>(s: seq<T>) {
    |s| == 0 || (s[0] !in s[1..] && Distinct(s[1..]))
  }

  /** In a list without repeats, different positions hold different elements. */
  lemma {:induction false} DistinctApart<T>(s: seq<T>, i: int)
    requires Distinct(s) && 0 <= i < |s|
    ensures forall j :: 0 <= j < |s| && j != i ==> s[j] != s[i]
  {
    if i == 0 {
      forall j | 0 < j < |s| ensures s[j] != s[0] { assert s[j] == s[1..][j - 1]; }
    } else {
      DistinctApart(s[1..], i - 1);
      forall j | 0 < j < |s| && j != i ensures s[j] != s[i] { assert s[j] == s[1..][j - 1]; }
      assert s[i] in s[1..];
    }
  }

  /** Appending an element that is not yet listed keeps the list free of repeats. */
  lemma {:induction false} DistinctAppend<T>(s: seq<T>, x: T)
    requires Distinct(s) && x !in s
    ensures Distinct(s + [x])
  {
    if s != [] {
      DistinctAppend(s[1..], x);
      assert (s + [x])[1..] == s[1..] + [x];
    }
  }

  /** Two lists without repeats and without common elements, joined, have no repeats. */
  lemma {:induction false} DistinctConcat<T>(a: seq<T>, b: seq<T>)
    requires Distinct(a) && Distinct(b) && forall x :: x in a ==> x !in b
    ensures Distinct(a + b)
  {
    if a == [] {
      assert a + b == b;
    } else {
      DistinctConcat(a[1..], b);
      assert (a + b)[1..] == a[1..] + b;
    }
  }

  lemma AppendAssoc<T>(a: seq<T>, b: seq<T>, c: seq<T>)
    ensures a + b + c == a + (b + c)
  {
  }

  /** Python's `list.remove`: drops the first element equal to v. Python raises
      `ValueError` when v is absent, where this returns the list unchanged; the
      removal walk never meets that case, since it walks a snapshot of a
      repeat-free list and removes each element at most once, while it is
      still present. */
  function RemoveFirst<T(==)>(s: seq<T>, v: T): seq<T>
  {
    if s == [] then []
    else if s[0] == v then s[1..]
    else [s[0]] + RemoveFirst(s[1..], v)
  }

  /** Removing an element that occurs nowhere before it takes out exactly that element. */
  lemma {:induction false} RemoveFirstAt<T>(a: seq<T>, v: T, b: seq<T>)
    requires v !in a
    ensures RemoveFirst(a + [v] + b, v) == a + b
  {
    var s := a + [v] + b;
    if a == [] {
      assert s[0] == v && s[1..] == b;
    } else {
      assert s[0] == a[0] && a[0] != v;
      assert s[1..] == a[1..] + [v] + b;
      RemoveFirstAt(a[1..], v, b);
      assert a + b == [a[0]] + (a[1..] + b);
    }
  }

  /** The elements of s whose `drop` flag is clear, in order. */
  function Undropped<T>(s: seq<T>, drop: seq<bool>): (r: seq<T>)
    requires |drop| == |s|
    ensures |r| <= |s|
  {
    if s == [] then []
    else Undropped(s[..|s| - 1], drop[..|s| - 1]) + (if drop[|s| - 1] then [] else [s[|s| - 1]])
  }

  /** Filtering one element further along a walk of the list. */
  lemma UndroppedStep<T>(s: seq<T>, drop: seq<bool>, i: int)
    requires |drop| == |s| && 0 <= i < |s|
    ensures Undropped(s[..i + 1], drop[..i + 1]) ==
      Undropped(s[..i], drop[..i]) + (if drop[i] then [] else [s[i]])
  {
    assert s[..i + 1][..i] == s[..i] && drop[..i + 1][..i] == drop[..i];
  }

  /** The filter seen from the front: the first element, if kept, comes first. */
  lemma {:induction false} UndroppedCons<T>(s: seq<T>, drop: seq<bool>)
    requires |drop| == |s| && |s| > 0
    ensures Undropped(s, drop) == (if drop[0] then [] else [s[0]]) + Undropped(s[1..], drop[1..])
    decreases |s|
  {
    var n := |s|;
    if n > 1 {
      UndroppedCons(s[..n - 1], drop[..n - 1]);
      assert s[..n - 1][1..] == s[1..][..n - 2] && drop[..n - 1][1..] == drop[1..][..n - 2];
      assert s[1..][n - 2] == s[n - 1] && drop[1..][n - 2] == drop[n - 1];
    } else {
      assert s[..0] == [] && s[1..] == [];
    }
  }

  /** Only listed elements survive the filter. */
  lemma {:induction false} UndroppedMembers<T>(s: seq<T>, drop: seq<bool>, x: T)
    requires |drop| == |s|
    ensures x in Undropped(s, drop) ==> x in s
  {
    if s != [] {
      UndroppedMembers(s[..|s| - 1], drop[..|s| - 1], x);
    }
  }

  /** A prefix of a list without repeats has no repeats. */
  lemma {:induction false} DistinctPrefix<T>(s: seq<T>, k: int)
    requires Distinct(s) && 0 <= k <= |s|
    ensures Distinct(s[..k])
  {
    if k > 0 {
      DistinctPrefix(s[1..], k - 1);
      assert s[..k][1..] == s[1..][..k - 1];
    }
  }

  /** Filtering a list without repeats leaves a list without repeats. */
  lemma {:induction false} UndroppedDistinct<T>(s: seq<T>, drop: seq<bool>)
    requires |drop| == |s| && Distinct(s)
    ensures Distinct(Undropped(s, drop))
  {
    if s != [] {
      var n := |s|;
      DistinctPrefix(s, n - 1);
      UndroppedDistinct(s[..n - 1], drop[..n - 1]);
      if !drop[n - 1] {
        DistinctApart(s, n - 1);
        UndroppedMembers(s[..n - 1], drop[..n - 1], s[n - 1]);
        DistinctAppend(Undropped(s[..n - 1], drop[..n - 1]), s[n - 1]);
      } else {
        var init := Undropped(s[..n - 1], drop[..n - 1]);
        assert Undropped(s, drop) == init + [] == init;
      }
    }
  }

  /** The source's removal loop: walk the snapshot from position i on and call
      `live.remove(x)` for every element x whose `drop` flag is set. */
  function RemovalWalk<T(==)>(live: seq<T>, snap: seq<T>, drop: seq<bool>, i: nat): seq<T>
    requires |drop| == |snap| && i <= |snap|
    decreases |snap| - i
  {
    if i == |snap| then live
    else RemovalWalk(if drop[i] then RemoveFirst(live, snap[i]) else live, snap, drop, i + 1)
  }

  /** Removing from the live list while walking its snapshot leaves exactly the
      elements that were not dropped, in their original order. */
  lemma RemovalIsFilter<T>(snap: seq<T>, drop: seq<bool>)
    requires Distinct(snap) && |drop| == |snap|
    ensures RemovalWalk(snap, snap, drop, 0) == Undropped(snap, drop)
  {
    assert [] + snap[0..] == snap;
    RemovalWalkFrom([], snap, drop, 0);
  }

  lemma {:induction false} RemovalWalkFrom<T>(kept: seq<T>, snap: seq<T>, drop: seq<bool>, i: nat)
    requires |drop| == |snap| && i <= |snap|
    requires Distinct(snap[i..]) && forall x :: x in kept ==> x !in snap[i..]
    ensures RemovalWalk(kept + snap[i..], snap, drop, i) == kept + Undropped(snap[i..], drop[i..])
    decreases |snap| - i
  {
    if i == |snap| {
      assert kept + snap[i..] == kept;
      assert kept + [] == kept;
    } else {
      var x, rest := snap[i], snap[i + 1..];
      assert snap[i..] == [x] + rest && snap[i..][1..] == rest && drop[i..][1..] == drop[i + 1..];
      assert x !in rest && Distinct(rest);
      assert kept + snap[i..] == kept + [x] + rest;
      if drop[i] {
        UndroppedCons(snap[i..], drop[i..]);
        RemoveFirstAt(kept, x, rest);
        RemovalWalkFrom(kept, snap, drop, i + 1);
      } else {
        assert kept + [x] + rest == (kept + [x]) + rest;
        RemovalWalkFrom(kept + [x], snap, drop, i + 1);
        UndroppedCons(snap[i..], drop[i..]);
        assert (kept + [x]) + Undropped(rest, drop[i + 1..]) == kept + ([x] + Undropped(rest, drop[i + 1..]));
      }
    }
  }
}
