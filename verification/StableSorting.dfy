/**
  The ordering contract of Go's `sort.SliceStable`, which ranks both dial
  candidates and chat envelopes. `before` plays the role of the `less` callback.
 */
module StableSorting {

  /** What Go asks of a `less` callback: a strict weak ordering. */
  ghost predicate StrictWeakOrder<T(!new)>(before: (T, T) -> bool) {
    && (forall x, y :: before(x, y) ==> !before(y, x))
    && (forall x, y, z :: before(x, z) ==> before(x, y) || before(y, z))
  }

  predicate Tied<T>(before: (T, T) -> bool, x: T, y: T) {
    !before(x, y) && !before(y, x)
  }

  ghost predicate Sorted<T>(before: (T, T) -> bool, s: seq<T>) {
    forall i, j :: 0 <= i < j < |s| ==> !before(s[j], s[i])
  }

  /** The elements of `s` that tie with `t`, in their order in `s`. */
  ghost function TiedWith<T>(before: (T, T) -> bool, s: seq<T>, t: T): seq<T> {
    if s == [] then []
    else (if Tied(before, s[0], t) then [s[0]] else []) + TiedWith(before, s[1..], t)
  }

  /** `s` is `original` rearranged: ordered, nothing gained or lost, ties in their original order. */
  ghost predicate StablySorts<T(!new)>(before: (T, T) -> bool, original: seq<T>, s: seq<T>) {
    && Sorted(before, s)
    && multiset(s) == multiset(original)
    && forall t :: TiedWith(before, s, t) == TiedWith(before, original, t)
  }

  /** Places `x` ahead of everything that is not strictly before it. */
  function InsertFirst<T>(before: (T, T) -> bool, x: T, s: seq<T>): seq<T> {
    if s == [] || !before(s[0], x) then [x] + s
    else [s[0]] + InsertFirst(before, x, s[1..])
  }

  function StableSort<T>(before: (T, T) -> bool, s: seq<T>): seq<T> {
    if s == [] then [] else InsertFirst(before, s[0], StableSort(before, s[1..]))
  }

  lemma {:induction false} TiedWithConcat<T>(before: (T, T) -> bool, a: seq<T>, b: seq<T>, t: T)
    ensures TiedWith(before, a + b, t) == TiedWith(before, a, t) + TiedWith(before, b, t)
  {
    if a == [] {
      assert a + b == b;
    } else {
      assert (a + b)[1..] == a[1..] + b;
      TiedWithConcat(before, a[1..], b, t);
      var here := if Tied(before, a[0], t) then [a[0]] else [];
      var x, y := TiedWith(before, a[1..], t), TiedWith(before, b, t);
      assert here + (x + y) == (here + x) + y;
    }
  }

  lemma {:induction false} InsertFirstMembers<T>(before: (T, T) -> bool, x: T, s: seq<T>)
    ensures multiset(InsertFirst(before, x, s)) == multiset(s) + multiset{x}
    ensures forall y :: y in InsertFirst(before, x, s) <==> y == x || y in s
  {
    if s == [] || !before(s[0], x) {
    } else {
      assert s == [s[0]] + s[1..];
      InsertFirstMembers(before, x, s[1..]);
    }
  }

  lemma {:induction false} InsertFirstSorted<T(!new)>(before: (T, T) -> bool, x: T, s: seq<T>)
    requires StrictWeakOrder(before) && Sorted(before, s)
    ensures Sorted(before, InsertFirst(before, x, s))
  {
    if s == [] {
    } else if !before(s[0], x) {
      forall j | 0 <= j < |s| ensures !before(s[j], x) {
        assert j > 0 ==> !before(s[j], s[0]);
      }
    } else {
      InsertFirstSorted(before, x, s[1..]);
      InsertFirstMembers(before, x, s[1..]);
      var r := InsertFirst(before, x, s[1..]);
      forall j | 0 <= j < |r| ensures !before(r[j], s[0]) {
        assert r[j] in r;
        if r[j] != x {
          var k :| 0 <= k < |s[1..]| && s[1..][k] == r[j];
          assert s[k + 1] == r[j];
        }
      }
    }
  }

  lemma {:induction false} InsertFirstKeepsTies<T(!new)>(before: (T, T) -> bool, x: T, s: seq<T>, t: T)
    requires StrictWeakOrder(before)
    ensures TiedWith(before, InsertFirst(before, x, s), t) == TiedWith(before, [x] + s, t)
  {
    if s == [] || !before(s[0], x) {
    } else {
      InsertFirstKeepsTies(before, x, s[1..], t);
      var r := InsertFirst(before, x, s[1..]);
      assert ([s[0]] + r)[1..] == r;
      assert ([x] + s)[1..] == s;
      assert ([x] + s[1..])[1..] == s[1..];
    }
  }

  /** The function used below to specify sorting really is a stable sort. */
  lemma {:induction false} StableSortSorts<T(!new)>(before: (T, T) -> bool, s: seq<T>)
    requires StrictWeakOrder(before)
    ensures StablySorts(before, s, StableSort(before, s))
  {
    if s != [] {
      var rest := StableSort(before, s[1..]);
      StableSortSorts(before, s[1..]);
      InsertFirstSorted(before, s[0], rest);
      InsertFirstMembers(before, s[0], rest);
      assert s == [s[0]] + s[1..];
      forall t ensures TiedWith(before, StableSort(before, s), t) == TiedWith(before, s, t) {
        InsertFirstKeepsTies(before, s[0], rest, t);
        assert ([s[0]] + rest)[1..] == rest;
      }
    }
  }

  lemma {:induction false} TiedWithMembers<T(!new)>(before: (T, T) -> bool, s: seq<T>, t: T, x: T)
    ensures x in TiedWith(before, s, t) <==> x in s && Tied(before, x, t)
  {
    if s != [] {
      TiedWithMembers(before, s[1..], t, x);
    }
  }

  lemma {:induction false} TiedWithCong<T(!new)>(before: (T, T) -> bool, s: seq<T>, t: T, u: T)
    requires StrictWeakOrder(before) && Tied(before, t, u)
    ensures TiedWith(before, s, t) == TiedWith(before, s, u)
  {
    if s != [] {
      TiedWithCong(before, s[1..], t, u);
    }
  }

  /** Two ordered sequences that agree on every tie class are the same sequence. */
  lemma {:induction false} SortedUnique<T(!new)>(before: (T, T) -> bool, a: seq<T>, b: seq<T>)
    requires StrictWeakOrder(before) && Sorted(before, a) && Sorted(before, b)
    requires forall t :: TiedWith(before, a, t) == TiedWith(before, b, t)
    ensures a == b
  {
    if a == [] || b == [] {
      if a != [] {
        TiedWithMembers(before, a, a[0], a[0]);
        TiedWithMembers(before, b, a[0], a[0]);
      }
      if b != [] {
        TiedWithMembers(before, b, b[0], b[0]);
        TiedWithMembers(before, a, b[0], b[0]);
      }
    } else {
      TiedWithMembers(before, a, b[0], b[0]);
      TiedWithMembers(before, b, b[0], b[0]);
      TiedWithMembers(before, a, a[0], a[0]);
      TiedWithMembers(before, b, a[0], a[0]);
      assert a[0] in b && b[0] in a;
      assert Tied(before, a[0], b[0]);
      TiedWithCong(before, b, a[0], b[0]);
      assert a[0] == TiedWith(before, a, a[0])[0] == TiedWith(before, b, b[0])[0] == b[0];
      forall t ensures TiedWith(before, a[1..], t) == TiedWith(before, b[1..], t) {
        var here := if Tied(before, a[0], t) then [a[0]] else [];
        assert TiedWith(before, a, t) == here + TiedWith(before, a[1..], t);
        assert TiedWith(before, b, t) == here + TiedWith(before, b[1..], t);
        assert TiedWith(before, a[1..], t) == TiedWith(before, a, t)[|here|..];
        assert TiedWith(before, b[1..], t) == TiedWith(before, b, t)[|here|..];
      }
      SortedUnique(before, a[1..], b[1..]);
      assert a == [a[0]] + a[1..] && b == [b[0]] + b[1..];
    }
  }

  /** A stable sort has exactly one result, so any implementation agrees with `StableSort`. */
  lemma StableSortUnique<T(!new)>(before: (T, T) -> bool, original: seq<T>, s: seq<T>)
    requires StrictWeakOrder(before) && StablySorts(before, original, s)
    ensures s == StableSort(before, original)
  {
    StableSortSorts(before, original);
    SortedUnique(before, s, StableSort(before, original));
  }

  lemma SunkSorted<T(!new)>(before: (T, T) -> bool, low: seq<T>, x: T, high: seq<T>)
    requires StrictWeakOrder(before) && Sorted(before, low + high)
    requires low != [] ==> !before(x, low[|low| - 1])
    requires forall k :: 0 <= k < |high| ==> before(x, high[k])
    ensures Sorted(before, low + [x] + high)
  {
    var was, s := low + high, low + [x] + high;
    assert forall k :: 0 <= k < |low| ==> s[k] == was[k] == low[k];
    assert forall k :: |low| < k < |s| ==> s[k] == was[k - 1] == high[k - 1 - |low|];
    forall i, j | 0 <= i < j < |s| ensures !before(s[j], s[i]) {
      if j == |low| {
        assert i < |low| - 1 ==> !before(was[|low| - 1], was[i]);
      } else if i != |low| {
        var i', j' := if i < |low| then i else i - 1, if j < |low| then j else j - 1;
        assert s[i] == was[i'] && s[j] == was[j'];
      }
    }
  }

  lemma SunkKeepsTies<T(!new)>(before: (T, T) -> bool, low: seq<T>, x: T, high: seq<T>, t: T)
    requires StrictWeakOrder(before)
    requires forall k :: 0 <= k < |high| ==> before(x, high[k])
    ensures TiedWith(before, low + [x] + high, t) == TiedWith(before, low + high + [x], t)
  {
    TiedWithConcat(before, low + [x], high, t);
    TiedWithConcat(before, low, [x], t);
    TiedWithConcat(before, low + high, [x], t);
    TiedWithConcat(before, low, high, t);
    if Tied(before, x, t) && TiedWith(before, high, t) != [] {
      var y := TiedWith(before, high, t)[0];
      TiedWithMembers(before, high, t, y);
      assert false;
    }
  }

  lemma StableSortSnoc<T(!new)>(before: (T, T) -> bool, s: seq<T>, low: seq<T>, x: T, high: seq<T>)
    requires StrictWeakOrder(before) && StableSort(before, s) == low + high
    requires low != [] ==> !before(x, low[|low| - 1])
    requires forall k :: 0 <= k < |high| ==> before(x, high[k])
    ensures StableSort(before, s + [x]) == low + [x] + high
  {
    StableSortSorts(before, s);
    SunkSorted(before, low, x, high);
    forall t ensures TiedWith(before, low + [x] + high, t) == TiedWith(before, s + [x], t) {
      SunkKeepsTies(before, low, x, high, t);
      TiedWithConcat(before, low + high, [x], t);
      TiedWithConcat(before, s, [x], t);
    }
    assert multiset(low + [x] + high) == multiset(s + [x]);
    StableSortUnique(before, s + [x], low + [x] + high);
  }

  lemma CountsTwice<T>(s: seq<T>, i: nat, j: nat)
    requires i < j < |s|
    ensures s[i] == s[j] ==> multiset(s)[s[i]] >= 2
  {
    assert s == s[..i] + [s[i]] + s[i + 1..j] + [s[j]] + s[j + 1..];
  }

  lemma SinkStep<T(!new)>(before: (T, T) -> bool, was: seq<T>, cur: seq<T>, i: nat, j: nat)
    requires StrictWeakOrder(before)
    requires j <= i < |was| == |cur| && cur[..i] == StableSort(before, was[..i]) && cur[i..] == was[i..]
    requires j > 0 ==> !before(cur[i], cur[j - 1])
    requires forall k :: j <= k < i ==> before(cur[i], cur[k])
    ensures cur[..j] + [cur[i]] + cur[j..i] == StableSort(before, was[..i + 1])
    ensures cur[i + 1..] == was[i + 1..]
  {
    var x := cur[i];
    assert was[i] == was[i..][0] == x;
    assert was[..i + 1] == was[..i] + [x];
    assert cur[..i] == cur[..j] + cur[j..i];
    StableSortSnoc(before, was[..i], cur[..j], x, cur[j..i]);
    assert cur[i + 1..] == cur[i..][1..] && was[i + 1..] == was[i..][1..];
  }

  /** Swaps the element at `i` back past the strictly later ones before it. */
  method SinkBack<T>(a: array<T>, i: nat, before: (T, T) -> bool) returns (j: nat)
    requires i < a.Length
    modifies a
    ensures j <= i
    ensures a[..] == old(a[..j] + [a[i]] + a[j..i] + a[i + 1..])
    ensures j > 0 ==> !before(old(a[i]), old(a[j - 1]))
    ensures forall k :: j <= k < i ==> before(old(a[i]), old(a[k]))
  {
    j := i;
    while j > 0 && before(a[j], a[j - 1])
      invariant 0 <= j <= i
      invariant a[j] == old(a[i])
      invariant forall k :: 0 <= k < j || i < k < a.Length ==> a[k] == old(a[k])
      invariant forall k {:trigger a[k]} :: j < k <= i ==> a[k] == old(a[..])[k - 1]
      invariant forall k :: j <= k < i ==> before(old(a[i]), old(a[k]))
    {
      a[j], a[j - 1] := a[j - 1], a[j];
      j := j - 1;
    }
  }

  /** Sorts in place by sinking each element back in turn. */
  method SliceStable<T(!new)>(a: array<T>, before: (T, T) -> bool)
    requires StrictWeakOrder(before)
    modifies a
    ensures a[..] == StableSort(before, old(a[..]))
  {
    ghost var was := a[..];
    var i := 0;
    while i < a.Length
      invariant 0 <= i <= a.Length
      invariant a[..i] == StableSort(before, was[..i])
      invariant a[i..] == was[i..]
    {
      ghost var cur := a[..];
      assert cur[..i] == a[..i] && cur[i..] == a[i..];
      var j := SinkBack(a, i, before);
      SinkStep(before, was, cur, i, j);
      ghost var front := cur[..j] + [cur[i]] + cur[j..i];
      assert a[..] == front + cur[i + 1..];
      assert a[..i + 1] == front && a[i + 1..] == cur[i + 1..];
      i := i + 1;
    }
    assert a[..] == a[..i] && was == was[..i];
  }
}
