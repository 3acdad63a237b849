/** The rolling window (internal/engine/window.go): the newest N envelopes, oldest first. */
module Windows {
  import opened Envelopes
  import opened StableSorting

  predicate Newer(a: Msg, b: Msg) {
    if a.ts != b.ts then a.ts > b.ts else a.seqno > b.seqno
  }

  predicate Older(a: Msg, b: Msg) {
    if a.ts != b.ts then a.ts < b.ts else a.seqno < b.seqno
  }

  lemma AgeIsOrdered()
    ensures StrictWeakOrder(Newer) && StrictWeakOrder(Older)
    ensures forall a, b :: Newer(a, b) <==> Older(b, a)
  {
  }

  // ----- One envelope per ID -----

  ghost predicate DistinctIDs(envs: seq<Msg>) {
    forall i, j :: 0 <= i < j < |envs| ==> ID(envs[i]) != ID(envs[j])
  }

  /** `e` is the last of `envs` with its ID. */
  ghost predicate LastOfID(envs: seq<Msg>, e: Msg) {
    exists i :: 0 <= i < |envs| && envs[i] == e && forall j :: i < j < |envs| ==> ID(envs[j]) != ID(e)
  }

  /** `out` lists, in some order, the last envelope of every ID that occurs. */
  ghost predicate Deduped(envs: seq<Msg>, out: seq<Msg>) {
    && DistinctIDs(out)
    && (forall e :: e in out <==> LastOfID(envs, e))
    && (forall e :: e in envs ==> exists f :: f in out && ID(f) == ID(e))
  }

  ghost predicate Indexed(envs: seq<Msg>, index: map<string, Msg>) {
    && (forall id :: id in index ==> ID(index[id]) == id && LastOfID(envs, index[id]))
    && (forall e :: e in envs ==> ID(e) in index)
    && (forall e :: LastOfID(envs, e) ==> ID(e) in index && index[ID(e)] == e)
  }

  lemma LastOfIDSnoc(envs: seq<Msg>, x: Msg, e: Msg)
    ensures LastOfID(envs + [x], e) <==> e == x || (LastOfID(envs, e) && ID(e) != ID(x))
  {
    hide ID;
    var all := envs + [x];
    assert all[|envs|] == x;
    if e == x {
      assert all[|envs|] == e;
    } else {
      if LastOfID(all, e) {
        var i :| 0 <= i < |all| && all[i] == e && forall j :: i < j < |all| ==> ID(all[j]) != ID(e);
        assert envs[i] == e && forall j :: i < j < |envs| ==> ID(envs[j]) == ID(all[j]);
      }
      if LastOfID(envs, e) && ID(e) != ID(x) {
        var i :| 0 <= i < |envs| && envs[i] == e && forall j :: i < j < |envs| ==> ID(envs[j]) != ID(e);
        assert all[i] == e && forall j :: i < j < |envs| ==> ID(envs[j]) == ID(all[j]);
      }
    }
  }

  lemma IndexedSnoc(envs: seq<Msg>, index: map<string, Msg>, x: Msg)
    requires Indexed(envs, index)
    ensures Indexed(envs + [x], index[ID(x) := x])
  {
    hide ID, LastOfID;
    forall e ensures LastOfID(envs + [x], e) <==> e == x || (LastOfID(envs, e) && ID(e) != ID(x)) {
      LastOfIDSnoc(envs, x, e);
    }
  }

  /** Later values replace earlier ones of the same ID; the listing order is the map's. */
  method DedupeByID(envs: seq<Msg>) returns (out: seq<Msg>)
    ensures Deduped(envs, out)
  {
    hide ID, LastOfID;
    var index: map<string, Msg> := map[];
    assert Indexed([], index) by { NothingIsLast(); }
    for i := 0 to |envs|
      invariant Indexed(envs[..i], index)
    {
      assert envs[..i + 1] == envs[..i] + [envs[i]];
      IndexedSnoc(envs[..i], index, envs[i]);
      index := index[ID(envs[i]) := envs[i]];
    }
    assert envs[..|envs|] == envs;
    out := ListIndex(index);
    forall e | e in envs ensures exists f :: f in out && ID(f) == ID(e) {
      assert index[ID(e)] in out;
    }
  }

  lemma NothingIsLast()
    ensures forall e :: !LastOfID([], e)
  {
  }

  method ListIndex(index: map<string, Msg>) returns (out: seq<Msg>)
    requires forall id :: id in index ==> ID(index[id]) == id
    ensures DistinctIDs(out)
    ensures forall e :: e in out <==> ID(e) in index && index[ID(e)] == e
  {
    hide ID;
    out := [];
    var left := index.Keys;
    while left != {}
      invariant left <= index.Keys
      invariant DistinctIDs(out)
      invariant forall e :: e in out <==> ID(e) in index.Keys - left && index[ID(e)] == e
      decreases left
    {
      var id :| id in left;
      assert forall i :: 0 <= i < |out| ==> out[i] in out && ID(out[i]) != id;
      out := out + [index[id]];
      left := left - {id};
    }
  }

  /** Deduplication leaves one envelope for each distinct ID. */
  lemma DedupedCount(envs: seq<Msg>, out: seq<Msg>)
    requires Deduped(envs, out)
    ensures |out| == |set e | e in envs :: ID(e)|
  {
    hide ID;
    var ids := set e | e in envs :: ID(e);
    var kept := set i | 0 <= i < |out| :: ID(out[i]);
    forall id ensures id in ids <==> id in kept {
      if id in ids {
        var e :| e in envs && ID(e) == id;
        var f :| f in out && ID(f) == ID(e);
        var i :| 0 <= i < |out| && out[i] == f;
        assert ID(out[i]) in kept;
      }
      if id in kept {
        var i :| 0 <= i < |out| && ID(out[i]) == id;
        assert out[i] in out && LastOfID(envs, out[i]);
        assert out[i] in envs;
      }
    }
    assert ids == kept;
    CountIDs(out, |out|);
  }

  lemma {:induction false} CountIDs(out: seq<Msg>, n: nat)
    requires DistinctIDs(out) && n <= |out|
    ensures |set i | 0 <= i < n :: ID(out[i])| == n
  {
    hide ID;
    if n > 0 {
      CountIDs(out, n - 1);
      var front, all := set i | 0 <= i < n - 1 :: ID(out[i]), set i | 0 <= i < n :: ID(out[i]);
      assert all == front + {ID(out[n - 1])};
      assert forall i :: 0 <= i < n - 1 ==> ID(out[i]) != ID(out[n - 1]);
    }
  }

  // ----- Top N -----

  function Min(a: nat, b: nat): nat {
    if a < b then a else b
  }

  function Take(s: seq<Msg>, n: nat): seq<Msg> {
    s[..Min(n, |s|)]
  }

  /** `keepTop` then `sortAscending`. */
  function WindowOf(envs: seq<Msg>, n: nat): seq<Msg> {
    StableSort(Older, Take(StableSort(Newer, envs), n))
  }

  /** What does not make the window. */
  ghost function Omitted(envs: seq<Msg>, n: nat): seq<Msg> {
    var s := StableSort(Newer, envs);
    s[Min(n, |s|)..]
  }

  method SortedCopy(envs: seq<Msg>, before: (Msg, Msg) -> bool) returns (r: seq<Msg>)
    requires StrictWeakOrder(before)
    ensures r == StableSort(before, envs)
  {
    var a := new Msg[|envs|](i requires 0 <= i < |envs| => envs[i]);
    assert a[..] == envs;
    SliceStable(a, before);
    r := a[..];
  }

  method KeepTop(envs: seq<Msg>, n: nat) returns (top: seq<Msg>)
    ensures top == Take(StableSort(Newer, envs), n)
  {
    AgeIsOrdered();
    top := SortedCopy(envs, Newer);
    if |top| > n { top := top[..n]; }
  }

  /**
    The window has min(N, count) envelopes, in age order, with nothing gained
    or lost between it and what it omits, and nothing omitted is newer than
    anything kept.
   */
  lemma WindowKeepsNewest(envs: seq<Msg>, n: nat)
    ensures |WindowOf(envs, n)| == Min(n, |envs|)
    ensures multiset(WindowOf(envs, n)) + multiset(Omitted(envs, n)) == multiset(envs)
    ensures Sorted(Older, WindowOf(envs, n))
    ensures forall x, y :: x in WindowOf(envs, n) && y in Omitted(envs, n) ==> !Newer(y, x)
  {
    AgeIsOrdered();
    var s := StableSort(Newer, envs);
    var top := Take(s, n);
    StableSortSorts(Newer, envs);
    StableSortSorts(Older, top);
    hide Newer, Older, StableSort, TiedWith;
    assert |multiset(s)| == |multiset(envs)| && |multiset(WindowOf(envs, n))| == |multiset(top)|;
    assert s == top + Omitted(envs, n);
    forall x, y | x in WindowOf(envs, n) && y in Omitted(envs, n) ensures !Newer(y, x) {
      assert x in multiset(WindowOf(envs, n)) && x in top;
      SplitSorted(s, top, Omitted(envs, n), x, y);
    }
  }

  /** `a` was sent no later than `b`: by timestamp, then by sequence number. */
  ghost predicate NoLater(a: Msg, b: Msg) {
    a.ts < b.ts || (a.ts == b.ts && a.seqno <= b.seqno)
  }

  /** By the clock: the window goes from oldest to newest, and what is not in it is no newer than anything in it. */
  lemma WindowByTime(envs: seq<Msg>, n: nat)
    ensures var w := WindowOf(envs, n);
            && (forall i, j :: 0 <= i < j < |w| ==> NoLater(w[i], w[j]))
            && (forall x, y :: x in w && y in envs && y !in w ==> NoLater(y, x))
  {
    WindowKeepsNewest(envs, n);
    hide WindowOf, Omitted;
    var w, rest := WindowOf(envs, n), Omitted(envs, n);
    forall x, y | x in w && y in envs && y !in w ensures NoLater(y, x) {
      assert y in multiset(envs) && y !in multiset(w);
      assert y in multiset(rest) && y in rest;
      assert !Newer(y, x);
    }
  }

  lemma SplitSorted(s: seq<Msg>, top: seq<Msg>, rest: seq<Msg>, x: Msg, y: Msg)
    requires Sorted(Newer, s) && s == top + rest && x in top && y in rest
    ensures !Newer(y, x)
  {
    hide Newer;
    var i :| 0 <= i < |top| && top[i] == x;
    var j :| 0 <= j < |rest| && rest[j] == y;
    assert s[i] == x && s[|top| + j] == y;
  }

  lemma WindowMembers(envs: seq<Msg>, n: nat, e: Msg)
    ensures e in WindowOf(envs, n) ==> e in envs
    ensures e in WindowOf(envs, n) <==> e in Take(StableSort(Newer, envs), n)
  {
    AgeIsOrdered();
    WindowKeepsNewest(envs, n);
    var top := Take(StableSort(Newer, envs), n);
    StableSortSorts(Older, top);
    assert e in WindowOf(envs, n) <==> e in multiset(WindowOf(envs, n));
    assert e in top <==> e in multiset(top);
    assert e in envs <==> e in multiset(envs);
  }

  lemma CountedOnce(a: seq<Msg>, x: nat)
    requires DistinctIDs(a) && x < |a|
    ensures multiset(a)[a[x]] == 1
  {
    hide ID;
    assert a == a[..x] + [a[x]] + a[x + 1..];
    assert a[x] !in a[..x] && a[x] !in a[x + 1..];
  }

  lemma DistinctIDsPermuted(a: seq<Msg>, b: seq<Msg>)
    requires DistinctIDs(a) && multiset(b) <= multiset(a)
    ensures DistinctIDs(b)
  {
    hide ID;
    forall i, j | 0 <= i < j < |b| ensures ID(b[i]) != ID(b[j]) {
      assert b[i] in multiset(b) && b[j] in multiset(b);
      assert b[i] in a && b[j] in a;
      var x :| 0 <= x < |a| && a[x] == b[i];
      var y :| 0 <= y < |a| && a[y] == b[j];
      CountedOnce(a, x);
      CountsTwice(b, i, j);
    }
  }

  lemma WindowIDsDistinct(envs: seq<Msg>, n: nat)
    requires DistinctIDs(envs)
    ensures DistinctIDs(WindowOf(envs, n))
  {
    WindowKeepsNewest(envs, n);
    DistinctIDsPermuted(envs, WindowOf(envs, n));
  }

  /** The other envelopes that are at least as new as `m`. */
  ghost function Rivals(envs: seq<Msg>, m: Msg): set<Msg> {
    set e | e in envs && e != m && NoLater(m, e)
  }

  /** With fewer than N rivals, a message makes the window. */
  lemma FewRivalsKeepsPlace(envs: seq<Msg>, n: nat, m: Msg)
    requires DistinctIDs(envs) && m in envs && |Rivals(envs, m)| < n
    ensures m in WindowOf(envs, n)
  {
    AgeIsOrdered();
    var s := StableSort(Newer, envs);
    StableSortSorts(Newer, envs);
    DistinctIDsPermuted(envs, s);
    assert m in multiset(s);
    var p :| 0 <= p < |s| && s[p] == m;
    PrefixIsRivals(envs, s, m, p);
    WindowMembers(envs, n, m);
    assert Take(s, n)[p] == m;
  }

  lemma {:induction false} PrefixIsRivals(envs: seq<Msg>, s: seq<Msg>, m: Msg, p: nat)
    requires multiset(s) == multiset(envs) && DistinctIDs(s) && Sorted(Newer, s) && p < |s| && s[p] == m
    ensures p <= |Rivals(envs, m)|
  {
    var front := set i | 0 <= i < p :: s[i];
    PrefixCount(s, p);
    forall e | e in front ensures e in Rivals(envs, m) {
      var i :| 0 <= i < p && s[i] == e;
      assert s[i] in multiset(s);
      assert !Newer(s[p], s[i]);
      assert ID(s[i]) != ID(s[p]);
    }
    Subset(front, Rivals(envs, m));
  }

  lemma {:induction false} PrefixCount(s: seq<Msg>, p: nat)
    requires DistinctIDs(s) && p <= |s|
    ensures |set i | 0 <= i < p :: s[i]| == p
  {
    hide ID;
    if p > 0 {
      PrefixCount(s, p - 1);
      var front, all := set i | 0 <= i < p - 1 :: s[i], set i | 0 <= i < p :: s[i];
      assert all == front + {s[p - 1]};
      assert forall i :: 0 <= i < p - 1 ==> ID(s[i]) != ID(s[p - 1]);
    }
  }

  lemma {:induction false} Subset(a: set<Msg>, b: set<Msg>)
    requires a <= b
    ensures |a| <= |b|
  {
    assert b == a + (b - a);
    assert |b| == |a| + |b - a|;
  }

  // ----- Whatever order the map listed them in -----

  /** No two envelopes share both timestamp and sequence number. */
  ghost predicate NoTies(envs: seq<Msg>) {
    forall i, j :: 0 <= i < j < |envs| ==> !Tied(Newer, envs[i], envs[j])
  }

  lemma {:induction false} OneInClass(envs: seq<Msg>, t: Msg)
    ensures |TiedWith(Newer, envs, t)| > 1 ==> !NoTies(envs)
  {
    if |TiedWith(Newer, envs, t)| > 1 {
      var rest := envs[1..];
      if |TiedWith(Newer, rest, t)| > 1 {
        OneInClass(rest, t);
        var i, j :| 0 <= i < j < |rest| && Tied(Newer, rest[i], rest[j]);
        assert Tied(Newer, envs[i + 1], envs[j + 1]);
      } else {
        var e := TiedWith(Newer, rest, t)[0];
        TiedWithMembers(Newer, rest, t, e);
        var j :| 0 <= j < |rest| && rest[j] == e;
        assert Tied(Newer, envs[0], envs[j + 1]);
      }
    }
  }

  /** Without ties the window does not depend on the order of the map's listing. */
  lemma WindowIgnoresListingOrder(a: seq<Msg>, b: seq<Msg>, n: nat)
    requires multiset(a) == multiset(b) && NoTies(a) && NoTies(b)
    ensures WindowOf(a, n) == WindowOf(b, n)
  {
    AgeIsOrdered();
    StableSortSorts(Newer, a);
    StableSortSorts(Newer, b);
    forall t ensures TiedWith(Newer, a, t) == TiedWith(Newer, b, t) {
      OneInClass(a, t);
      OneInClass(b, t);
      SameClass(a, b, t);
    }
    SortedUnique(Newer, StableSort(Newer, a), StableSort(Newer, b));
  }

  lemma SameClass(a: seq<Msg>, b: seq<Msg>, t: Msg)
    requires multiset(a) == multiset(b)
    requires |TiedWith(Newer, a, t)| <= 1 && |TiedWith(Newer, b, t)| <= 1
    ensures TiedWith(Newer, a, t) == TiedWith(Newer, b, t)
  {
    var x, y := TiedWith(Newer, a, t), TiedWith(Newer, b, t);
    forall e ensures e in x <==> e in y {
      TiedWithMembers(Newer, a, t, e);
      TiedWithMembers(Newer, b, t, e);
      assert e in a <==> e in multiset(a);
      assert e in b <==> e in multiset(b);
    }
    if x != [] { assert x[0] in y && x == [x[0]]; }
    if y != [] { assert y[0] in x && y == [y[0]]; }
  }

  lemma NoTiesPermuted(envs: seq<Msg>, a: seq<Msg>)
    requires DistinctIDs(envs) && NoTies(envs) && multiset(a) == multiset(envs)
    ensures NoTies(a)
  {
    DistinctIDsPermuted(envs, a);
    hide ID;
    forall i, j | 0 <= i < j < |a| ensures !Tied(Newer, a[i], a[j]) {
      assert a[i] in multiset(envs) && a[j] in multiset(envs);
      var x :| 0 <= x < |envs| && envs[x] == a[i];
      var y :| 0 <= y < |envs| && envs[y] == a[j];
      assert ID(a[i]) != ID(a[j]);
    }
  }

  /** A listing that puts one envelope first shows it first among those it ties with. */
  lemma FirstListedShownFirst(x: Msg, rest: seq<Msg>, t: Msg)
    requires Tied(Newer, x, t)
    ensures var shown := TiedWith(Older, WindowOf([x] + rest, 1 + |rest|), t); shown != [] && shown[0] == x
  {
    AgeIsOrdered();
    var a := [x] + rest;
    var s := StableSort(Newer, a);
    StableSortSorts(Newer, a);
    assert |multiset(s)| == |multiset(a)|;
    assert Take(s, |a|) == s;
    StableSortSorts(Older, s);
    SameTies(s, t);
    TiedWithConcat(Newer, [x], rest, t);
    assert TiedWith(Newer, [x], t) == [x];
  }

  lemma {:induction false} SameTies(s: seq<Msg>, t: Msg)
    ensures TiedWith(Older, s, t) == TiedWith(Newer, s, t)
  {
    if s != [] { SameTies(s[1..], t); }
  }

  /** Two tied envelopes: listing the one or the other first gives different windows. */
  lemma TieShows(envs: seq<Msg>, i: nat, j: nat) returns (a: seq<Msg>, b: seq<Msg>)
    requires i < j < |envs| && Tied(Newer, envs[i], envs[j]) && envs[i] != envs[j]
    ensures multiset(a) == multiset(envs) && multiset(b) == multiset(envs) && WindowOf(a, |envs|) != WindowOf(b, |envs|)
  {
    hide WindowOf, TiedWith;
    var x, y := envs[i], envs[j];
    var notX, notY := envs[..i] + envs[i + 1..], envs[..j] + envs[j + 1..];
    a, b := [x] + notX, [y] + notY;
    PulledToFront(envs, i);
    PulledToFront(envs, j);
    FirstListedShownFirst(x, notX, x);
    FirstListedShownFirst(y, notY, x);
  }

  lemma PulledToFront(envs: seq<Msg>, i: nat)
    requires i < |envs|
    ensures multiset([envs[i]] + (envs[..i] + envs[i + 1..])) == multiset(envs)
  {
    assert envs == envs[..i] + [envs[i]] + envs[i + 1..];
  }

  /** The map may list the envelopes in any order: the window is the same. */
  ghost predicate ListingOrderIrrelevant(envs: seq<Msg>) {
    forall a, b, n: nat :: multiset(a) == multiset(envs) && multiset(b) == multiset(envs) ==> WindowOf(a, n) == WindowOf(b, n)
  }

  /** That holds exactly when no two envelopes share timestamp and sequence number. */
  lemma ListingOrderIrrelevantIffNoTies(envs: seq<Msg>)
    requires DistinctIDs(envs)
    ensures ListingOrderIrrelevant(envs) <==> NoTies(envs)
  {
    hide WindowOf, ID;
    if NoTies(envs) {
      forall a, b, n: nat | multiset(a) == multiset(envs) && multiset(b) == multiset(envs) ensures WindowOf(a, n) == WindowOf(b, n) {
        NoTiesPermuted(envs, a);
        NoTiesPermuted(envs, b);
        WindowIgnoresListingOrder(a, b, n);
      }
    } else {
      var i, j :| 0 <= i < j < |envs| && Tied(Newer, envs[i], envs[j]);
      assert ID(envs[i]) != ID(envs[j]);
      var a, b := TieShows(envs, i, j);
    }
  }

  // ----- The same for one window size -----

  /** The envelopes strictly newer than `t`. */
  ghost function Newers(envs: seq<Msg>, t: Msg): set<Msg> {
    set e | e in envs && Newer(e, t)
  }

  /** Whatever ties lies wholly outside the newest `n`. */
  ghost predicate TiesAreOmitted(envs: seq<Msg>, n: nat) {
    forall i, j :: 0 <= i < j < |envs| && Tied(Newer, envs[i], envs[j]) ==> |Newers(envs, envs[i])| >= n
  }

  /** The window of size `n` is the same for every order in which the map may list the envelopes. */
  ghost predicate ListingOrderIrrelevantFor(envs: seq<Msg>, n: nat) {
    forall a, b :: multiset(a) == multiset(envs) && multiset(b) == multiset(envs) ==> WindowOf(a, n) == WindowOf(b, n)
  }

  lemma {:induction false} FirstTied(s: seq<Msg>, t: Msg) returns (p: nat)
    requires TiedWith(Newer, s, t) != []
    ensures p < |s| && s[p] == TiedWith(Newer, s, t)[0] && Tied(Newer, s[p], t)
    ensures forall k :: 0 <= k < p ==> !Tied(Newer, s[k], t)
  {
    if Tied(Newer, s[0], t) {
      p := 0;
    } else {
      var q := FirstTied(s[1..], t);
      p := q + 1;
      assert forall k :: 0 < k < |s| ==> s[k] == s[1..][k - 1];
    }
  }

  lemma {:induction false} NobodyTied(s: seq<Msg>, t: Msg)
    requires forall k :: 0 <= k < |s| ==> !Tied(Newer, s[k], t)
    ensures TiedWith(Newer, s, t) == []
  {
    if s != [] { NobodyTied(s[1..], t); }
  }

  /** In a sorted list the first that ties with `t` comes right after all that are newer. */
  lemma FirstTiedIsEarly(envs: seq<Msg>, s: seq<Msg>, t: Msg, p: nat)
    requires Sorted(Newer, s) && DistinctIDs(s) && multiset(s) == multiset(envs) && p < |s| && Tied(Newer, s[p], t)
    requires forall k :: 0 <= k < p ==> !Tied(Newer, s[k], t)
    ensures p <= |Newers(envs, t)|
  {
    var front := set k | 0 <= k < p :: s[k];
    PrefixCount(s, p);
    forall e | e in front ensures e in Newers(envs, t) {
      var k :| 0 <= k < p && s[k] == e;
      assert e in multiset(s);
      assert !Newer(s[p], s[k]);
    }
    Subset(front, Newers(envs, t));
  }

  /** A listing that puts `x` first keeps it, and first of those it ties with, if fewer than `n` are newer. */
  lemma FirstListedKeptFirst(x: Msg, rest: seq<Msg>, n: nat, t: Msg)
    requires DistinctIDs([x] + rest) && Tied(Newer, x, t) && |Newers([x] + rest, t)| < n
    ensures var shown := TiedWith(Older, WindowOf([x] + rest, n), t); shown != [] && shown[0] == x
  {
    AgeIsOrdered();
    var a := [x] + rest;
    var s := StableSort(Newer, a);
    StableSortSorts(Newer, a);
    DistinctIDsPermuted(a, s);
    TiedWithConcat(Newer, [x], rest, t);
    assert TiedWith(Newer, [x], t) == [x];
    assert TiedWith(Newer, s, t) == TiedWith(Newer, a, t);
    var p := FirstTied(s, t);
    FirstTiedIsEarly(a, s, t, p);
    KeptFirst(s, n, t, p);
    StableSortSorts(Older, Take(s, n));
    SameTies(Take(s, n), t);
  }

  lemma KeptFirst(s: seq<Msg>, n: nat, t: Msg, p: nat)
    requires p < n && p < |s| && Tied(Newer, s[p], t) && forall k :: 0 <= k < p ==> !Tied(Newer, s[k], t)
    ensures TiedWith(Newer, Take(s, n), t) != [] && TiedWith(Newer, Take(s, n), t)[0] == s[p]
  {
    var top := Take(s, n);
    assert top == top[..p] + top[p..] && top[p] == s[p];
    NobodyTied(top[..p], t);
    TiedWithConcat(Newer, top[..p], top[p..], t);
  }

  /** Two tied envelopes of which one is kept: listing the one or the other first gives different windows. */
  lemma KeptTieShows(envs: seq<Msg>, n: nat, i: nat, j: nat) returns (a: seq<Msg>, b: seq<Msg>)
    requires DistinctIDs(envs) && i < j < |envs| && Tied(Newer, envs[i], envs[j]) && |Newers(envs, envs[i])| < n
    ensures multiset(a) == multiset(envs) && multiset(b) == multiset(envs) && WindowOf(a, n) != WindowOf(b, n)
  {
    var x, y := envs[i], envs[j];
    assert ID(x) != ID(y);
    hide WindowOf, TiedWith, ID;
    var notX, notY := envs[..i] + envs[i + 1..], envs[..j] + envs[j + 1..];
    a, b := [x] + notX, [y] + notY;
    PulledToFront(envs, i);
    PulledToFront(envs, j);
    SameNewers(envs, a, x);
    SameNewers(envs, b, x);
    DistinctIDsPermuted(envs, a);
    DistinctIDsPermuted(envs, b);
    FirstListedKeptFirst(x, notX, n, x);
    FirstListedKeptFirst(y, notY, n, x);
  }

  lemma SameNewers(a: seq<Msg>, b: seq<Msg>, t: Msg)
    requires multiset(a) == multiset(b)
    ensures Newers(a, t) == Newers(b, t)
  {
    forall e ensures e in a <==> e in b {
      assert e in a <==> e in multiset(a);
      assert e in b <==> e in multiset(b);
    }
  }

  /** All that are newer than one of a sorted list come before it. */
  lemma NewersComeBefore(envs: seq<Msg>, s: seq<Msg>, p: nat)
    requires Sorted(Newer, s) && DistinctIDs(s) && multiset(s) == multiset(envs) && p < |s|
    ensures |Newers(envs, s[p])| <= p
  {
    var front := set k | 0 <= k < p :: s[k];
    PrefixCount(s, p);
    assert forall k :: p < k < |s| ==> !Newer(s[k], s[p]);
    forall e | e in Newers(envs, s[p]) ensures e in front {
      assert e in multiset(envs);
      var k :| 0 <= k < |s| && s[k] == e;
    }
    Subset(Newers(envs, s[p]), front);
  }

  /** Where two sorted listings first differ, two envelopes tie. */
  lemma DifferenceIsATie(a: seq<Msg>, b: seq<Msg>, p: nat)
    requires Sorted(Newer, a) && Sorted(Newer, b) && multiset(a) == multiset(b) && DistinctIDs(a) && DistinctIDs(b)
    requires p < |a| == |b| && a[..p] == b[..p] && a[p] != b[p]
    ensures Tied(Newer, a[p], b[p])
  {
    ComesLater(a, b, p);
    ComesLater(b, a, p);
  }

  lemma ComesLater(a: seq<Msg>, b: seq<Msg>, p: nat)
    requires Sorted(Newer, b) && multiset(a) == multiset(b) && DistinctIDs(a)
    requires p < |a| == |b| && a[..p] == b[..p] && a[p] != b[p]
    ensures !Newer(a[p], b[p])
  {
    hide Newer;
    assert forall k :: 0 <= k < p ==> b[k] == b[..p][k] == a[..p][k] == a[k] && ID(a[k]) != ID(a[p]);
    assert a[p] in multiset(b);
    var q :| 0 <= q < |b| && b[q] == a[p];
  }

  lemma {:induction false} SameUpTo(envs: seq<Msg>, a: seq<Msg>, b: seq<Msg>, n: nat, p: nat)
    requires DistinctIDs(envs) && TiesAreOmitted(envs, n) && multiset(a) == multiset(envs) && multiset(b) == multiset(envs)
    requires Sorted(Newer, a) && Sorted(Newer, b) && p <= n && p <= |a| == |b|
    ensures a[..p] == b[..p]
  {
    if p > 0 {
      SameUpTo(envs, a, b, n, p - 1);
      DistinctIDsPermuted(envs, a);
      DistinctIDsPermuted(envs, b);
      if a[p - 1] != b[p - 1] {
        DifferenceIsATie(a, b, p - 1);
        NewersComeBefore(envs, a, p - 1);
        NewersComeBefore(envs, b, p - 1);
        TieIsInListing(envs, a, b, n, p - 1);
      }
      assert a[..p] == a[..p - 1] + [a[p - 1]] && b[..p] == b[..p - 1] + [b[p - 1]];
    }
  }

  lemma TieIsInListing(envs: seq<Msg>, a: seq<Msg>, b: seq<Msg>, n: nat, p: nat)
    requires TiesAreOmitted(envs, n) && multiset(a) == multiset(envs) && multiset(b) == multiset(envs) && p < |a| == |b|
    requires Tied(Newer, a[p], b[p]) && a[p] != b[p]
    ensures |Newers(envs, a[p])| >= n || |Newers(envs, b[p])| >= n
  {
    assert a[p] in multiset(envs) && b[p] in multiset(envs);
    var i :| 0 <= i < |envs| && envs[i] == a[p];
    var j :| 0 <= j < |envs| && envs[j] == b[p];
    if i < j { assert Tied(Newer, envs[i], envs[j]); } else { assert Tied(Newer, envs[j], envs[i]); }
  }

  /**
    For one window size the map's order does not matter exactly when whatever
    ties is omitted altogether: no two kept envelopes tie, and none across the cut.
   */
  lemma ListingOrderIrrelevantForIff(envs: seq<Msg>, n: nat)
    requires DistinctIDs(envs)
    ensures ListingOrderIrrelevantFor(envs, n) <==> TiesAreOmitted(envs, n)
  {
    hide ID, Newers, Newer;
    if TiesAreOmitted(envs, n) {
      forall a, b | multiset(a) == multiset(envs) && multiset(b) == multiset(envs) ensures WindowOf(a, n) == WindowOf(b, n) {
        SameWindow(envs, a, b, n);
      }
    } else {
      var i, j :| 0 <= i < j < |envs| && Tied(Newer, envs[i], envs[j]) && |Newers(envs, envs[i])| < n;
      hide WindowOf;
      var a, b := KeptTieShows(envs, n, i, j);
    }
  }

  lemma SameWindow(envs: seq<Msg>, a: seq<Msg>, b: seq<Msg>, n: nat)
    requires DistinctIDs(envs) && TiesAreOmitted(envs, n) && multiset(a) == multiset(envs) && multiset(b) == multiset(envs)
    ensures WindowOf(a, n) == WindowOf(b, n)
  {
    AgeIsOrdered();
    var sa, sb := StableSort(Newer, a), StableSort(Newer, b);
    StableSortSorts(Newer, a);
    StableSortSorts(Newer, b);
    assert |multiset(sa)| == |multiset(sb)| == |sa|;
    assert |sb| == |multiset(sb)|;
    hide Newer, Older, StableSort, TiesAreOmitted, DistinctIDs;
    SameUpTo(envs, sa, sb, n, Min(n, |sa|));
    assert Take(sa, n) == Take(sb, n);
  }
}
