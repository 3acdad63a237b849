/**
  The in-memory TTL store (internal/engine/mockstore.go): a key holds a set of
  values and each value expires. The clock is an argument of every call.
 */
module MockStores {
  import opened Wrappers

  datatype Entry<V> = Entry(v: V, exp: int)

  type Shelf<V> = map<string, seq<Entry<V>>>

  /** One store call. `Put` reads the clock twice: once to purge, once to date the value. */
  datatype Op<V> =
    | Got(key: string, at: int)
    | Put(key: string, v: V, purged: int, at: int)
    | Deleted(key: string, v: V)

  function At<V>(shelf: Shelf<V>, key: string): seq<Entry<V>> {
    if key in shelf then shelf[key] else []
  }

  function Live<V>(es: seq<Entry<V>>, now: int): seq<Entry<V>> {
    if es == [] then []
    else (if es[0].exp > now then [es[0]] else []) + Live(es[1..], now)
  }

  function Without<V(==)>(es: seq<Entry<V>>, v: V): seq<Entry<V>> {
    if es == [] then []
    else (if es[0].v != v then [es[0]] else []) + Without(es[1..], v)
  }

  /** Redates the first entry holding `v`, or appends a new one. */
  function Renewed<V(==)>(es: seq<Entry<V>>, v: V, exp: int): seq<Entry<V>> {
    if es == [] then [Entry(v, exp)]
    else if es[0].v == v then [Entry(v, exp)] + es[1..]
    else [es[0]] + Renewed(es[1..], v, exp)
  }

  function Listing<V>(es: seq<Entry<V>>): (vs: seq<V>)
    ensures |vs| == |es|
    ensures forall i :: 0 <= i < |es| ==> vs[i] == es[i].v
  {
    if es == [] then [] else [es[0].v] + Listing(es[1..])
  }

  function Purged<V>(shelf: Shelf<V>, key: string, now: int): Shelf<V> {
    var out := Live(At(shelf, key), now);
    if out == [] then shelf - {key} else shelf[key := out]
  }

  function Stepped<V(==)>(shelf: Shelf<V>, op: Op<V>, ttl: int): Shelf<V> {
    match op
    case Got(key, at) => Purged(shelf, key, at)
    case Put(key, v, purged, at) =>
      var kept := Purged(shelf, key, purged);
      kept[key := Renewed(At(kept, key), v, at + ttl)]
    case Deleted(key, v) => shelf[key := Without(At(shelf, key), v)]
  }

  /** The store contents after a history of calls, starting empty. */
  function Replay<V(==)>(h: seq<Op<V>>, ttl: int): Shelf<V> {
    if h == [] then map[] else Stepped(Replay(h[..|h| - 1], ttl), h[|h| - 1], ttl)
  }

  lemma ReplaySnoc<V>(h: seq<Op<V>>, op: Op<V>, ttl: int)
    ensures Replay(h + [op], ttl) == Stepped(Replay(h, ttl), op, ttl)
  {
    assert (h + [op])[..|h|] == h;
  }

  // ----- The history specification -----

  /** A value due at `exp` is neither rewritten, deleted nor purged by `op`. */
  ghost predicate Spares<V>(op: Op<V>, key: string, v: V, exp: int) {
    op.key == key ==>
      match op
      case Got(_, at) => at < exp
      case Put(_, w, purged, _) => w != v && purged < exp
      case Deleted(_, w) => w != v
  }

  /** Call `i` put `v` and nothing since has touched it. */
  ghost predicate Stands<V>(h: seq<Op<V>>, ttl: int, key: string, v: V, i: int) {
    && 0 <= i < |h| && h[i].Put? && h[i].key == key && h[i].v == v
    && forall j :: i < j < |h| ==> Spares(h[j], key, v, h[i].at + ttl)
  }

  ghost predicate Survives<V(!new)>(h: seq<Op<V>>, ttl: int, key: string, v: V, now: int) {
    exists i :: Stands(h, ttl, key, v, i) && now < h[i].at + ttl
  }

  /** The clock never runs backwards, within a call or between calls, and `now` is not in the past. */
  ghost predicate Monotone<V>(h: seq<Op<V>>, now: int) {
    && (forall i :: 0 <= i < |h| && h[i].Put? ==> h[i].purged <= h[i].at <= now)
    && (forall i :: 0 <= i < |h| && h[i].Got? ==> h[i].at <= now)
    && (forall i, j :: 0 <= i < j < |h| && h[i].Put? && h[j].Put? ==> h[i].at <= h[j].at)
  }

  lemma MonotoneSnoc<V>(h: seq<Op<V>>, op: Op<V>, now: int)
    requires Monotone(h, now) && (op.Put? ==> op.purged <= op.at == now) && (op.Got? ==> op.at <= now)
    ensures Monotone(h + [op], now)
  {
  }

  lemma MonotoneLater<V>(h: seq<Op<V>>, now: int, later: int)
    requires Monotone(h, now) && now <= later
    ensures Monotone(h, later)
  {
  }

  /** The last Put or Delete of `v` is the Put at call `i`. */
  ghost predicate LastWrite<V>(h: seq<Op<V>>, key: string, v: V, i: int) {
    && 0 <= i < |h| && h[i].Put? && h[i].key == key && h[i].v == v
    && forall j :: i < j < |h| && h[j].key == key ==> h[j].Got? || h[j].v != v
  }

  // ----- Entries as a finite map from value to expiry -----

  ghost function ExpiryIn<V>(es: seq<Entry<V>>, v: V): Option<int> {
    if es == [] then None else if es[0].v == v then Some(es[0].exp) else ExpiryIn(es[1..], v)
  }

  ghost predicate Distinct<V>(es: seq<Entry<V>>) {
    es == [] || (ExpiryIn(es[1..], es[0].v).None? && Distinct(es[1..]))
  }

  lemma {:induction false} LiveLookup<V(!new)>(es: seq<Entry<V>>, now: int)
    requires Distinct(es)
    ensures Distinct(Live(es, now))
    ensures forall v :: ExpiryIn(Live(es, now), v) ==
                        match ExpiryIn(es, v) { case Some(e) => if e > now then Some(e) else None case None => None }
  {
    if es != [] {
      LiveLookup(es[1..], now);
      if es[0].exp > now {
        assert Live(es, now)[1..] == Live(es[1..], now);
      } else {
        assert Live(es, now) == Live(es[1..], now);
      }
    }
  }

  lemma {:induction false} WithoutLookup<V(!new)>(es: seq<Entry<V>>, w: V)
    requires Distinct(es)
    ensures Distinct(Without(es, w))
    ensures forall v :: ExpiryIn(Without(es, w), v) == if v == w then None else ExpiryIn(es, v)
  {
    if es != [] {
      WithoutLookup(es[1..], w);
      if es[0].v != w {
        assert Without(es, w)[1..] == Without(es[1..], w);
      } else {
        assert Without(es, w) == Without(es[1..], w);
      }
    }
  }

  lemma {:induction false} RenewedLookup<V(!new)>(es: seq<Entry<V>>, w: V, exp: int)
    requires Distinct(es)
    ensures Distinct(Renewed(es, w, exp))
    ensures forall v :: ExpiryIn(Renewed(es, w, exp), v) == if v == w then Some(exp) else ExpiryIn(es, v)
  {
    if es == [] {
      assert Renewed(es, w, exp)[1..] == [];
    } else if es[0].v == w {
      assert Renewed(es, w, exp)[1..] == es[1..];
    } else {
      RenewedLookup(es[1..], w, exp);
      assert Renewed(es, w, exp)[1..] == Renewed(es[1..], w, exp);
    }
  }

  lemma {:induction false} ListedOnce<V(!new)>(es: seq<Entry<V>>, v: V)
    requires Distinct(es)
    ensures multiset(Listing(es))[v] == if ExpiryIn(es, v).Some? then 1 else 0
  {
    if es != [] {
      ListedOnce(es[1..], v);
      assert Listing(es) == [es[0].v] + Listing(es[1..]);
    }
  }

  // ----- Replay agrees with the specification -----

  /** What one call does to the expiry of one value. */
  ghost function ExpiryStep<V>(before: Option<int>, op: Op<V>, ttl: int, key: string, v: V): Option<int> {
    if op.key != key then before
    else if op.Put? && op.v == v then Some(op.at + ttl)
    else if before.Some? && Spares(op, key, v, before.value) then before
    else None
  }

  lemma SteppedLookup<V(!new)>(shelf: Shelf<V>, op: Op<V>, ttl: int, key: string)
    requires Distinct(At(shelf, key))
    ensures Distinct(At(Stepped(shelf, op, ttl), key))
    ensures forall v :: ExpiryIn(At(Stepped(shelf, op, ttl), key), v) ==
                        ExpiryStep(ExpiryIn(At(shelf, key), v), op, ttl, key, v)
  {
    if op.key == key {
      match op
      case Got(_, at) => LiveLookup(At(shelf, key), at);
      case Put(_, w, purged, at) =>
        LiveLookup(At(shelf, key), purged);
        var kept := Purged(shelf, key, purged);
        assert At(kept, key) == Live(At(shelf, key), purged);
        RenewedLookup(At(kept, key), w, at + ttl);
      case Deleted(_, w) => WithoutLookup(At(shelf, key), w);
    }
  }

  ghost predicate ExpiresAt<V(!new)>(h: seq<Op<V>>, ttl: int, key: string, v: V, exp: Option<int>) {
    match exp
    case Some(e) => exists i :: Stands(h, ttl, key, v, i) && e == h[i].at + ttl
    case None => forall i :: !Stands(h, ttl, key, v, i)
  }

  lemma StandsSnoc<V>(h: seq<Op<V>>, op: Op<V>, ttl: int, key: string, v: V, i: int)
    ensures Stands(h + [op], ttl, key, v, i) <==>
            if i == |h| then op.Put? && op.key == key && op.v == v
            else Stands(h, ttl, key, v, i) && Spares(op, key, v, h[i].at + ttl)
  {
    var g := h + [op];
    assert g[|h|] == op && forall j :: 0 <= j < |h| ==> g[j] == h[j];
    if 0 <= i < |h| {
      assert Stands(g, ttl, key, v, i) ==> Spares(g[|h|], key, v, h[i].at + ttl);
      if Stands(g, ttl, key, v, i) {
        forall j | i < j < |h| ensures Spares(h[j], key, v, h[i].at + ttl) {
          assert Spares(g[j], key, v, g[i].at + ttl);
        }
      }
    }
  }

  lemma OneStands<V>(h: seq<Op<V>>, ttl: int, key: string, v: V, i: int, j: int)
    requires Stands(h, ttl, key, v, i) && Stands(h, ttl, key, v, j)
    ensures i == j
  {
  }

  lemma ExpiresAtStep<V(!new)>(h: seq<Op<V>>, op: Op<V>, ttl: int, key: string, v: V, exp: Option<int>)
    requires ExpiresAt(h, ttl, key, v, exp)
    ensures ExpiresAt(h + [op], ttl, key, v, ExpiryStep(exp, op, ttl, key, v))
  {
    forall i ensures Stands(h + [op], ttl, key, v, i) <==>
                     if i == |h| then op.Put? && op.key == key && op.v == v
                     else Stands(h, ttl, key, v, i) && Spares(op, key, v, h[i].at + ttl)
    {
      StandsSnoc(h, op, ttl, key, v, i);
    }
    var after := ExpiryStep(exp, op, ttl, key, v);
    if op.Put? && op.key == key && op.v == v {
      assert Stands(h + [op], ttl, key, v, |h|);
    } else if after.Some? {
      var i :| Stands(h, ttl, key, v, i) && exp.value == h[i].at + ttl;
      assert Stands(h + [op], ttl, key, v, i);
    } else if exp.Some? {
      var i :| Stands(h, ttl, key, v, i) && exp.value == h[i].at + ttl;
      forall k ensures !Stands(h + [op], ttl, key, v, k) {
        if Stands(h + [op], ttl, key, v, k) { OneStands(h, ttl, key, v, i, k); }
      }
    }
  }

  lemma {:induction false} ReplayExpiry<V(!new)>(h: seq<Op<V>>, ttl: int, key: string)
    ensures Distinct(At(Replay(h, ttl), key))
    ensures forall v :: ExpiresAt(h, ttl, key, v, ExpiryIn(At(Replay(h, ttl), key), v))
  {
    if h != [] {
      var front, op := h[..|h| - 1], h[|h| - 1];
      ReplayExpiry(front, ttl, key);
      SteppedLookup(Replay(front, ttl), op, ttl, key);
      assert h == front + [op];
      forall v ensures ExpiresAt(h, ttl, key, v, ExpiryIn(At(Replay(h, ttl), key), v)) {
        ExpiresAtStep(front, op, ttl, key, v, ExpiryIn(At(Replay(front, ttl), key), v));
      }
    }
  }

  /**
    The store refines its history, under any clock: a read at `now` lists `v`
    exactly once when a Put of it still stands and is not yet due, else never.
   */
  lemma ListedExactlyWhenPut<V(!new)>(h: seq<Op<V>>, ttl: int, key: string, v: V, now: int)
    ensures multiset(Listing(Live(At(Replay(h, ttl), key), now)))[v] == if Survives(h, ttl, key, v, now) then 1 else 0
  {
    var es := At(Replay(h, ttl), key);
    ReplayExpiry(h, ttl, key);
    LiveLookup(es, now);
    ListedOnce(Live(es, now), v);
    assert ExpiresAt(h, ttl, key, v, ExpiryIn(es, v));
    match ExpiryIn(es, v)
    case None =>
    case Some(e) =>
      var i :| Stands(h, ttl, key, v, i) && e == h[i].at + ttl;
      if Survives(h, ttl, key, v, now) {
        var k :| Stands(h, ttl, key, v, k) && now < h[k].at + ttl;
        OneStands(h, ttl, key, v, i, k);
      }
  }

  /** With a monotone clock only the last write of the value matters. */
  lemma SurvivesByLastWrite<V(!new)>(h: seq<Op<V>>, ttl: int, key: string, v: V, now: int)
    requires Monotone(h, now)
    ensures Survives(h, ttl, key, v, now) <==>
            exists i :: LastWrite(h, key, v, i) && now < h[i].at + ttl
  {
    if Survives(h, ttl, key, v, now) {
      var i :| Stands(h, ttl, key, v, i) && now < h[i].at + ttl;
      forall j | i < j < |h| && h[j].key == key ensures h[j].Got? || h[j].v != v {
        assert Spares(h[j], key, v, h[i].at + ttl);
      }
      assert LastWrite(h, key, v, i);
    }
    if i :| LastWrite(h, key, v, i) && now < h[i].at + ttl {
      assert Stands(h, ttl, key, v, i);
    }
  }

  /** A value put less than a TTL ago and not deleted since is still there. */
  lemma PutKeepsAlive<V(!new)>(h: seq<Op<V>>, ttl: int, key: string, v: V, now: int, i: nat)
    requires Monotone(h, now) && i < |h| && h[i].Put? && h[i].key == key && h[i].v == v && now < h[i].at + ttl
    requires forall j :: i < j < |h| && h[j].Deleted? ==> h[j].key != key || h[j].v != v
    ensures Survives(h, ttl, key, v, now)
    decreases |h| - i
  {
    if j :| i < j < |h| && h[j].Put? && h[j].key == key && h[j].v == v {
      assert h[i].at <= h[j].at;
      PutKeepsAlive(h, ttl, key, v, now, j);
    } else {
      assert LastWrite(h, key, v, i);
      SurvivesByLastWrite(h, ttl, key, v, now);
    }
  }

  /** Without a monotone clock the last write is not enough: a read dated later has already purged. */
  lemma ClockRunningBackLoses()
    ensures var h := [Put("k", 7, 0, 0), Got("k", 20)];
            LastWrite(h, "k", 7, 0) && 5 < h[0].at + 10 && !Survives(h, 10, "k", 7, 5)
  {
    var h := [Put("k", 7, 0, 0), Got("k", 20)];
    forall i ensures !Stands(h, 10, "k", 7, i) {
      if i == 0 { assert !Spares(h[1], "k", 7, 10); }
    }
  }

  // ----- The store itself -----

  lemma {:induction false} LiveSnoc<V>(es: seq<Entry<V>>, e: Entry<V>, now: int)
    ensures Live(es + [e], now) == Live(es, now) + if e.exp > now then [e] else []
  {
    if es != [] {
      assert (es + [e])[1..] == es[1..] + [e];
      LiveSnoc(es[1..], e, now);
    }
  }

  lemma {:induction false} WithoutSnoc<V>(es: seq<Entry<V>>, e: Entry<V>, v: V)
    ensures Without(es + [e], v) == Without(es, v) + if e.v != v then [e] else []
  {
    if es != [] {
      assert (es + [e])[1..] == es[1..] + [e];
      WithoutSnoc(es[1..], e, v);
    }
  }

  /** `out := cur[:0]` then append: the survivors overwrite the front of the same array. */
  method CompactLive<V>(buf: array<Entry<V>>, now: int) returns (m: nat)
    modifies buf
    ensures m <= buf.Length
    ensures buf[..m] == Live(old(buf[..]), now)
  {
    ghost var was := buf[..];
    m := 0;
    for i := 0 to buf.Length
      invariant m <= i
      invariant buf[..m] == Live(was[..i], now)
      invariant forall k :: i <= k < buf.Length ==> buf[k] == was[k]
    {
      var e := buf[i];
      assert was[..i + 1] == was[..i] + [e];
      LiveSnoc(was[..i], e, now);
      if e.exp > now {
        buf[m] := e;
        m := m + 1;
      }
    }
    assert was[..buf.Length] == was;
  }

  method CompactWithout<V(==)>(buf: array<Entry<V>>, v: V) returns (m: nat)
    modifies buf
    ensures m <= buf.Length
    ensures buf[..m] == Without(old(buf[..]), v)
  {
    ghost var was := buf[..];
    m := 0;
    for i := 0 to buf.Length
      invariant m <= i
      invariant buf[..m] == Without(was[..i], v)
      invariant forall k :: i <= k < buf.Length ==> buf[k] == was[k]
    {
      var e := buf[i];
      assert was[..i + 1] == was[..i] + [e];
      WithoutSnoc(was[..i], e, v);
      if e.v != v {
        buf[m] := e;
        m := m + 1;
      }
    }
    assert was[..buf.Length] == was;
  }

  lemma {:induction false} RenewedAt<V>(es: seq<Entry<V>>, v: V, exp: int, i: nat)
    requires i < |es| && es[i].v == v && forall k :: 0 <= k < i ==> es[k].v != v
    ensures Renewed(es, v, exp) == es[i := Entry(v, exp)]
  {
    if i > 0 {
      RenewedAt(es[1..], v, exp, i - 1);
      assert es == [es[0]] + es[1..];
    }
  }

  lemma {:induction false} RenewedAbsent<V>(es: seq<Entry<V>>, v: V, exp: int)
    requires forall k :: 0 <= k < |es| ==> es[k].v != v
    ensures Renewed(es, v, exp) == es + [Entry(v, exp)]
  {
    if es != [] {
      RenewedAbsent(es[1..], v, exp);
      assert es == [es[0]] + es[1..];
    }
  }

  /** Searches for the value and redates it, or appends it. */
  method Renew<V(==)>(cur: seq<Entry<V>>, v: V, exp: int) returns (es: seq<Entry<V>>)
    ensures es == Renewed(cur, v, exp)
  {
    for i := 0 to |cur|
      invariant forall k :: 0 <= k < i ==> cur[k].v != v
    {
      if cur[i].v == v {
        RenewedAt(cur, v, exp, i);
        return cur[i := Entry(v, exp)];
      }
    }
    RenewedAbsent(cur, v, exp);
    es := cur + [Entry(v, exp)];
  }

  const DEFAULT_TTL: int := 600_000_000_000

  class MockStore<V(==, !new)> {
    const ttl: int
    var values: Shelf<V>
    ghost var history: seq<Op<V>>

    ghost predicate Valid()
      reads this
    {
      ttl > 0 && values == Replay(history, ttl)
    }

    constructor (ttl: int)
      ensures Valid() && history == []
      ensures this.ttl == if ttl <= 0 then 600_000_000_000 else ttl
    {
      this.ttl := if ttl <= 0 then DEFAULT_TTL else ttl;
      values, history := map[], [];
    }

    method Purge(key: string, now: int)
      modifies this`values
      ensures values == Purged(old(values), key, now)
    {
      var cur := At(values, key);
      var buf := new Entry<V>[|cur|](i requires 0 <= i < |cur| => cur[i]);
      assert buf[..] == cur;
      var m := CompactLive(buf, now);
      if m == 0 {
        values := values - {key};
      } else {
        values := values[key := buf[..m]];
      }
    }

    /** Every live value, once each. */
    method Get(key: string, now: int) returns (out: seq<V>)
      requires Valid()
      modifies this
      ensures Valid() && history == old(history) + [Got(key, now)]
      ensures out == Listing(Live(At(old(values), key), now))
      ensures forall v :: multiset(out)[v] == if Survives(old(history), ttl, key, v, now) then 1 else 0
    {
      forall v ensures multiset(Listing(Live(At(values, key), now)))[v] ==
                       if Survives(history, ttl, key, v, now) then 1 else 0
      {
        ListedExactlyWhenPut(history, ttl, key, v, now);
      }
      ghost var expected := Listing(Live(At(values, key), now));
      Purge(key, now);
      ReplaySnoc(history, Got(key, now), ttl);
      history := history + [Got(key, now)];
      var es := At(values, key);
      out := [];
      for i := 0 to |es|
        invariant |out| == i
        invariant forall k :: 0 <= k < i ==> out[k] == es[k].v
      {
        out := out + [es[i].v];
      }
      assert out == expected;
    }

    method Put(key: string, v: V, purged: int, now: int)
      requires Valid()
      modifies this
      ensures Valid() && history == old(history) + [Op.Put(key, v, purged, now)]
    {
      Purge(key, purged);
      var es := Renew(At(values, key), v, now + ttl);
      values := values[key := es];
      ReplaySnoc(history, Op.Put(key, v, purged, now), ttl);
      history := history + [Op.Put(key, v, purged, now)];
    }

    method Delete(key: string, v: V)
      requires Valid()
      modifies this
      ensures Valid() && history == old(history) + [Deleted(key, v)]
    {
      var cur := At(values, key);
      var buf := new Entry<V>[|cur|](i requires 0 <= i < |cur| => cur[i]);
      assert buf[..] == cur;
      var m := CompactWithout(buf, v);
      values := values[key := buf[..m]];
      ReplaySnoc(history, Deleted(key, v), ttl);
      history := history + [Deleted(key, v)];
    }
  }
}
