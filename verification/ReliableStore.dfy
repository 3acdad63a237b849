/**
  Put-then-confirm publishing (internal/engine/store.go) over a store that may
  fail, may answer with only some of its values, and takes time to answer.
 */
module ReliableStores {
  import opened Wrappers
  import opened MockStores

  /** How the outside world answers one store call or one sleep. */
  datatype Weather<!V> = Weather(
    elapsed: nat,         // nanoseconds that pass first
    failed: bool,         // the call reports an error (for a sleep: the context is done)
    delivered: bool,      // a Put that reports an error may have been stored all the same
    visible: V -> bool)   // a Get may miss values: eventual consistency

  /** One store call, or one sleep between attempts, and when it came back. */
  datatype Call<V> =
    | PutCall(key: string, v: V, ok: bool, at: int)
    | GetCall(key: string, answer: Option<seq<V>>, at: int)
    | SleepCall(ended: bool, at: int)

  /** The call came back the way the world had it: an error exactly when the world failed it. */
  ghost predicate Answered<V>(c: Call<V>, w: Weather<V>) {
    match c
    case PutCall(_, _, ok, _) => ok == !w.failed
    case GetCall(_, answer, _) => answer.Some? == !w.failed
    case SleepCall(ended, _) => ended == w.failed
  }

  /** Call number `k` met weather number `k`. */
  ghost predicate AllAnswered<V(!new)>(calls: seq<Call<V>>, world: nat -> Weather<V>) {
    forall k :: 0 <= k < |calls| ==> Answered(calls[k], world(k))
  }

  lemma AnsweredSnoc<V(!new)>(calls: seq<Call<V>>, c: Call<V>, world: nat -> Weather<V>)
    requires AllAnswered(calls, world) && Answered(c, world(|calls|))
    ensures AllAnswered(calls + [c], world)
  {
  }

  /** How much time the first `k` calls take. */
  ghost function Elapsed<V(!new)>(world: nat -> Weather<V>, k: nat): nat {
    if k == 0 then 0 else Elapsed(world, k - 1) + world(k - 1).elapsed
  }

  /** Somebody else waits and then puts a value, or reads. */
  datatype Foreign<V> = Foreign(wait: nat, key: string, put: Option<V>)

  function ForeignOp<V>(o: Foreign<V>, at: int): Op<V> {
    if o.put.Some? then Op.Put(o.key, o.put.value, at, at) else Got(o.key, at)
  }

  /** How long these take altogether. */
  function Waits<V>(others: seq<Foreign<V>>): nat {
    if others == [] then 0 else Waits(others[..|others| - 1]) + others[|others| - 1].wait
  }

  /** What they leave in the store's history, from time `now` on. */
  function ForeignOps<V>(others: seq<Foreign<V>>, now: int): seq<Op<V>> {
    if others == [] then []
    else
      ForeignOps(others[..|others| - 1], now) + [ForeignOp(others[|others| - 1], now + Waits(others))]
  }

  datatype Outcome = Published | NotPublished | Unavailable | Cancelled

  function Seen<V(!new)>(vs: seq<V>, visible: V -> bool): (r: seq<V>)
    ensures forall v :: v in r <==> v in vs && visible(v)
    ensures multiset(r) <= multiset(vs)
  {
    if vs == [] then []
    else
      assert vs == [vs[0]] + vs[1..];
      (if visible(vs[0]) then [vs[0]] else []) + Seen(vs[1..], visible)
  }

  /** `vs` holds, once each, the values that survive and are visible. */
  ghost predicate Shows<V(!new)>(vs: seq<V>, h: seq<Op<V>>, ttl: int, key: string, now: int, visible: V -> bool) {
    && (forall v :: v in vs <==> visible(v) && Survives(h, ttl, key, v, now))
    && (forall v :: multiset(vs)[v] <= 1)
  }

  lemma SeenShows<V(!new)>(all: seq<V>, h: seq<Op<V>>, ttl: int, key: string, now: int, visible: V -> bool)
    requires forall v :: multiset(all)[v] == if Survives(h, ttl, key, v, now) then 1 else 0
    ensures Shows(Seen(all, visible), h, ttl, key, now, visible)
  {
    forall v ensures v in all <==> Survives(h, ttl, key, v, now) {
      assert v in all <==> multiset(all)[v] > 0;
    }
  }

  function Puts<V>(calls: seq<Call<V>>): nat {
    if calls == [] then 0 else Puts(calls[..|calls| - 1]) + if calls[|calls| - 1].PutCall? then 1 else 0
  }

  predicate Confirms<V(==)>(call: Call<V>, v: V) {
    call.GetCall? && call.answer.Some? && v in call.answer.value
  }

  /** The raw store: a `MockStore` behind the weather. */
  class RawStore<V(==, !new)> {
    const mock: MockStore<V>
    const world: nat -> Weather<V>
    ghost const start: int
    var step: nat
    var now: int
    ghost var calls: seq<Call<V>>
    ghost var idle: nat           // time that passed while others were at work

    ghost predicate Valid()
      reads this, mock
    {
      && mock.Valid() && Monotone(mock.history, now)
      && |calls| == step && AllAnswered(calls, world) && now == start + Elapsed(world, step) + idle
    }

    constructor (mock: MockStore<V>, world: nat -> Weather<V>, now: int)
      requires mock.Valid() && Monotone(mock.history, now)
      ensures Valid() && fresh(this) && this.mock == mock && this.world == world && this.now == now == start && calls == [] && idle == 0
    {
      this.mock, this.world, this.now, this.start := mock, world, now, now;
      step, calls, idle := 0, [], 0;
    }

    method Elapse() returns (w: Weather<V>)
      modifies this`step, this`now
      ensures now == old(now) + w.elapsed && w == world(old(step)) && step == old(step) + 1
    {
      w := world(step);
      step, now := step + 1, now + w.elapsed;
    }

    /** Others are at work on the store; none of it is a call of ours. */
    method Meanwhile(others: seq<Foreign<V>>)
      requires Valid()
      modifies this`now, this`idle, mock
      ensures Valid() && now == old(now) + Waits(others) && mock.history == old(mock.history) + ForeignOps(others, old(now))
    {
      hide MockStore.Valid, Monotone, AllAnswered, Elapsed;
      for i := 0 to |others|
        invariant Valid() && now == old(now) + Waits(others[..i])
        invariant mock.history == old(mock.history) + ForeignOps(others[..i], old(now))
      {
        assert others[..i + 1][..i] == others[..i];
        var o := others[i];
        MonotoneLater(mock.history, now, now + o.wait);
        now, idle := now + o.wait, idle + o.wait;
        MonotoneSnoc(mock.history, ForeignOp(o, now), now);
        if o.put.Some? { mock.Put(o.key, o.put.value, now, now); } else { var _ := mock.Get(o.key, now); }
      }
      assert others[..|others|] == others;
    }

    /** Sleeps between attempts; `ended` when the context was done first. */
    method Sleep() returns (ended: bool)
      requires Valid()
      modifies this`step, this`now, this`calls
      ensures Valid() && now >= old(now) && step == old(step) + 1 && calls == old(calls) + [SleepCall(ended, now)]
      ensures ended == world(old(step)).failed
    {
      hide MockStore.Valid, Monotone, AllAnswered;
      var w := Elapse();
      MonotoneLater(mock.history, old(now), now);
      ended := w.failed;
      AnsweredSnoc(calls, SleepCall(ended, now), world);
      calls := calls + [SleepCall(ended, now)];
    }

    method Put(key: string, v: V) returns (ok: bool)
      requires Valid()
      modifies this`step, this`now, this`calls, mock
      ensures Valid() && now >= old(now) && step == old(step) + 1 && calls == old(calls) + [PutCall(key, v, ok, now)]
      ensures ok == !world(old(step)).failed
      ensures mock.history == if ok || world(old(step)).delivered then old(mock.history) + [Op.Put(key, v, now, now)] else old(mock.history)
      ensures OnlyPublishes(old(mock.history), mock.history, key, v, old(now), now)
      ensures ok ==> PutSince(old(mock.history), mock.history)
    {
      hide MockStore.Valid, Monotone, AllAnswered;
      var w := Elapse();
      MonotoneLater(mock.history, old(now), now);
      if !w.failed || w.delivered {
        MonotoneSnoc(mock.history, Op.Put(key, v, now, now), now);
        mock.Put(key, v, now, now);
        assert mock.history[|old(mock.history)|].Put?;
      }
      ok := !w.failed;
      AnsweredSnoc(calls, PutCall(key, v, ok, now), world);
      calls := calls + [PutCall(key, v, ok, now)];
    }

    method Get(key: string) returns (answer: Option<seq<V>>)
      requires Valid()
      modifies this`step, this`now, this`calls, mock
      ensures Valid() && now >= old(now) && step == old(step) + 1 && calls == old(calls) + [GetCall(key, answer, now)]
      ensures answer.None? <==> world(old(step)).failed
      ensures now == old(now) + world(old(step)).elapsed
      ensures answer.None? ==> mock.history == old(mock.history)
      ensures answer.Some? ==> mock.history == old(mock.history) + [Got(key, now)]
      ensures answer.Some? ==> Shows(answer.value, old(mock.history), mock.ttl, key, now, world(old(step)).visible)
    {
      hide MockStore.Valid, Monotone, Shows, AllAnswered;
      var w := Elapse();
      MonotoneLater(mock.history, old(now), now);
      if w.failed {
        answer := None;
      } else {
        ghost var h := mock.history;
        MonotoneSnoc(h, Got(key, now), now);
        var all := mock.Get(key, now);
        SeenShows(all, h, mock.ttl, key, now, w.visible);
        answer := Some(Seen(all, w.visible));
      }
      AnsweredSnoc(calls, GetCall(key, answer, now), world);
      calls := calls + [GetCall(key, answer, now)];
    }
  }

  /** What a publish may do to the store's history: put this value, read this key. */
  ghost predicate OnlyPublishes<V(!new)>(before: seq<Op<V>>, after: seq<Op<V>>, key: string, v: V, since: int, until: int) {
    && before <= after
    && forall i :: |before| <= i < |after| ==>
         && after[i].key == key && !after[i].Deleted? && since <= after[i].at <= until
         && (after[i].Put? ==> after[i].v == v && after[i].purged == after[i].at)
  }

  class ReliableStore<V(==, !new)> {
    const raw: RawStore<V>
    const maxRetries: int

    constructor (raw: RawStore<V>, maxRetries: int)
      ensures this.raw == raw && this.maxRetries == maxRetries
    {
      this.raw, this.maxRetries := raw, maxRetries;
    }

    /** Whether a read of `key` shows exactly `v`. */
    method Confirm(key: string, v: V) returns (ok: bool, ghost got: Call<V>)
      requires raw.Valid()
      modifies raw`step, raw`now, raw`calls, raw.mock
      ensures raw.Valid() && raw.now >= old(raw.now)
      ensures raw.calls == old(raw.calls) + [got] && got.GetCall? && got.key == key
      ensures ok <==> Confirms(got, v)
      ensures OnlyPublishes(old(raw.mock.history), raw.mock.history, key, v, old(raw.now), raw.now)
    {
      hide RawStore.Valid, Shows;
      var answer := raw.Get(key);
      got := GetCall(key, answer, raw.now);
      if answer.None? { return false, got; }
      var shown := answer.value;
      for i := 0 to |shown|
        invariant forall k :: 0 <= k < i ==> shown[k] != v
        modifies {}
      {
        if shown[i] == v { return true, got; }
      }
      ok := false;
    }

    /** One put and, if it was accepted, one confirming read. */
    method Attempt(key: string, v: V) returns (accepted: bool, shown: bool, ghost made: seq<Call<V>>)
      requires raw.Valid()
      modifies raw`step, raw`now, raw`calls, raw.mock
      ensures raw.Valid() && raw.now >= old(raw.now)
      ensures raw.calls == old(raw.calls) + made
      ensures AttemptMade(made, key, v, accepted, shown) && (shown ==> accepted)
      ensures OnlyPublishes(old(raw.mock.history), raw.mock.history, key, v, old(raw.now), raw.now)
      ensures accepted ==> PutSince(old(raw.mock.history), raw.mock.history)
    {
      hide RawStore.Valid;
      accepted := raw.Put(key, v);
      ghost var put := raw.calls[|old(raw.calls)|];
      if !accepted {
        return false, false, [put];
      }
      ghost var h, now := raw.mock.history, raw.now;
      ghost var got;
      shown, got := Confirm(key, v);
      made := [put, got];
      PublishesCompose(old(raw.mock.history), h, raw.mock.history, key, v, old(raw.now), now, raw.now);
    }

    /**
      Publishes with retries, and makes exactly the calls that its outcome
      tells of. In particular success is reported exactly when a read after a
      put showed the value, it gives up only after max(0, maxRetries) + 1
      attempts, and it is cancelled exactly when a sleep ended early.
     */
    method Publish(key: string, v: V) returns (r: Outcome, ghost made: seq<Call<V>>)
      requires raw.Valid()
      modifies raw`step, raw`now, raw`calls, raw.mock
      ensures raw.Valid() && raw.now >= old(raw.now)
      ensures raw.calls == old(raw.calls) + made
      ensures PublishRan(made, key, v, Retries(maxRetries), r)
      ensures 1 <= Puts(made) <= (if maxRetries > 0 then maxRetries else 0) + 1
      ensures r.NotPublished? || r.Unavailable? ==> Puts(made) == (if maxRetries > 0 then maxRetries else 0) + 1
      ensures r.Cancelled? ==> Puts(made) <= maxRetries
      ensures r.Published? <==> !NoneConfirms(made, v)
      ensures r.Published? <==> ReadShows(made, v)
      ensures OnlyPublishes(old(raw.mock.history), raw.mock.history, key, v, old(raw.now), raw.now)
      ensures PutAccepted(made, key, v) ==> PutSince(old(raw.mock.history), raw.mock.history)
    {
      hide RawStore.Valid, PutSince, OnlyPublishes, AttemptMade, Retried, FailedThenSlept, Puts, NoneConfirms, Confirms, PutAccepted, PublishRan, ReadShows;
      made := [];
      var attempt := 0;
      RetriedStart(key, v);
      PublishesNothing(raw.mock.history, key, v, raw.now);
      while true
        invariant raw.Valid() && raw.now >= old(raw.now)
        invariant raw.calls == old(raw.calls) + made
        invariant Retried(made, key, v, attempt) && attempt <= Retries(maxRetries)
        invariant OnlyPublishes(old(raw.mock.history), raw.mock.history, key, v, old(raw.now), raw.now)
        invariant PutAccepted(made, key, v) ==> PutSince(old(raw.mock.history), raw.mock.history)
        decreases Retries(maxRetries) - attempt
      {
        ghost var earlier, h, now := made, raw.mock.history, raw.now;
        var accepted, shown, last := Attempt(key, v);
        PublishesCompose(old(raw.mock.history), h, raw.mock.history, key, v, old(raw.now), now, raw.now);
        AttemptPuts(earlier, last, key, v, accepted, shown);
        made := earlier + last;
        if shown {
          PublishEnds(earlier, last, key, v, attempt, Retries(maxRetries), Published);
          return Published, made;
        }
        if attempt >= maxRetries {
          r := if accepted then NotPublished else Unavailable;
          PublishEnds(earlier, last, key, v, attempt, Retries(maxRetries), r);
          return;
        }
        now := raw.now;
        var ended := raw.Sleep();
        ghost var slept := last + [SleepCall(ended, raw.now)];
        SleptAfter(earlier, last, key, v, accepted, ended, raw.now);
        PublishesLater(old(raw.mock.history), raw.mock.history, key, v, old(raw.now), now, raw.now);
        made := earlier + slept;
        if ended {
          PublishEnds(earlier, slept, key, v, attempt, Retries(maxRetries), Cancelled);
          return Cancelled, made;
        }
        RetriedMore(earlier, slept, key, v, attempt);
        attempt := attempt + 1;
      }
    }
  }

  function Retries(maxRetries: int): nat {
    if maxRetries > 0 then maxRetries else 0
  }

  lemma PublishesCompose<V(!new)>(a: seq<Op<V>>, b: seq<Op<V>>, c: seq<Op<V>>, key: string, v: V, t0: int, t1: int, t2: int)
    requires OnlyPublishes(a, b, key, v, t0, t1) && OnlyPublishes(b, c, key, v, t1, t2) && t0 <= t1 <= t2
    ensures OnlyPublishes(a, c, key, v, t0, t2)
    ensures PutSince(a, b) || PutSince(b, c) ==> PutSince(a, c)
  {
    if PutSince(a, b) {
      var i :| |a| <= i < |b| && b[i].Put?;
      assert c[i] == b[i];
    }
  }

  lemma PublishesNothing<V(!new)>(h: seq<Op<V>>, key: string, v: V, now: int)
    ensures OnlyPublishes(h, h, key, v, now, now) && !PutAccepted([], key, v)
  {
  }

  lemma PublishesLater<V(!new)>(a: seq<Op<V>>, b: seq<Op<V>>, key: string, v: V, t0: int, t1: int, t2: int)
    requires OnlyPublishes(a, b, key, v, t0, t1) && t1 <= t2
    ensures OnlyPublishes(a, b, key, v, t0, t2)
  {
  }

  ghost predicate PutSince<V(!new)>(before: seq<Op<V>>, after: seq<Op<V>>) {
    exists i :: |before| <= i < |after| && after[i].Put?
  }

  /** Some put of the value was accepted. */
  ghost predicate PutAccepted<V>(calls: seq<Call<V>>, key: string, v: V) {
    exists i :: 0 <= i < |calls| && calls[i].PutCall? && calls[i].key == key && calls[i].v == v && calls[i].ok
  }

  ghost predicate NoneConfirms<V>(calls: seq<Call<V>>, v: V) {
    forall c :: c in calls ==> !Confirms(c, v)
  }

  // ----- The calls of a publish -----

  ghost predicate AttemptMade<V>(made: seq<Call<V>>, key: string, v: V, accepted: bool, shown: bool) {
    && |made| == (if accepted then 2 else 1)
    && made[0].PutCall? && made[0].key == key && made[0].v == v && made[0].ok == accepted
    && (accepted ==> made[1].GetCall? && made[1].key == key && (shown <==> Confirms(made[1], v)))
    && (shown ==> accepted)
  }

  ghost predicate FailedAttempt<V>(made: seq<Call<V>>, key: string, v: V) {
    AttemptMade(made, key, v, true, false) || AttemptMade(made, key, v, false, false)
  }

  /** An attempt that did not show the value, then a sleep. */
  ghost predicate FailedThenSlept<V>(made: seq<Call<V>>, key: string, v: V, ended: bool) {
    && made != [] && made[|made| - 1].SleepCall? && made[|made| - 1].ended == ended
    && FailedAttempt(made[..|made| - 1], key, v)
  }

  /** `n` failed attempts, each followed by a whole sleep. */
  ghost predicate Retried<V>(made: seq<Call<V>>, key: string, v: V, n: nat)
    decreases n
  {
    if n == 0 then made == []
    else exists cut :: 0 <= cut <= |made| && Retried(made[..cut], key, v, n - 1) && FailedThenSlept(made[cut..], key, v, false)
  }

  /** How the attempt that decided the outcome went; `final` when no retry was left. */
  ghost predicate LastAttempt<V>(made: seq<Call<V>>, key: string, v: V, final: bool, r: Outcome) {
    match r
    case Published => AttemptMade(made, key, v, true, true)
    case NotPublished => final && AttemptMade(made, key, v, true, false)
    case Unavailable => final && AttemptMade(made, key, v, false, false)
    case Cancelled => !final && FailedThenSlept(made, key, v, true)
  }

  /** Exactly the calls of a publish with `retries` retries that ended as `r`. */
  ghost predicate PublishRan<V>(made: seq<Call<V>>, key: string, v: V, retries: nat, r: Outcome) {
    exists n, cut :: PublishCut(made, key, v, retries, r, n, cut)
  }

  ghost predicate PublishCut<V>(made: seq<Call<V>>, key: string, v: V, retries: nat, r: Outcome, n: nat, cut: nat) {
    n <= retries && cut <= |made| && Retried(made[..cut], key, v, n) && LastAttempt(made[cut..], key, v, n == retries, r)
  }

  lemma RetriedStart<V>(key: string, v: V)
    ensures Retried([], key, v, 0)
  {
  }

  lemma RetriedMore<V>(earlier: seq<Call<V>>, slept: seq<Call<V>>, key: string, v: V, n: nat)
    requires Retried(earlier, key, v, n) && FailedThenSlept(slept, key, v, false)
    ensures Retried(earlier + slept, key, v, n + 1)
  {
    var made := earlier + slept;
    assert made[..|earlier|] == earlier && made[|earlier|..] == slept;
  }

  lemma {:induction false} RetriedCounts<V>(made: seq<Call<V>>, key: string, v: V, n: nat)
    requires Retried(made, key, v, n)
    ensures Puts(made) == n && NoneConfirms(made, v)
    decreases n
  {
    hide FailedThenSlept, Puts;
    if n == 0 {
      assert Puts<V>([]) == 0 by { PutsNone<V>(); }
    } else {
      var cut :| 0 <= cut <= |made| && Retried(made[..cut], key, v, n - 1) && FailedThenSlept(made[cut..], key, v, false);
      RetriedCounts(made[..cut], key, v, n - 1);
      assert made == made[..cut] + made[cut..];
      SleptCounts(made[..cut], made[cut..], key, v, false);
    }
  }

  lemma SleptCounts<V>(earlier: seq<Call<V>>, slept: seq<Call<V>>, key: string, v: V, ended: bool)
    requires FailedThenSlept(slept, key, v, ended)
    ensures Puts(earlier + slept) == Puts(earlier) + 1
    ensures NoneConfirms(earlier, v) ==> NoneConfirms(earlier + slept, v)
  {
    var last, sleep := slept[..|slept| - 1], slept[|slept| - 1];
    AttemptPuts(earlier, last, key, v, |last| == 2, false);
    assert earlier + slept == (earlier + last) + [sleep];
    PutsSnoc(earlier + last, sleep);
  }

  /** The decisive attempt closes the run of calls, and with it the counts. */
  lemma PublishEnds<V>(earlier: seq<Call<V>>, last: seq<Call<V>>, key: string, v: V, n: nat, retries: nat, r: Outcome)
    requires Retried(earlier, key, v, n) && n <= retries && LastAttempt(last, key, v, n == retries, r)
    ensures PublishRan(earlier + last, key, v, retries, r)
    ensures Puts(earlier + last) == n + 1
    ensures r.Published? <==> !NoneConfirms(earlier + last, v)
    ensures !NoneConfirms(earlier + last, v) <==> ReadShows(earlier + last, v)
  {
    var made := earlier + last;
    ConfirmedIsShown(made, v);
    assert made[..|earlier|] == earlier && made[|earlier|..] == last;
    assert PublishCut(made, key, v, retries, r, n, |earlier|);
    RetriedCounts(earlier, key, v, n);
    match r
    case Published =>
      AttemptPuts(earlier, last, key, v, true, true);
      assert last[1] in made;
    case NotPublished => AttemptPuts(earlier, last, key, v, true, false);
    case Unavailable => AttemptPuts(earlier, last, key, v, false, false);
    case Cancelled => SleptCounts(earlier, last, key, v, true);
  }

  /** Some read that succeeded showed the value. */
  ghost predicate ReadShows<V>(calls: seq<Call<V>>, v: V) {
    exists k :: 0 <= k < |calls| && calls[k].GetCall? && calls[k].answer.Some? && v in calls[k].answer.value
  }

  lemma ConfirmedIsShown<V>(calls: seq<Call<V>>, v: V)
    ensures !NoneConfirms(calls, v) <==> ReadShows(calls, v)
  {
    if ReadShows(calls, v) {
      var k :| 0 <= k < |calls| && calls[k].GetCall? && calls[k].answer.Some? && v in calls[k].answer.value;
      assert calls[k] in calls && Confirms(calls[k], v);
    }
  }

  ghost predicate PutsOnly<V>(made: seq<Call<V>>, key: string, v: V) {
    forall i :: 0 <= i < |made| && made[i].PutCall? ==> made[i].key == key && made[i].v == v
  }

  lemma PutsOnlyConcat<V>(a: seq<Call<V>>, b: seq<Call<V>>, key: string, v: V)
    requires PutsOnly(a, key, v) && PutsOnly(b, key, v) && b != [] && b[0].PutCall? && (a != [] ==> a[0].PutCall?)
    ensures PutsOnly(a + b, key, v) && (a + b)[0].PutCall?
  {
  }

  lemma SleptPutsOnly<V>(made: seq<Call<V>>, key: string, v: V, ended: bool)
    requires FailedThenSlept(made, key, v, ended)
    ensures PutsOnly(made, key, v) && made != [] && made[0].PutCall?
  {
    var last := made[..|made| - 1];
    assert forall i :: 0 <= i < |last| ==> made[i] == last[i];
  }

  lemma {:induction false} RetriedPutsOnly<V>(made: seq<Call<V>>, key: string, v: V, n: nat)
    requires Retried(made, key, v, n)
    ensures PutsOnly(made, key, v) && (made != [] ==> made[0].PutCall?)
    decreases n
  {
    hide FailedThenSlept;
    if n > 0 {
      var cut :| 0 <= cut <= |made| && Retried(made[..cut], key, v, n - 1) && FailedThenSlept(made[cut..], key, v, false);
      hide PutsOnly, Retried;
      var earlier, last := made[..cut], made[cut..];
      RetriedPutsOnly(earlier, key, v, n - 1);
      SleptPutsOnly(last, key, v, false);
      PutsOnlyConcat(earlier, last, key, v);
      assert made == earlier + last;
    }
  }

  lemma LastPutsOnly<V>(made: seq<Call<V>>, key: string, v: V, final: bool, r: Outcome)
    requires LastAttempt(made, key, v, final, r)
    ensures PutsOnly(made, key, v) && made != [] && made[0].PutCall?
  {
    if r.Cancelled? { SleptPutsOnly(made, key, v, true); }
  }

  /** A publish begins with a put and puts nothing but its value. */
  lemma PublishPutsOnly<V>(made: seq<Call<V>>, key: string, v: V, retries: nat, r: Outcome)
    requires PublishRan(made, key, v, retries, r)
    ensures made != [] && made[0].PutCall? && PutsOnly(made, key, v)
  {
    var n: nat, cut: nat :| PublishCut(made, key, v, retries, r, n, cut);
    var last := made[cut..];
    RetriedPutsOnly(made[..cut], key, v, n);
    LastPutsOnly(last, key, v, n == retries, r);
    hide Retried, LastAttempt, PutsOnly;
    PutsOnlyConcat(made[..cut], last, key, v);
    assert made == made[..cut] + last;
  }

  lemma PublishedWasAccepted<V>(made: seq<Call<V>>, key: string, v: V, retries: nat)
    requires PublishRan(made, key, v, retries, Published)
    ensures PutAccepted(made, key, v)
  {
    var n: nat, cut: nat :| PublishCut(made, key, v, retries, Published, n, cut);
    assert made[cut] == made[cut..][0];
  }

  lemma SleptAfter<V>(earlier: seq<Call<V>>, last: seq<Call<V>>, key: string, v: V, accepted: bool, ended: bool, at: int)
    requires AttemptMade(last, key, v, accepted, false)
    ensures FailedThenSlept(last + [SleepCall(ended, at)], key, v, ended)
    ensures PutAccepted(earlier + (last + [SleepCall(ended, at)]), key, v) ==> PutAccepted(earlier + last, key, v)
  {
    var slept := last + [SleepCall(ended, at)];
    assert slept[..|last|] == last;
    var made := earlier + slept;
    if PutAccepted(made, key, v) {
      var i :| 0 <= i < |made| && made[i].PutCall? && made[i].key == key && made[i].v == v && made[i].ok;
      assert made[i] == (earlier + last)[i];
    }
  }

  lemma AttemptPuts<V>(earlier: seq<Call<V>>, made: seq<Call<V>>, key: string, v: V, accepted: bool, shown: bool)
    requires AttemptMade(made, key, v, accepted, shown)
    ensures Puts(earlier + made) == Puts(earlier) + 1
    ensures !shown && NoneConfirms(earlier, v) ==> NoneConfirms(earlier + made, v)
    ensures PutAccepted(earlier + made, key, v) ==> PutAccepted(earlier, key, v) || accepted
  {
    PutsSnoc(earlier, made[0]);
    if accepted {
      assert earlier + made == earlier + [made[0]] + [made[1]];
      PutsSnoc(earlier + [made[0]], made[1]);
    } else {
      assert earlier + made == earlier + [made[0]];
    }
    var all := earlier + made;
    if PutAccepted(all, key, v) && !accepted {
      var i :| 0 <= i < |all| && all[i].PutCall? && all[i].key == key && all[i].v == v && all[i].ok;
      assert all[i] == earlier[i];
    }
  }

  lemma PutsNone<V>()
    ensures Puts<V>([]) == 0
  {
  }

  lemma PutsSnoc<V>(calls: seq<Call<V>>, c: Call<V>)
    ensures Puts(calls + [c]) == Puts(calls) + if c.PutCall? then 1 else 0
  {
    assert (calls + [c])[..|calls|] == calls;
  }
}
