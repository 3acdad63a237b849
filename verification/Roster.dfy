/**
  Folding the values of the shared roster key into "latest record per node"
  and merging several partial reads (internal/mesh/roster.go).
 */
module Rosters {
  import opened Wrappers
  import opened MockStores
  import opened ReliableStores
  import opened Records
  import opened StableSorting
  import Names

  type View = map<string, Body>

  const NANOS_PER_SECOND := 1_000_000_000
  const MAX_AGE: int := 24 * 3600 * NANOS_PER_SECOND
  const ROSTER_KEY := "roster"

  /** `now.Add(-maxAge).Unix()` */
  function Cutoff(now: int): int {
    (now - MAX_AGE) / NANOS_PER_SECOND
  }

  /** One turn of the fold: an equal or higher Seq already held stays. */
  function Keep(view: View, r: Body): View {
    if r.name in view && view[r.name].seqno >= r.seqno then view else view[r.name := r]
  }

  function Fold(rs: seq<Body>): View {
    if rs == [] then map[] else Keep(Fold(rs[..|rs| - 1]), rs[|rs| - 1])
  }

  /** One turn of FetchStable: what is already merged stays on a tie. */
  function Merge(a: View, b: View): View {
    map n | n in a.Keys + b.Keys ::
      if n in a && (n !in b || a[n].seqno >= b[n].seqno) then a[n] else b[n]
  }

  /** The records picked from a list of values, in order. */
  function Chosen<V, R>(pick: V -> Option<R>, vals: seq<V>): seq<R> {
    if vals == [] then []
    else
      Chosen(pick, vals[..|vals| - 1]) +
      match pick(vals[|vals| - 1]) { case Some(r) => [r] case None => [] }
  }

  function Reader(d: Deriver, me: string, cutoff: int): Sealed -> Option<Body> {
    v => Accept(d, me, cutoff, v)
  }

  function Accepted(d: Deriver, me: string, cutoff: int, vals: seq<Sealed>): seq<Body> {
    Chosen(Reader(d, me, cutoff), vals)
  }

  /** A read that succeeded: its values and the freshness cutoff it was folded with. */
  datatype Reading = Reading(vals: seq<Sealed>, cutoff: int)

  function AcceptedAll(d: Deriver, me: string, readings: seq<Reading>): seq<Body> {
    if readings == [] then []
    else
      var last := readings[|readings| - 1];
      AcceptedAll(d, me, readings[..|readings| - 1]) + Accepted(d, me, last.cutoff, last.vals)
  }

  function AllValues(readings: seq<Reading>): seq<Sealed> {
    if readings == [] then [] else AllValues(readings[..|readings| - 1]) + readings[|readings| - 1].vals
  }

  // ----- The fold as a last-writer-wins merge -----

  lemma FoldSnoc(rs: seq<Body>, r: Body)
    ensures Fold(rs + [r]) == Keep(Fold(rs), r)
  {
    assert (rs + [r])[..|rs|] == rs;
  }

  lemma MergeKeep(a: View, b: View, r: Body)
    ensures Keep(Merge(a, b), r) == Merge(a, Keep(b, r))
  {
  }

  /** Folding a concatenation is merging the folds, ties included: earlier wins. */
  lemma {:induction false} FoldHomomorphism(a: seq<Body>, b: seq<Body>)
    ensures Fold(a + b) == Merge(Fold(a), Fold(b))
  {
    if b == [] {
      assert a + b == a;
      assert Merge(Fold(a), map[]) == Fold(a);
    } else {
      var front, r := b[..|b| - 1], b[|b| - 1];
      FoldHomomorphism(a, front);
      assert a + b == (a + front) + [r];
      FoldSnoc(a + front, r);
      MergeKeep(Fold(a), Fold(front), r);
    }
  }

  /** `rs[i]` has the highest Seq of its name, and is the first that does. */
  ghost predicate FirstHighest(rs: seq<Body>, n: string, i: int) {
    && 0 <= i < |rs| && rs[i].name == n
    && forall j :: 0 <= j < |rs| && rs[j].name == n ==>
         rs[j].seqno <= rs[i].seqno && (j < i ==> rs[j].seqno < rs[i].seqno)
  }

  /** The fold picks, for each name that occurs, the first record of highest Seq. */
  lemma {:induction false} FoldPicksFirstHighest(rs: seq<Body>, n: string)
    ensures n in Fold(rs) <==> exists j :: 0 <= j < |rs| && rs[j].name == n
    ensures n in Fold(rs) ==> exists i :: FirstHighest(rs, n, i) && Fold(rs)[n] == rs[i]
  {
    if rs != [] {
      var front, r := rs[..|rs| - 1], rs[|rs| - 1];
      FoldPicksFirstHighest(front, n);
      assert rs == front + [r];
      if n in Fold(front) {
        var i :| FirstHighest(front, n, i) && Fold(front)[n] == front[i];
        FirstHighestSnoc(front, r, n, i);
        assert rs[i].name == n;
      } else if r.name == n {
        forall j | 0 <= j < |front| ensures front[j].name != n { }
        assert FirstHighest(rs, n, |rs| - 1);
      }
    }
  }

  lemma FirstHighestSnoc(rs: seq<Body>, r: Body, n: string, i: int)
    requires FirstHighest(rs, n, i)
    ensures FirstHighest(rs + [r], n, if r.name == n && rs[i].seqno < r.seqno then |rs| else i)
  {
  }

  /** Records that share a name and the highest Seq of that name are the same record. */
  ghost predicate TieFree(rs: seq<Body>) {
    forall i, j :: 0 <= i < |rs| && 0 <= j < |rs| && Tie(rs, i, j) && Highest(rs, i) ==> rs[i] == rs[j]
  }

  ghost predicate Tie(rs: seq<Body>, i: int, j: int)
    requires 0 <= i < |rs| && 0 <= j < |rs|
  {
    rs[i].name == rs[j].name && rs[i].seqno == rs[j].seqno
  }

  ghost predicate Highest(rs: seq<Body>, i: int)
    requires 0 <= i < |rs|
  {
    forall j :: 0 <= j < |rs| && rs[j].name == rs[i].name ==> rs[j].seqno <= rs[i].seqno
  }

  lemma FoldOfSameRecords(rs: seq<Body>, rs': seq<Body>, n: string)
    requires TieFree(rs) && (set r | r in rs) == (set r | r in rs')
    ensures n in Fold(rs) <==> n in Fold(rs')
    ensures n in Fold(rs) ==> Fold(rs)[n] == Fold(rs')[n]
  {
    FoldPicksFirstHighest(rs, n);
    FoldPicksFirstHighest(rs', n);
    var members := set r | r in rs;
    assert forall j :: 0 <= j < |rs| ==> rs[j] in members;
    assert forall j :: 0 <= j < |rs'| ==> rs'[j] in members;
    if n in Fold(rs) {
      var i :| FirstHighest(rs, n, i) && Fold(rs)[n] == rs[i];
      assert rs[i] in rs';
      var i' :| FirstHighest(rs', n, i') && Fold(rs')[n] == rs'[i'];
      assert rs'[i'] in rs;
      assert rs'[i'].seqno == rs[i].seqno;
      var k :| 0 <= k < |rs| && rs[k] == rs'[i'];
      assert Highest(rs, i) && Tie(rs, i, k);
    }
  }

  lemma FrontedMembers(rs: seq<Body>, k: nat)
    requires k < |rs|
    ensures multiset([rs[k]] + (rs[..k] + rs[k + 1..])) == multiset(rs)
  {
    assert rs == rs[..k] + ([rs[k]] + rs[k + 1..]);
  }

  /** A record of highest Seq, moved to the front, is the one the fold picks. */
  lemma FrontedWins(rs: seq<Body>, k: nat)
    requires k < |rs| && Highest(rs, k)
    ensures var rs' := [rs[k]] + (rs[..k] + rs[k + 1..]);
            rs[k].name in Fold(rs') && Fold(rs')[rs[k].name] == rs[k]
  {
    var n, rs' := rs[k].name, [rs[k]] + (rs[..k] + rs[k + 1..]);
    FrontedMembers(rs, k);
    FoldPicksFirstHighest(rs', n);
    assert rs'[0].name == n;
    var m :| FirstHighest(rs', n, m) && Fold(rs')[n] == rs'[m];
    assert rs'[m] in multiset(rs') && rs'[m] in rs;
    assert rs'[m].seqno <= rs[k].seqno;
  }

  /** Of two different tied records, one can be moved to the front to change the fold. */
  lemma TieDecidesFold(rs: seq<Body>, i: nat, j: nat) returns (rs': seq<Body>)
    requires i < |rs| && j < |rs| && Tie(rs, i, j) && Highest(rs, i) && rs[i] != rs[j]
    ensures multiset(rs') == multiset(rs) && Fold(rs') != Fold(rs)
  {
    var n := rs[i].name;
    FoldPicksFirstHighest(rs, n);
    var k := if Fold(rs)[n] == rs[i] then j else i;
    FrontedMembers(rs, k);
    FrontedWins(rs, k);
    rs' := [rs[k]] + (rs[..k] + rs[k + 1..]);
  }

  /**
    The order of the values read does not matter exactly when no two different
    records of one name tie for its highest Seq.
   */
  lemma OrderIrrelevantIffTieFree(rs: seq<Body>)
    ensures TieFree(rs) <==> forall rs' :: multiset(rs') == multiset(rs) ==> Fold(rs') == Fold(rs)
  {
    if TieFree(rs) {
      forall rs' | multiset(rs') == multiset(rs) ensures Fold(rs') == Fold(rs) {
        SameFold(rs, rs');
      }
    } else {
      var i, j :| 0 <= i < |rs| && 0 <= j < |rs| && Tie(rs, i, j) && Highest(rs, i) && rs[i] != rs[j];
      var rs' := TieDecidesFold(rs, i, j);
    }
  }

  lemma SameFold(rs: seq<Body>, rs': seq<Body>)
    requires TieFree(rs) && multiset(rs') == multiset(rs)
    ensures Fold(rs') == Fold(rs)
  {
    forall r ensures r in rs <==> r in multiset(rs') { }
    assert (set r | r in rs) == (set r | r in rs');
    SameRecordsSameFold(rs, rs');
  }

  /** Reading values again, in any order and any number of times, changes nothing. */
  lemma SameRecordsSameFold(rs: seq<Body>, rs': seq<Body>)
    requires TieFree(rs) && (set r | r in rs) == (set r | r in rs')
    ensures Fold(rs) == Fold(rs')
  {
    forall n ensures (n in Fold(rs) <==> n in Fold(rs')) && (n in Fold(rs) ==> Fold(rs)[n] == Fold(rs')[n]) {
      FoldOfSameRecords(rs, rs', n);
    }
  }

  // ----- Accepted values -----

  lemma ChosenSnoc<V, R>(pick: V -> Option<R>, vals: seq<V>, v: V)
    ensures Chosen(pick, vals + [v]) == Chosen(pick, vals) + match pick(v) { case Some(r) => [r] case None => [] }
  {
    assert (vals + [v])[..|vals|] == vals;
  }

  lemma {:induction false} ChosenConcat<V, R>(pick: V -> Option<R>, a: seq<V>, b: seq<V>)
    ensures Chosen(pick, a + b) == Chosen(pick, a) + Chosen(pick, b)
  {
    if b == [] {
      assert a + b == a;
    } else {
      var front, v := b[..|b| - 1], b[|b| - 1];
      ChosenConcat(pick, a, front);
      assert a + b == (a + front) + [v];
      ChosenSnoc(pick, a + front, v);
    }
  }

  lemma {:induction false} ChosenMembers<V(!new), R>(pick: V -> Option<R>, vals: seq<V>, r: R)
    ensures r in Chosen(pick, vals) <==> exists v :: v in vals && pick(v) == Some(r)
  {
    if vals != [] {
      var front, v := vals[..|vals| - 1], vals[|vals| - 1];
      ChosenMembers(pick, front, r);
      assert vals == front + [v];
      if r in Chosen(pick, front) {
        var w :| w in front && pick(w) == Some(r);
        assert w in vals;
      }
      if w :| w in vals && pick(w) == Some(r) {
        assert w in front || w == v;
      }
    }
  }

  /** With one cutoff throughout, several reads count as one read of everything. */
  lemma {:induction false} ReadingsAsOne(d: Deriver, me: string, cutoff: int, readings: seq<Reading>)
    requires forall i :: 0 <= i < |readings| ==> readings[i].cutoff == cutoff
    ensures AcceptedAll(d, me, readings) == Accepted(d, me, cutoff, AllValues(readings))
  {
    if readings != [] {
      var front, last := readings[..|readings| - 1], readings[|readings| - 1];
      ReadingsAsOne(d, me, cutoff, front);
      ChosenConcat(Reader(d, me, cutoff), AllValues(front), last.vals);
    }
  }

  // ----- The methods -----

  datatype Fetched = Fetched(view: View) | ReadError

  /** Which reads of a FetchStable meet a finished context, and what others do to the store in the pause after each. */
  datatype Patience = Patience(doneBefore: nat -> bool, doneInPause: nat -> bool, meanwhile: nat -> seq<Foreign<Sealed>>)

  class Roster {
    const d: Deriver
    const me: string
    const store: ReliableStore<Sealed>

    constructor (d: Deriver, me: string, store: ReliableStore<Sealed>)
      ensures this.d == d && this.me == Names.Normalize(me) && this.store == store
    {
      this.d, this.me, this.store := d, Names.Normalize(me), store;
    }

    /** One read, folded with the cutoff of the moment it came back. */
    method Fetch() returns (r: Fetched)
      requires store.raw.Valid()
      modifies store.raw`step, store.raw`now, store.raw`calls, store.raw.mock
      ensures store.raw.Valid() && store.raw.step == old(store.raw.step) + 1
      ensures store.raw.now == old(store.raw.now) + store.raw.world(old(store.raw.step)).elapsed
      ensures |store.raw.calls| == |old(store.raw.calls)| + 1 && old(store.raw.calls) <= store.raw.calls
      ensures IsRead(store.raw.calls[|old(store.raw.calls)|]) && store.raw.calls[|old(store.raw.calls)|].at == store.raw.now
      ensures r.ReadError? <==> store.raw.world(old(store.raw.step)).failed
      ensures var c := store.raw.calls[|old(store.raw.calls)|];
              r == if c.answer.None? then ReadError else Fetched(Fold(Accepted(d, me, Cutoff(c.at), c.answer.value)))
      ensures r.Fetched? ==> Shows(store.raw.calls[|old(store.raw.calls)|].answer.value, old(store.raw.mock.history), store.raw.mock.ttl,
                                   ROSTER_KEY, store.raw.now, store.raw.world(old(store.raw.step)).visible)
      ensures store.raw.mock.history == old(store.raw.mock.history) + if r.Fetched? then [Got(ROSTER_KEY, store.raw.now)] else []
    {
      hide Shows, RawStore.Valid, Accepted;
      var answer := store.raw.Get(ROSTER_KEY);
      if answer.None? { return ReadError; }
      var out := FoldValues(answer.value, Cutoff(store.raw.now));
      r := Fetched(out);
    }

    method FoldValues(vals: seq<Sealed>, cutoff: int) returns (out: View)
      ensures out == Fold(Accepted(d, me, cutoff, vals))
    {
      out := map[];
      for i := 0 to |vals|
        invariant out == Fold(Accepted(d, me, cutoff, vals[..i]))
      {
        ghost var before := Accepted(d, me, cutoff, vals[..i]);
        assert vals[..i + 1] == vals[..i] + [vals[i]];
        ChosenSnoc(Reader(d, me, cutoff), vals[..i], vals[i]);
        var rec := Reader(d, me, cutoff)(vals[i]);
        if rec.Some? {
          FoldSnoc(before, rec.value);
          out := Keep(out, rec.value);
        } else {
          assert before + [] == before;
        }
      }
      assert vals[..|vals|] == vals;
    }

    /**
      Merges several reads: the fold, in one pass, of what all the reads that
      succeeded accepted. As many reads are made as patience allows, and others
      may put and read in the pauses. The error surfaces exactly when nothing was
      learned, a read failed, and it was not a pause that ended the loop.
     */
    method FetchStable(attempts: int, patience: Patience) returns (r: Fetched, ghost calls: seq<Call<Sealed>>)
      requires store.raw.Valid()
      modifies store.raw`step, store.raw`now, store.raw`calls, store.raw`idle, store.raw.mock
      ensures store.raw.Valid() && store.raw.now >= old(store.raw.now)
      ensures store.raw.calls == old(store.raw.calls) + calls && AllReads(calls)
      ensures ReadsUntilDone(patience, attempts, |calls|)
      ensures r.ReadError? <==>
              && Fold(AcceptedAll(d, me, ReadingsOf(calls))) == map[]
              && ReadFailed(calls)
              && !EndedInPause(patience, attempts, |calls|)
      ensures r.Fetched? ==> r.view == Fold(AcceptedAll(d, me, ReadingsOf(calls)))
      ensures var others := Pauses(patience, Tries(attempts));
              && AllShown(old(store.raw.mock.history), others, old(store.raw.now), store.raw.mock.ttl, store.raw.world, old(store.raw.step), calls)
              && store.raw.mock.history == HistoryBefore(old(store.raw.mock.history), others, calls, |calls|)
              && store.raw.now == TimeBefore(old(store.raw.now), others, calls, |calls|)
    {
      hide RawStore.Valid, Shows, Accepted, ReadFailed, AllReads, AcceptedAll, ReadingsOf, Fold, Merge, AllShown, HistoryBefore, TimeBefore, ForeignOps, Waits;
      ghost var h, t0, first := store.raw.mock.history, store.raw.now, store.raw.step;
      var tries := Tries(attempts);
      ghost var others := Pauses(patience, tries);
      NothingRead(d, me);
      NothingShown(h, others, t0, store.raw.mock.ttl, store.raw.world, first);
      var merged: View := map[];
      var failed := false;
      calls := [];
      var i := 0;
      while i < tries && !patience.doneBefore(i)
        invariant 0 <= i <= tries
        invariant store.raw.Valid() && store.raw.now >= old(store.raw.now)
        invariant store.raw.calls == old(store.raw.calls) + calls && |calls| == i && AllReads(calls) && store.raw.step == first + i
        invariant AllShown(h, others, t0, store.raw.mock.ttl, store.raw.world, first, calls)
        invariant store.raw.mock.history == HistoryBefore(h, others, calls, i) && store.raw.now == TimeBefore(t0, others, calls, i)
        invariant failed <==> ReadFailed(calls)
        invariant merged == Fold(AcceptedAll(d, me, ReadingsOf(calls)))
        invariant forall k :: 0 <= k < i ==> !patience.doneBefore(k)
        invariant forall k :: 0 <= k < i && k + 1 < tries ==> !patience.doneInPause(k)
      {
        var got := Fetch();
        ghost var c := store.raw.calls[|store.raw.calls| - 1];
        MergeRead(d, me, calls, c);
        ReadsSnoc(calls, c);
        ShownSnoc(h, others, t0, store.raw.mock.ttl, store.raw.world, first, calls, c);
        match got {
          case ReadError => failed := true;
          case Fetched(view) => merged := MergeInto(merged, view);
        }
        calls := calls + [c];
        i := i + 1;
        if i < tries { store.raw.Meanwhile(patience.meanwhile(i - 1)); }
        if i < tries && patience.doneInPause(i - 1) {
          return Fetched(merged), calls;
        }
      }
      r := if merged == map[] && failed then ReadError else Fetched(merged);
    }
  }

  function Tries(attempts: int): nat {
    if attempts < 1 then 1 else attempts
  }

  /** Of so many attempts, but at least one, `n` reads are made before the context is found done, ahead of a read or in a pause. */
  ghost predicate ReadsUntilDone(p: Patience, attempts: int, n: nat) {
    var most := if attempts < 1 then 1 else attempts;
    && n <= most
    && (forall k :: 0 <= k < n ==> !p.doneBefore(k))
    && (forall k :: 0 <= k < n - 1 ==> !p.doneInPause(k))
    && (n < most ==> p.doneBefore(n) || (n > 0 && p.doneInPause(n - 1)))
  }

  /** The pause after the `n`th read, which was not the last attempt, was cut short. */
  ghost predicate EndedInPause(p: Patience, attempts: int, n: nat) {
    0 < n < attempts && p.doneInPause(n - 1)
  }

  predicate IsRead(c: Call<Sealed>) {
    c.GetCall? && c.key == ROSTER_KEY
  }

  ghost predicate AllReads(calls: seq<Call<Sealed>>) {
    forall i :: 0 <= i < |calls| ==> IsRead(calls[i])
  }

  ghost predicate ReadFailed(calls: seq<Call<Sealed>>) {
    exists i :: 0 <= i < |calls| && calls[i].GetCall? && calls[i].answer.None?
  }

  lemma ReadsSnoc(calls: seq<Call<Sealed>>, c: Call<Sealed>)
    requires IsRead(c)
    ensures AllReads(calls + [c]) <==> AllReads(calls)
    ensures ReadFailed(calls + [c]) <==> ReadFailed(calls) || c.answer.None?
  {
    var all := calls + [c];
    assert all[|calls|] == c && forall i :: 0 <= i < |calls| ==> all[i] == calls[i];
  }

  lemma NothingRead(d: Deriver, me: string)
    ensures ReadingsOf([]) == [] && AcceptedAll(d, me, []) == [] && Fold([]) == map[] && AllReads([]) && !ReadFailed([])
  {
  }

  // ----- What the reads showed -----

  /** What others do in the pause after each read; after the last there is no pause. */
  ghost function Pauses(p: Patience, tries: nat): nat -> seq<Foreign<Sealed>> {
    (k: nat) => if k + 1 < tries then p.meanwhile(k) else []
  }

  /** The store's history when read number `k` is about to be made: earlier reads that succeeded, and what others did after each. */
  ghost function HistoryBefore(h: seq<Op<Sealed>>, others: nat -> seq<Foreign<Sealed>>, calls: seq<Call<Sealed>>, k: nat): seq<Op<Sealed>>
    requires k <= |calls|
  {
    if k == 0 then h
    else
      var c := calls[k - 1];
      HistoryBefore(h, others, calls, k - 1) + (if c.GetCall? && c.answer.Some? then [Got(ROSTER_KEY, c.at)] else []) +
      ForeignOps(others(k - 1), c.at)
  }

  ghost function TimeBefore(start: int, others: nat -> seq<Foreign<Sealed>>, calls: seq<Call<Sealed>>, k: nat): int
    requires k <= |calls|
  {
    if k == 0 then start else calls[k - 1].at + Waits(others(k - 1))
  }

  /** Read number `k` failed exactly when the world failed it, and otherwise showed what was visible in the store at its moment. */
  ghost predicate ShownAt(h: seq<Op<Sealed>>, others: nat -> seq<Foreign<Sealed>>, start: int, ttl: int, world: nat -> Weather<Sealed>, first: nat,
                          calls: seq<Call<Sealed>>, k: nat)
    requires k < |calls|
  {
    var c, w := calls[k], world(first + k);
    && c.GetCall? && (c.answer.None? <==> w.failed) && c.at == TimeBefore(start, others, calls, k) + w.elapsed
    && (c.answer.Some? ==> Shows(c.answer.value, HistoryBefore(h, others, calls, k), ttl, ROSTER_KEY, c.at, w.visible))
  }

  ghost predicate AllShown(h: seq<Op<Sealed>>, others: nat -> seq<Foreign<Sealed>>, start: int, ttl: int, world: nat -> Weather<Sealed>, first: nat,
                           calls: seq<Call<Sealed>>) {
    forall k :: 0 <= k < |calls| ==> ShownAt(h, others, start, ttl, world, first, calls, k)
  }

  lemma NothingShown(h: seq<Op<Sealed>>, others: nat -> seq<Foreign<Sealed>>, start: int, ttl: int, world: nat -> Weather<Sealed>, first: nat)
    ensures AllShown(h, others, start, ttl, world, first, []) && HistoryBefore(h, others, [], 0) == h && TimeBefore(start, others, [], 0) == start
  {
  }

  /** Later reads change nothing before. */
  lemma {:induction false} HistoryBeforeSnoc(h: seq<Op<Sealed>>, others: nat -> seq<Foreign<Sealed>>, calls: seq<Call<Sealed>>, c: Call<Sealed>, k: nat)
    requires k <= |calls|
    ensures HistoryBefore(h, others, calls + [c], k) == HistoryBefore(h, others, calls, k)
  {
    if k > 0 { HistoryBeforeSnoc(h, others, calls, c, k - 1); }
  }

  lemma StillShown(h: seq<Op<Sealed>>, others: nat -> seq<Foreign<Sealed>>, start: int, ttl: int, world: nat -> Weather<Sealed>, first: nat,
                   calls: seq<Call<Sealed>>, c: Call<Sealed>, k: nat)
    requires k < |calls|
    ensures ShownAt(h, others, start, ttl, world, first, calls + [c], k) <==> ShownAt(h, others, start, ttl, world, first, calls, k)
  {
    HistoryBeforeSnoc(h, others, calls, c, k);
    hide Shows, HistoryBefore;
    var all := calls + [c];
    assert all[k] == calls[k];
    assert k > 0 ==> all[k - 1] == calls[k - 1];
  }

  lemma ShownSnoc(h: seq<Op<Sealed>>, others: nat -> seq<Foreign<Sealed>>, start: int, ttl: int, world: nat -> Weather<Sealed>, first: nat,
                  calls: seq<Call<Sealed>>, c: Call<Sealed>)
    requires AllShown(h, others, start, ttl, world, first, calls) && c.GetCall?
    requires var w := world(first + |calls|);
             && (c.answer.None? <==> w.failed) && c.at == TimeBefore(start, others, calls, |calls|) + w.elapsed
             && (c.answer.Some? ==> Shows(c.answer.value, HistoryBefore(h, others, calls, |calls|), ttl, ROSTER_KEY, c.at, w.visible))
    ensures AllShown(h, others, start, ttl, world, first, calls + [c])
    ensures HistoryBefore(h, others, calls + [c], |calls| + 1) ==
            HistoryBefore(h, others, calls, |calls|) + (if c.answer.Some? then [Got(ROSTER_KEY, c.at)] else []) + ForeignOps(others(|calls|), c.at)
    ensures TimeBefore(start, others, calls + [c], |calls| + 1) == c.at + Waits(others(|calls|))
    ensures others(|calls|) == [] ==> ForeignOps(others(|calls|), c.at) == [] && Waits(others(|calls|)) == 0
  {
    hide Shows;
    var all := calls + [c];
    assert all[|calls|] == c;
    assert |calls| > 0 ==> all[|calls| - 1] == calls[|calls| - 1];
    HistoryBeforeSnoc(h, others, calls, c, |calls|);
    assert ShownAt(h, others, start, ttl, world, first, all, |calls|);
    hide HistoryBefore, ShownAt;
    forall k | 0 <= k < |all| ensures ShownAt(h, others, start, ttl, world, first, all, k) {
      if k < |calls| { StillShown(h, others, start, ttl, world, first, calls, c, k); }
    }
  }

  /** The reads that succeeded, in order, each with the cutoff of its moment. */
  function ReadingsOf(calls: seq<Call<Sealed>>): seq<Reading> {
    if calls == [] then []
    else
      var c := calls[|calls| - 1];
      ReadingsOf(calls[..|calls| - 1]) +
      if c.GetCall? && c.answer.Some? then [Reading(c.answer.value, Cutoff(c.at))] else []
  }

  /** One more read is one more merge, or none if it failed. */
  lemma MergeRead(d: Deriver, me: string, calls: seq<Call<Sealed>>, c: Call<Sealed>)
    requires c.GetCall?
    ensures Fold(AcceptedAll(d, me, ReadingsOf(calls + [c]))) ==
            match c.answer {
              case None => Fold(AcceptedAll(d, me, ReadingsOf(calls)))
              case Some(vals) => Merge(Fold(AcceptedAll(d, me, ReadingsOf(calls))), Fold(Accepted(d, me, Cutoff(c.at), vals)))
            }
  {
    hide Accepted;
    assert (calls + [c])[..|calls|] == calls;
    var before := ReadingsOf(calls);
    if c.answer.Some? {
      AcceptedAllSnoc(d, me, before, Reading(c.answer.value, Cutoff(c.at)));
      FoldHomomorphism(AcceptedAll(d, me, before), Accepted(d, me, Cutoff(c.at), c.answer.value));
    } else {
      assert before + [] == before;
    }
  }

  lemma AcceptedAllSnoc(d: Deriver, me: string, readings: seq<Reading>, reading: Reading)
    ensures AcceptedAll(d, me, readings + [reading]) ==
            AcceptedAll(d, me, readings) + Accepted(d, me, reading.cutoff, reading.vals)
  {
    assert (readings + [reading])[..|readings|] == readings;
  }

  /** Ranges over the new view in any order. */
  method MergeInto(merged: View, got: View) returns (r: View)
    ensures r == Merge(merged, got)
  {
    r := merged;
    var left := got.Keys;
    while left != {}
      invariant left <= got.Keys && r.Keys == merged.Keys + (got.Keys - left)
      invariant forall n :: n in r ==> r[n] == if n in left then merged[n] else Merge(merged, got)[n]
      decreases left
    {
      var n :| n in left;
      if n !in r || r[n].seqno < got[n].seqno {
        r := r[n := got[n]];
      }
      left := left - {n};
    }
  }

  // ----- Names in order -----

  predicate StringBefore(a: string, b: string) {
    if b == "" then false
    else if a == "" then true
    else a[0] < b[0] || (a[0] == b[0] && StringBefore(a[1..], b[1..]))
  }

  lemma {:induction false} StringBeforeTotal(a: string, b: string)
    ensures !(StringBefore(a, b) && StringBefore(b, a))
    ensures StringBefore(a, b) || StringBefore(b, a) || a == b
  {
    if a != "" && b != "" {
      StringBeforeTotal(a[1..], b[1..]);
      assert a == [a[0]] + a[1..] && b == [b[0]] + b[1..];
    }
  }

  lemma {:induction false} StringBeforeWeak(a: string, b: string, c: string)
    requires StringBefore(a, c)
    ensures StringBefore(a, b) || StringBefore(b, c)
  {
    if a != "" && b != "" && a[0] == c[0] == b[0] {
      StringBeforeWeak(a[1..], b[1..], c[1..]);
    }
  }

  /** By bytes: the one is cut short where the other goes on, or has the smaller character where they first differ. */
  lemma {:induction false} StringBeforeIs(a: string, b: string)
    ensures StringBefore(a, b) <==>
            exists k :: 0 <= k <= |a| && k < |b| && a[..k] == b[..k] && (k == |a| || a[k] < b[k])
  {
    if b == "" {
    } else if a == "" {
      assert a[..0] == b[..0];
    } else {
      StringBeforeIs(a[1..], b[1..]);
      if a[0] < b[0] { assert a[..0] == b[..0]; }
      if StringBefore(a, b) && a[0] == b[0] {
        var k :| 0 <= k <= |a[1..]| && k < |b[1..]| && a[1..][..k] == b[1..][..k] && (k == |a[1..]| || a[1..][k] < b[1..][k]);
        assert a[..k + 1] == [a[0]] + a[1..][..k] && b[..k + 1] == [b[0]] + b[1..][..k];
      }
      if k :| 0 < k <= |a| && k < |b| && a[..k] == b[..k] && (k == |a| || a[k] < b[k]) {
        assert a[0] == a[..k][0] == b[..k][0] == b[0];
        assert a[1..][..k - 1] == a[..k][1..] && b[1..][..k - 1] == b[..k][1..];
      }
    }
  }

  lemma StringsAreOrdered()
    ensures StrictWeakOrder(StringBefore)
  {
    forall a, b ensures StringBefore(a, b) ==> !StringBefore(b, a) { StringBeforeTotal(a, b); }
    forall a, b, c ensures StringBefore(a, c) ==> StringBefore(a, b) || StringBefore(b, c) {
      if StringBefore(a, c) { StringBeforeWeak(a, b, c); }
    }
  }

  ghost predicate Ascending(names: seq<string>) {
    forall i, j :: 0 <= i < j < |names| ==> StringBefore(names[i], names[j])
  }

  /** Every name once, in byte order. */
  method SortedNames(all: set<string>) returns (names: seq<string>)
    ensures Ascending(names)
    ensures forall n :: n in names <==> n in all
    ensures |names| == |all|
  {
    var unsorted: seq<string> := [];
    var left := all;
    while left != {}
      invariant left <= all
      invariant forall n :: n in unsorted <==> n in all - left
      invariant forall n :: multiset(unsorted)[n] <= 1
      invariant |unsorted| == |all| - |left|
      decreases left
    {
      var n :| n in left;
      assert n !in unsorted && n !in multiset(unsorted);
      unsorted := unsorted + [n];
      left := left - {n};
    }
    var a := new string[|unsorted|](i requires 0 <= i < |unsorted| => unsorted[i]);
    assert a[..] == unsorted;
    StringsAreOrdered();
    SliceStable(a, StringBefore);
    names := a[..];
    StableSortSorts(StringBefore, unsorted);
    SortedStrings(unsorted, names);
  }

  lemma SortedStrings(unsorted: seq<string>, names: seq<string>)
    requires StablySorts(StringBefore, unsorted, names)
    requires forall n :: multiset(unsorted)[n] <= 1
    ensures Ascending(names)
    ensures |names| == |unsorted| && forall n :: n in names <==> n in unsorted
  {
    assert |names| == |multiset(names)| == |unsorted|;
    forall n ensures n in names <==> n in unsorted {
      assert n in names <==> n in multiset(names);
      assert n in unsorted <==> n in multiset(unsorted);
    }
    forall i, j | 0 <= i < j < |names| ensures StringBefore(names[i], names[j]) {
      StringBeforeTotal(names[i], names[j]);
      assert names[i] == names[j] ==> multiset(names)[names[i]] >= 2 by { CountsTwice(names, i, j); }
    }
  }
}
