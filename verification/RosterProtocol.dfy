/**
  The roster as a protocol: any number of daemons, restarting at will, post
  records under one TTL key while others read it and outsiders write to it.
 */
module RosterProtocol {
  import opened Wrappers
  import opened MockStores
  import opened ReliableStores
  import opened Records
  import opened Rosters
  import Names

  const TWO_63: int := 0x8000_0000_0000_0000
  const TWO_64: int := 0x1_0000_0000_0000_0000

  /** `Daemon.nextSeq`: a zero counter is first seeded with the unix time; uint64 wraps. */
  function NextSeq(seqno: nat, unixNow: nat): nat {
    ((if seqno == 0 then unixNow else seqno) + 1) % TWO_64
  }

  datatype Pending = Pending(value: Sealed, rec: Body)

  /** A running daemon; `stepped` is when it started or last took a sequence number. */
  datatype NodeState = NodeState(seqno: nat, stepped: int, pending: Option<Pending>)

  /** A node's most recent put: what, when, and which store call it was. */
  datatype Post = Post(value: Sealed, rec: Body, at: int, index: nat)

  datatype World = World(now: nat, history: seq<Op<Sealed>>, nodes: map<string, NodeState>, last: map<string, Post>)

  datatype Event =
    | Start(name: string)
    | Prepare(name: string, nonce: nat, port: int, candidates: seq<Candidate>, adv: seq<string>)
    | PutPending(name: string)
    | Read
    | Outsider(key: string, v: Sealed)
    | Advance(ns: nat)

  ghost predicate Initial(w: World) {
    w.now < TWO_63 && w.history == [] && w.nodes == map[] && w.last == map[]
  }

  /**
    One process per name, and no two sequence numbers of a process in one
    nanosecond. Outsiders may write anything that is not a genuine record.
   */
  ghost predicate Enabled(d: Deriver, w: World, e: Event) {
    match e
    case Start(name) => Names.Valid(name) && d.overlayOf(name).Some?
    case Prepare(name, _, _, _, _) => name in w.nodes && w.nodes[name].stepped < w.now && d.overlayOf(name).Some?
    case PutPending(name) => name in w.nodes && w.nodes[name].pending.Some?
    case Read => true
    case Outsider(key, v) => key == ROSTER_KEY ==> Genuine(d, v).None?
    case Advance(ns) => w.now + ns < TWO_63
  }

  /** The record a Tick signs and seals (daemon.go:195-214). */
  function Drafted(d: Deriver, w: World, e: Event): Pending
    requires e.Prepare? && e.name in w.nodes && d.overlayOf(e.name).Some?
  {
    var seqno := NextSeq(w.nodes[e.name].seqno, w.now / NANOS_PER_SECOND);
    var body := Body(e.name, d.overlayOf(e.name).value, e.port, e.candidates, e.adv,
                     w.now / NANOS_PER_SECOND, seqno, NotAKey);
    var rec := Sign(body, PublicKeyOf(d, e.name));
    Pending(Seal(d, e.nonce, rec), rec.body)
  }

  function Next(d: Deriver, w: World, e: Event): World
    requires e.Prepare? ==> e.name in w.nodes && d.overlayOf(e.name).Some?
    requires e.PutPending? ==> e.name in w.nodes && w.nodes[e.name].pending.Some?
  {
    match e
    case Start(name) => w.(nodes := w.nodes[name := NodeState(w.now % TWO_64, w.now, None)])
    case Prepare(name, _, _, _, _) =>
      var p := Drafted(d, w, e);
      w.(nodes := w.nodes[name := NodeState(p.rec.seqno, w.now, Some(p))])
    case PutPending(name) =>
      var p := w.nodes[name].pending.value;
      w.(history := w.history + [Put(ROSTER_KEY, p.value, w.now, w.now)],
         last := w.last[name := Post(p.value, p.rec, w.now, |w.history|)])
    case Read => w.(history := w.history + [Got(ROSTER_KEY, w.now)])
    case Outsider(key, v) => w.(history := w.history + [Put(key, v, w.now, w.now)])
    case Advance(ns) => w.(now := w.now + ns)
  }

  /** `w` is reached from an initial world by some run of enabled events. */
  ghost predicate Reachable(d: Deriver, w: World) {
    exists run: seq<World>, es: seq<Event> :: IsRun(d, run, es) && run[|es|] == w
  }

  ghost predicate IsRun(d: Deriver, run: seq<World>, es: seq<Event>) {
    IsPath(d, run, es) && Initial(run[0])
  }

  /** Enabled events lead from each world to the next. */
  ghost predicate IsPath(d: Deriver, run: seq<World>, es: seq<Event>) {
    && |run| == |es| + 1
    && forall i :: 0 <= i < |es| ==> IsStep(d, run[i], es[i], run[i + 1])
  }

  ghost predicate IsStep(d: Deriver, w: World, e: Event, w': World) {
    Enabled(d, w, e) && w' == Next(d, w, e)
  }

  // ----- The invariant -----

  ghost predicate NodeOk(d: Deriver, w: World, n: string)
    requires n in w.nodes
  {
    var s := w.nodes[n];
    && Names.Valid(n)
    && s.seqno <= s.stepped <= w.now
    && (s.pending.Some? ==> PendingOk(d, w, n, s.pending.value, s.seqno))
  }

  ghost predicate PendingOk(d: Deriver, w: World, n: string, p: Pending, seqno: nat) {
    && Genuine(d, p.value) == Some(p.rec)
    && p.rec.name == n && p.rec.seqno == seqno && p.rec.ts <= w.now / NANOS_PER_SECOND
    && (n in w.last ==>
          var l := w.last[n];
          && l.rec.seqno <= p.rec.seqno && l.rec.ts <= p.rec.ts
          && (l.rec.seqno == p.rec.seqno ==> l.rec == p.rec))
  }

  ghost predicate PostOk(d: Deriver, w: World, n: string)
    requires n in w.last
  {
    var l := w.last[n];
    && n in w.nodes && l.rec.seqno <= w.nodes[n].seqno
    && Genuine(d, l.value) == Some(l.rec)
    && l.rec.name == n && l.rec.ts <= w.now / NANOS_PER_SECOND && l.at <= w.now
    && LastWrite(w.history, ROSTER_KEY, l.value, l.index) && w.history[l.index].at == l.at
  }

  /** A genuine value put at `at` is no newer than its node's most recent post. */
  ghost predicate NoNewer(d: Deriver, last: map<string, Post>, v: Sealed, at: int) {
    Genuine(d, v).Some? ==>
      var r := Genuine(d, v).value;
      && r.name in last
      && r.seqno <= last[r.name].rec.seqno && r.ts <= last[r.name].rec.ts && at <= last[r.name].at
      && (r.seqno == last[r.name].rec.seqno ==> r == last[r.name].rec)
  }

  ghost predicate HistoryOk(d: Deriver, w: World) {
    && Monotone(w.history, w.now)
    && (forall i :: 0 <= i < |w.history| ==> !w.history[i].Deleted?)
    && (forall i :: 0 <= i < |w.history| && w.history[i].Put? && w.history[i].key == ROSTER_KEY ==>
          NoNewer(d, w.last, w.history[i].v, w.history[i].at))
  }

  ghost predicate Inv(d: Deriver, w: World) {
    && w.now < TWO_63
    && (forall n :: n in w.nodes ==> NodeOk(d, w, n))
    && (forall n :: n in w.last ==> PostOk(d, w, n))
    && HistoryOk(d, w)
  }

  /** Sequence numbers strictly grow and never outrun the nanosecond clock, so no restart reuses one. */
  lemma NextSeqGrows(seqno: nat, stepped: int, now: int)
    requires seqno <= stepped < now < TWO_63
    ensures seqno < NextSeq(seqno, now / NANOS_PER_SECOND) <= now
  {
  }

  lemma DraftedOk(d: Deriver, w: World, e: Event)
    requires Inv(d, w) && e.Prepare? && Enabled(d, w, e)
    ensures var p := Drafted(d, w, e);
            PendingOk(d, w, e.name, p, p.rec.seqno) && w.nodes[e.name].seqno < p.rec.seqno <= w.now
  {
    assert NodeOk(d, w, e.name);
    var s := w.nodes[e.name];
    NextSeqGrows(s.seqno, s.stepped, w.now);
    var p := Drafted(d, w, e);
    var body := p.rec.(pk := NotAKey);
    SealedRecordRoundTrip(d, e.nonce, body);
    assert e.name in w.last ==> PostOk(d, w, e.name);
  }

  lemma LastWriteSnoc(h: seq<Op<Sealed>>, op: Op<Sealed>, v: Sealed, i: int)
    requires LastWrite(h, ROSTER_KEY, v, i)
    requires op.key == ROSTER_KEY ==> op.Got? || op.v != v
    ensures LastWrite(h + [op], ROSTER_KEY, v, i)
  {
  }

  /** Nodes may change as long as each keeps its post and stays well formed. */
  lemma StepNodes(d: Deriver, w: World, n: string, s: NodeState)
    requires Inv(d, w) && Names.Valid(n) && s.seqno <= s.stepped <= w.now
    requires n in w.nodes ==> w.nodes[n].seqno <= s.seqno
    requires s.pending.Some? ==> PendingOk(d, w, n, s.pending.value, s.seqno)
    ensures Inv(d, w.(nodes := w.nodes[n := s]))
  {
    var w' := w.(nodes := w.nodes[n := s]);
    forall m | m in w'.nodes ensures NodeOk(d, w', m) {
      assert m != n ==> NodeOk(d, w, m);
    }
    forall m | m in w'.last ensures PostOk(d, w', m) {
      assert PostOk(d, w, m);
    }
  }

  lemma PutKeepsPosts(d: Deriver, w: World, n: string, m: string)
    requires Inv(d, w) && n in w.nodes && w.nodes[n].pending.Some?
    ensures var w' := Next(d, w, PutPending(n)); m in w'.last ==> PostOk(d, w', m)
  {
    var w' := Next(d, w, PutPending(n));
    assert NodeOk(d, w, n);
    if m in w.last && m != n {
      assert PostOk(d, w, m);
      LastWriteSnoc(w.history, w'.history[|w.history|], w.last[m].value, w.last[m].index);
    }
  }

  lemma PutIsNewest(d: Deriver, w: World, n: string, v: Sealed, at: int)
    requires Inv(d, w) && n in w.nodes && w.nodes[n].pending.Some?
    requires NoNewer(d, w.last, v, at)
    ensures NoNewer(d, Next(d, w, PutPending(n)).last, v, at)
  {
    assert NodeOk(d, w, n);
    assert n in w.last ==> PostOk(d, w, n);
  }

  lemma StepPut(d: Deriver, w: World, n: string)
    requires Inv(d, w) && n in w.nodes && w.nodes[n].pending.Some?
    ensures Inv(d, Next(d, w, PutPending(n)))
  {
    hide Genuine, LastWrite;
    var w' := Next(d, w, PutPending(n));
    assert NodeOk(d, w, n);
    forall m | m in w'.nodes ensures NodeOk(d, w', m) {
      assert NodeOk(d, w, m);
    }
    forall m | m in w'.last ensures PostOk(d, w', m) {
      PutKeepsPosts(d, w, n, m);
    }
    forall i | 0 <= i < |w'.history| && w'.history[i].Put? && w'.history[i].key == ROSTER_KEY
      ensures NoNewer(d, w'.last, w'.history[i].v, w'.history[i].at)
    {
      if i < |w.history| {
        PutIsNewest(d, w, n, w.history[i].v, w.history[i].at);
      }
    }
  }

  lemma StepOther(d: Deriver, w: World, op: Op<Sealed>)
    requires Inv(d, w) && !op.Deleted? && op.at == w.now
    requires op.Put? ==> op.purged == w.now && (op.key == ROSTER_KEY ==> Genuine(d, op.v).None?)
    ensures Inv(d, w.(history := w.history + [op]))
  {
    var w' := w.(history := w.history + [op]);
    forall m | m in w'.nodes ensures NodeOk(d, w', m) {
      assert NodeOk(d, w, m);
    }
    forall m | m in w'.last ensures PostOk(d, w', m) {
      assert PostOk(d, w, m);
      LastWriteSnoc(w.history, op, w.last[m].value, w.last[m].index);
    }
    forall i | 0 <= i < |w'.history| && w'.history[i].Put? && w'.history[i].key == ROSTER_KEY
      ensures NoNewer(d, w'.last, w'.history[i].v, w'.history[i].at)
    {
      if i < |w.history| {
        assert NoNewer(d, w.last, w.history[i].v, w.history[i].at);
      }
    }
  }

  lemma StepAdvance(d: Deriver, w: World, ns: nat)
    requires Inv(d, w) && w.now + ns < TWO_63
    ensures Inv(d, w.(now := w.now + ns))
  {
    var w' := w.(now := w.now + ns);
    assert w.now / NANOS_PER_SECOND <= w'.now / NANOS_PER_SECOND;
    forall m | m in w'.nodes ensures NodeOk(d, w', m) {
      assert NodeOk(d, w, m);
    }
    forall m | m in w'.last ensures PostOk(d, w', m) {
      assert PostOk(d, w, m);
    }
  }

  lemma InvStep(d: Deriver, w: World, e: Event)
    requires Inv(d, w) && Enabled(d, w, e)
    ensures Inv(d, Next(d, w, e))
  {
    hide Genuine, PostOk, HistoryOk, LastWrite, Monotone, Seal, Sign, PublicKeyOf;
    match e
    case Start(name) =>
      assert name in w.nodes ==> NodeOk(d, w, name);
      StepNodes(d, w, name, NodeState(w.now % TWO_64, w.now, None));
    case Prepare(name, _, _, _, _) =>
      DraftedOk(d, w, e);
      assert NodeOk(d, w, name);
      var p := Drafted(d, w, e);
      StepNodes(d, w, name, NodeState(p.rec.seqno, w.now, Some(p)));
    case PutPending(name) => StepPut(d, w, name);
    case Read => StepOther(d, w, Got(ROSTER_KEY, w.now));
    case Outsider(key, v) => StepOther(d, w, Put(key, v, w.now, w.now));
    case Advance(ns) => StepAdvance(d, w, ns);
  }

  lemma {:induction false} RunInv(d: Deriver, run: seq<World>, es: seq<Event>, k: nat)
    requires IsRun(d, run, es) && k <= |es|
    ensures Inv(d, run[k])
  {
    if k > 0 {
      RunInv(d, run, es, k - 1);
      assert IsStep(d, run[k - 1], es[k - 1], run[k - 1 + 1]);
      InvStep(d, run[k - 1], es[k - 1]);
    }
  }

  // ----- What a reader concludes -----

  /** The values a read at the current time lists. */
  function Listed(w: World, ttl: int): seq<Sealed> {
    Listing(Live(At(Replay(w.history, ttl), ROSTER_KEY), w.now))
  }

  /** What `Fetch` returns to `me` from a read that showed `vals`. */
  function ViewOf(d: Deriver, w: World, me: string, vals: seq<Sealed>): View {
    Fold(Accepted(d, me, Cutoff(w.now), vals))
  }

  /** The node's most recent post is another's, still stored, and stamped at most a day ago. */
  ghost predicate Current(w: World, ttl: int, me: string, n: string) {
    && n != me && n in w.last
    && w.now < w.last[n].at + ttl
    && w.last[n].rec.ts >= w.now / 1_000_000_000 - 86_400
  }

  lemma ListedMeansPut(d: Deriver, w: World, ttl: int, v: Sealed)
    requires Inv(d, w)
    ensures v in Listed(w, ttl) <==> exists i :: LastWrite(w.history, ROSTER_KEY, v, i) && w.now < w.history[i].at + ttl
  {
    ListedExactlyWhenPut(w.history, ttl, ROSTER_KEY, v, w.now);
    SurvivesByLastWrite(w.history, ttl, ROSTER_KEY, v, w.now);
    assert v in Listed(w, ttl) <==> multiset(Listed(w, ttl))[v] > 0;
  }

  lemma LatestIsListed(d: Deriver, w: World, ttl: int, me: string, n: string)
    requires Inv(d, w) && Current(w, ttl, me, n)
    ensures w.last[n].value in Listed(w, ttl)
    ensures Accept(d, me, Cutoff(w.now), w.last[n].value) == Some(w.last[n].rec)
  {
    assert PostOk(d, w, n);
    ListedMeansPut(d, w, ttl, w.last[n].value);
  }

  lemma ListedNoNewer(d: Deriver, w: World, ttl: int, me: string, v: Sealed)
    requires Inv(d, w) && v in Listed(w, ttl) && Accept(d, me, Cutoff(w.now), v).Some?
    ensures var r := Accept(d, me, Cutoff(w.now), v).value;
            && Current(w, ttl, me, r.name)
            && r.seqno <= w.last[r.name].rec.seqno
            && (r.seqno == w.last[r.name].rec.seqno ==> r == w.last[r.name].rec)
  {
    ListedMeansPut(d, w, ttl, v);
    var i :| LastWrite(w.history, ROSTER_KEY, v, i) && w.now < w.history[i].at + ttl;
    assert NoNewer(d, w.last, w.history[i].v, w.history[i].at);
  }

  /**
    A read may be partial. Whatever part of the stored values it showed, nobody
    is reported who has no current post, nothing newer than the latest post is
    ever reported, and seeing the latest post is enough to report exactly it.
   */
  lemma PartialReadIsSound(d: Deriver, w: World, ttl: int, me: string, vals: seq<Sealed>, n: string)
    requires Inv(d, w) && forall v :: v in vals ==> v in Listed(w, ttl)
    ensures n in ViewOf(d, w, me, vals) ==>
              Current(w, ttl, me, n) && ViewOf(d, w, me, vals)[n].seqno <= w.last[n].rec.seqno
    ensures Current(w, ttl, me, n) && w.last[n].value in vals ==>
              n in ViewOf(d, w, me, vals) && ViewOf(d, w, me, vals)[n] == w.last[n].rec
  {
    var read := Reader(d, me, Cutoff(w.now));
    var rs := Accepted(d, me, Cutoff(w.now), vals);
    FoldPicksFirstHighest(rs, n);
    if n in Fold(rs) {
      var i :| FirstHighest(rs, n, i) && Fold(rs)[n] == rs[i];
      ChosenMembers(read, vals, rs[i]);
      var v :| v in vals && read(v) == Some(rs[i]);
      ListedNoNewer(d, w, ttl, me, v);
    }
    if Current(w, ttl, me, n) && w.last[n].value in vals {
      LatestIsListed(d, w, ttl, me, n);
      assert PostOk(d, w, n);
      var r := w.last[n].rec;
      assert read(w.last[n].value) == Some(r);
      ChosenMembers(read, vals, r);
      var j :| 0 <= j < |rs| && rs[j] == r;
      var i :| FirstHighest(rs, n, i) && Fold(rs)[n] == rs[i];
      ChosenMembers(read, vals, rs[i]);
      var v :| v in vals && read(v) == Some(rs[i]);
      ListedNoNewer(d, w, ttl, me, v);
    }
  }

  /**
    Main theorem. In every world reachable by any interleaving of starts,
    restarts, posts, re-posts, reads, outside writes and clock advances, a full
    read gives `me` exactly the other nodes whose most recent post is unexpired
    and within the maximum age, each with exactly that post's record.
   */
  lemma FetchSeesLatestPosts(d: Deriver, w: World, ttl: int, me: string)
    requires Reachable(d, w)
    ensures var view := ViewOf(d, w, me, Listed(w, ttl));
            forall n :: (n in view <==> Current(w, ttl, me, n)) && (n in view ==> view[n] == w.last[n].rec)
  {
    var run: seq<World>, es: seq<Event> :| IsRun(d, run, es) && run[|es|] == w;
    RunInv(d, run, es, |es|);
    var view := ViewOf(d, w, me, Listed(w, ttl));
    forall n ensures (n in view <==> Current(w, ttl, me, n)) && (n in view ==> view[n] == w.last[n].rec) {
      PartialReadIsSound(d, w, ttl, me, Listed(w, ttl), n);
      if Current(w, ttl, me, n) { LatestIsListed(d, w, ttl, me, n); }
    }
  }

  /** The node drafted in step `i`, put that draft in step `j`, and posted nothing after that up to step `k`. */
  ghost predicate PostedLast(es: seq<Event>, n: string, i: nat, j: nat, k: nat) {
    && i < j < k <= |es| && es[i].Prepare? && es[i].name == n && es[j] == PutPending(n)
    && (forall l :: i < l < j ==> es[l] != Start(n) && !(es[l].Prepare? && es[l].name == n))
    && (forall l :: j < l < k ==> es[l] != PutPending(n))
  }

  lemma {:induction false} DraftStays(d: Deriver, run: seq<World>, es: seq<Event>, n: string, i: nat, j: nat, k: nat, l: nat)
    requires IsRun(d, run, es) && PostedLast(es, n, i, j, k) && i < l <= j
    ensures IsStep(d, run[i], es[i], run[i + 1])
    ensures n in run[l].nodes && run[l].nodes[n].pending == Some(Drafted(d, run[i], es[i]))
  {
    assert IsStep(d, run[i], es[i], run[i + 1]);
    hide Drafted;
    if l > i + 1 {
      DraftStays(d, run, es, n, i, j, k, l - 1);
      assert IsStep(d, run[l - 1], es[l - 1], run[l - 1 + 1]);
    }
  }

  lemma {:induction false} PostStays(d: Deriver, run: seq<World>, es: seq<Event>, n: string, i: nat, j: nat, k: nat, l: nat)
    requires IsRun(d, run, es) && PostedLast(es, n, i, j, k) && j < l <= k
    ensures IsStep(d, run[i], es[i], run[i + 1])
    ensures n in run[l].last && run[l].last[n].rec == Drafted(d, run[i], es[i]).rec && run[l].last[n].at == run[j].now
  {
    if l > j + 1 {
      PostStays(d, run, es, n, i, j, k, l - 1);
      hide Drafted;
      assert IsStep(d, run[l - 1], es[l - 1], run[l - 1 + 1]);
    } else {
      DraftStays(d, run, es, n, i, j, k, j);
      hide Drafted;
      assert IsStep(d, run[j], es[j], run[j + 1]);
    }
  }

  /**
    By the clock: what a node drafts at time `t` and puts at time `p`, with no
    later post of its own, is in a full read by anybody else until the store
    drops it, and for a day after `t`, to the second. What is read is what the
    node drafted.
   */
  lemma ReadForADay(d: Deriver, run: seq<World>, es: seq<Event>, n: string, i: nat, j: nat, k: nat, ttl: int, me: string)
    requires IsRun(d, run, es) && PostedLast(es, n, i, j, k) && me != n
    ensures var t, p, now, view := run[i].now, run[j].now, run[k].now, ViewOf(d, run[k], me, Listed(run[k], ttl));
            && (n in view <==> now < p + ttl && now / 1_000_000_000 - t / 1_000_000_000 <= 86_400)
            && (now < p + ttl && now - t <= 86_400_000_000_000 ==> n in view)
            && (now >= p + ttl || now - t >= 86_401_000_000_000 ==> n !in view)
            && (n in view ==>
                  && view[n].name == n && Some(view[n].ip) == d.overlayOf(n) && view[n].ts == t / 1_000_000_000
                  && view[n].port == es[i].port && view[n].candidates == es[i].candidates && view[n].adv == es[i].adv)
  {
    PostStays(d, run, es, n, i, j, k, k);
    assert IsRun(d, run[..k + 1], es[..k]);
    assert run[..k + 1][|es[..k]|] == run[k];
    var rec := Drafted(d, run[i], es[i]).rec;
    assert rec.ts == run[i].now / 1_000_000_000 && rec.name == n;
    hide IsRun, IsStep, ViewOf, Listed, PostedLast;
    assert Reachable(d, run[k]);
    FetchSeesLatestPosts(d, run[k], ttl, me);
  }

  /** What a node posts after a restart outranks everything it posted before. */
  lemma RestartOutranksThePast(d: Deriver, w: World, e: Event)
    requires Reachable(d, w) && e.Prepare? && Enabled(d, w, e)
    ensures forall i :: 0 <= i < |w.history| && w.history[i].Put? && w.history[i].key == ROSTER_KEY ==>
              match Genuine(d, w.history[i].v)
              case Some(r) => r.name == e.name ==> r.seqno < Drafted(d, w, e).rec.seqno
              case None => true
  {
    var run: seq<World>, es: seq<Event> :| IsRun(d, run, es) && run[|es|] == w;
    RunInv(d, run, es, |es|);
    DraftedOk(d, w, e);
    forall i | 0 <= i < |w.history| && w.history[i].Put? && w.history[i].key == ROSTER_KEY && Genuine(d, w.history[i].v).Some?
      ensures Genuine(d, w.history[i].v).value.name == e.name ==>
                Genuine(d, w.history[i].v).value.seqno < Drafted(d, w, e).rec.seqno
    {
      assert NoNewer(d, w.last, w.history[i].v, w.history[i].at);
      assert e.name in w.last ==> PostOk(d, w, e.name);
    }
  }

  // ----- The roster's methods in the protocol -----

  lemma ReachableStep(d: Deriver, w: World, e: Event)
    requires Reachable(d, w) && Enabled(d, w, e)
    ensures Reachable(d, Next(d, w, e))
  {
    hide Next;
    var run: seq<World>, es: seq<Event> :| IsRun(d, run, es) && run[|es|] == w;
    var run', es' := run + [Next(d, w, e)], es + [e];
    forall i | 0 <= i < |es'| ensures IsStep(d, run'[i], es'[i], run'[i + 1]) {
      if i < |es| { assert IsStep(d, run[i], es[i], run[i + 1]); }
    }
    assert IsRun(d, run', es');
  }

  lemma ReachableInv(d: Deriver, w: World)
    requires Reachable(d, w)
    ensures Inv(d, w)
  {
    var run: seq<World>, es: seq<Event> :| IsRun(d, run, es) && run[|es|] == w;
    RunInv(d, run, es, |es|);
  }

  /** What the store's answer shows is the visible part of what the world lists. */
  lemma ShownIsListed(w: World, ttl: int, vals: seq<Sealed>, visible: Sealed -> bool)
    requires Shows(vals, w.history, ttl, ROSTER_KEY, w.now, visible)
    ensures forall v :: v in vals <==> visible(v) && v in Listed(w, ttl)
  {
    forall v ensures v in Listed(w, ttl) <==> Survives(w.history, ttl, ROSTER_KEY, v, w.now) {
      ListedExactlyWhenPut(w.history, ttl, ROSTER_KEY, v, w.now);
      assert v in Listed(w, ttl) <==> multiset(Listed(w, ttl))[v] > 0;
    }
  }

  /** A view that is sound in a world; if the read missed nothing, it is exactly the current posts of others. */
  ghost predicate ViewSound(w: World, ttl: int, me: string, view: View, complete: bool) {
    && (forall n :: n in view ==> Current(w, ttl, me, n) && view[n].seqno <= w.last[n].rec.seqno)
    && (complete ==> forall n :: Current(w, ttl, me, n) ==> n in view && view[n] == w.last[n].rec)
  }

  /**
    A real Fetch by a node of the mesh, over a store in the state of a
    reachable world: an error exactly when the read fails, and otherwise a
    view that is sound in the world of the moment the answer came.
   */
  method FetchInWorld(ro: Roster, ghost w: World) returns (r: Fetched, ghost w1: World)
    requires ro.store.raw.Valid() && Reachable(ro.d, w) && ro.store.raw.mock.history == w.history && ro.store.raw.now == w.now
    requires w.now + ro.store.raw.world(ro.store.raw.step).elapsed < TWO_63
    modifies ro.store.raw`step, ro.store.raw`now, ro.store.raw`calls, ro.store.raw.mock
    ensures ro.store.raw.Valid() && Reachable(ro.d, w1) && w1.now == ro.store.raw.now && w1.history == ro.store.raw.mock.history && w1.last == w.last
    ensures r.ReadError? <==> ro.store.raw.world(old(ro.store.raw.step)).failed
    ensures r.Fetched? ==> ViewSound(w1, ro.store.raw.mock.ttl, ro.me, r.view, forall v :: ro.store.raw.world(old(ro.store.raw.step)).visible(v))
  {
    hide RawStore.Valid, Shows, Accepted, Reachable, Inv, ViewSound, Fold;
    ghost var weather := ro.store.raw.world(ro.store.raw.step);
    r := ro.Fetch();
    ghost var raw := ro.store.raw;
    ReachableStep(ro.d, w, Advance(weather.elapsed));
    ghost var w0 := Next(ro.d, w, Advance(weather.elapsed));
    w1 := w0;
    if r.Fetched? {
      ghost var vals := raw.calls[|raw.calls| - 1].answer.value;
      ReachableInv(ro.d, w0);
      FetchedIsSound(ro.d, w0, raw.mock.ttl, ro.me, vals, weather.visible);
      ReachableStep(ro.d, w0, Read);
      w1 := Next(ro.d, w0, Read);
      SameView(w0, w1, raw.mock.ttl, ro.me, r.view, forall v :: weather.visible(v));
    }
  }

  lemma FetchedIsSound(d: Deriver, w: World, ttl: int, me: string, vals: seq<Sealed>, visible: Sealed -> bool)
    requires Inv(d, w) && Shows(vals, w.history, ttl, ROSTER_KEY, w.now, visible)
    ensures ViewSound(w, ttl, me, ViewOf(d, w, me, vals), forall v :: visible(v))
  {
    ShownIsListed(w, ttl, vals, visible);
    hide Inv, Shows, Fold, Accepted, Current;
    var view := ViewOf(d, w, me, vals);
    forall n ensures n in view ==> Current(w, ttl, me, n) && view[n].seqno <= w.last[n].rec.seqno {
      PartialReadIsSound(d, w, ttl, me, vals, n);
    }
    if forall v :: visible(v) {
      forall n | Current(w, ttl, me, n) ensures n in view && view[n] == w.last[n].rec {
        LatestIsListed(d, w, ttl, me, n);
        PartialReadIsSound(d, w, ttl, me, vals, n);
      }
    }
  }

  lemma SameView(w: World, w': World, ttl: int, me: string, view: View, complete: bool)
    requires ViewSound(w, ttl, me, view, complete) && w'.now == w.now && w'.last == w.last
    ensures ViewSound(w', ttl, me, view, complete)
  {
  }

  // ----- Several reads in one run -----

  lemma {:induction false} HistoryGrows(d: Deriver, run: seq<World>, es: seq<Event>, i: nat, j: nat)
    requires IsPath(d, run, es) && i <= j <= |es|
    ensures run[i].history <= run[j].history
    decreases j - i
  {
    if i < j {
      assert IsStep(d, run[i], es[i], run[i + 1]);
      HistoryGrows(d, run, es, i + 1, j);
    }
  }

  lemma {:induction false} AcceptedAllMembers(d: Deriver, me: string, readings: seq<Reading>, r: Body)
    ensures r in AcceptedAll(d, me, readings) <==>
            exists j :: 0 <= j < |readings| && r in Accepted(d, me, readings[j].cutoff, readings[j].vals)
  {
    hide Accepted;
    if readings != [] {
      var front, last := readings[..|readings| - 1], readings[|readings| - 1];
      AcceptedAllMembers(d, me, front, r);
      assert forall j :: 0 <= j < |front| ==> front[j] == readings[j];
    }
  }

  /** A read made in a world that the protocol can be in, which showed part of what was listed. */
  ghost predicate ReadIn(d: Deriver, w: World, ttl: int, reading: Reading) {
    && Inv(d, w) && reading.cutoff == Cutoff(w.now)
    && forall v :: v in reading.vals ==> v in Listed(w, ttl)
  }

  /** Whatever was accepted in one world is no newer than the latest post in a later one. */
  lemma AcceptedNoNewer(d: Deriver, w: World, end: World, ttl: int, me: string, reading: Reading, r: Body)
    requires ReadIn(d, w, ttl, reading) && Inv(d, end) && w.history <= end.history
    requires r in Accepted(d, me, reading.cutoff, reading.vals)
    ensures Current(w, ttl, me, r.name)
    ensures r.name in end.last && r.seqno <= end.last[r.name].rec.seqno
    ensures r.seqno == end.last[r.name].rec.seqno ==> r == end.last[r.name].rec
  {
    ChosenMembers(Reader(d, me, reading.cutoff), reading.vals, r);
    var v :| v in reading.vals && Reader(d, me, reading.cutoff)(v) == Some(r);
    ListedNoNewer(d, w, ttl, me, v);
    ListedMeansPut(d, w, ttl, v);
    var i :| LastWrite(w.history, ROSTER_KEY, v, i) && w.now < w.history[i].at + ttl;
    assert end.history[i] == w.history[i];
    assert NoNewer(d, end.last, end.history[i].v, end.history[i].at);
  }

  /** The read showed the node's latest post, current then. */
  ghost predicate Saw(w: World, ttl: int, me: string, reading: Reading, n: string) {
    Current(w, ttl, me, n) && w.last[n].value in reading.vals
  }

  /** The read showed a post that was current then and is still the node's latest in the end. */
  ghost predicate SawLatest(w: World, ttl: int, me: string, reading: Reading, end: World, n: string) {
    Saw(w, ttl, me, reading, n) && n in end.last && end.last[n].rec == w.last[n].rec
  }

  lemma LatestWasAccepted(d: Deriver, w: World, ttl: int, me: string, reading: Reading, n: string)
    requires ReadIn(d, w, ttl, reading) && Saw(w, ttl, me, reading, n)
    ensures n in w.last && w.last[n].rec in Accepted(d, me, reading.cutoff, reading.vals) && w.last[n].rec.name == n
  {
    LatestIsListed(d, w, ttl, me, n);
    assert PostOk(d, w, n);
    var r := w.last[n].rec;
    assert Reader(d, me, reading.cutoff)(w.last[n].value) == Some(r);
    ChosenMembers(Reader(d, me, reading.cutoff), reading.vals, r);
  }

  /**
    FetchStable reads in several worlds, partially each time. What it reports
    about a node was current in one of them and is never newer than the node's
    latest post in the end, nor older than any latest post that a read showed;
    and once any read showed the post that is still the latest in the end,
    exactly that is reported.
   */
  lemma StableFetch(d: Deriver, worlds: seq<World>, readings: seq<Reading>, end: World, ttl: int, me: string, n: string)
    requires |worlds| == |readings| && Inv(d, end)
    requires forall j :: 0 <= j < |readings| ==> ReadIn(d, worlds[j], ttl, readings[j]) && worlds[j].history <= end.history
    ensures var view := Fold(AcceptedAll(d, me, readings));
            n in view ==>
              && n in end.last && view[n].seqno <= end.last[n].rec.seqno
              && exists j :: 0 <= j < |worlds| && Current(worlds[j], ttl, me, n)
    ensures var view := Fold(AcceptedAll(d, me, readings));
            forall j :: 0 <= j < |readings| && Saw(worlds[j], ttl, me, readings[j], n) ==>
              n in view && n in worlds[j].last && worlds[j].last[n].rec.seqno <= view[n].seqno
    ensures var view := Fold(AcceptedAll(d, me, readings));
            (exists j :: 0 <= j < |readings| && SawLatest(worlds[j], ttl, me, readings[j], end, n)) ==>
              n in view && view[n] == end.last[n].rec
  {
    hide Accepted, AcceptedAll, Fold, Current, ReadIn, Inv, Saw;
    var rs := AcceptedAll(d, me, readings);
    FoldPicksFirstHighest(rs, n);
    forall r | r in rs && r.name == n
      ensures n in end.last && r.seqno <= end.last[n].rec.seqno
      ensures r.seqno == end.last[n].rec.seqno ==> r == end.last[n].rec
      ensures exists j :: 0 <= j < |worlds| && Current(worlds[j], ttl, me, n)
    {
      AcceptedAllMembers(d, me, readings, r);
      var j :| 0 <= j < |readings| && r in Accepted(d, me, readings[j].cutoff, readings[j].vals);
      AcceptedNoNewer(d, worlds[j], end, ttl, me, readings[j], r);
    }
    forall j | 0 <= j < |readings| && Saw(worlds[j], ttl, me, readings[j], n)
      ensures n in Fold(rs) && n in worlds[j].last && worlds[j].last[n].rec.seqno <= Fold(rs)[n].seqno
    {
      ShownCounts(d, worlds[j], ttl, me, readings, j, n);
    }
  }

  /** What a read showed of a node is not outdone by anything older. */
  lemma ShownCounts(d: Deriver, w: World, ttl: int, me: string, readings: seq<Reading>, j: nat, n: string)
    requires j < |readings| && ReadIn(d, w, ttl, readings[j]) && Saw(w, ttl, me, readings[j], n)
    ensures var view := Fold(AcceptedAll(d, me, readings));
            n in view && n in w.last && w.last[n].rec.seqno <= view[n].seqno
  {
    hide Accepted, AcceptedAll, Fold, ReadIn, Saw;
    LatestWasAccepted(d, w, ttl, me, readings[j], n);
    var rs, latest := AcceptedAll(d, me, readings), w.last[n].rec;
    AcceptedAllMembers(d, me, readings, latest);
    FoldPicksFirstHighest(rs, n);
    var k :| 0 <= k < |rs| && rs[k] == latest;
    var i :| FirstHighest(rs, n, i) && Fold(rs)[n] == rs[i];
  }

  /** The reads may be at any moments of one run, with anybody posting in between. */
  lemma StableFetchInRun(d: Deriver, run: seq<World>, es: seq<Event>, ttl: int, me: string, moments: seq<nat>, readings: seq<Reading>, end: nat, n: string)
    requires IsRun(d, run, es) && end <= |es| && |moments| == |readings|
    requires forall j :: 0 <= j < |readings| ==> moments[j] <= end && ShownAtMoment(run, moments[j], ttl, readings[j])
    ensures var view := Fold(AcceptedAll(d, me, readings));
            n in view ==>
              && n in run[end].last && view[n].seqno <= run[end].last[n].rec.seqno
              && exists j :: 0 <= j < |moments| && Current(run[moments[j]], ttl, me, n)
    ensures var view := Fold(AcceptedAll(d, me, readings));
            (exists j :: 0 <= j < |readings| && SawLatest(run[moments[j]], ttl, me, readings[j], run[end], n)) ==>
              n in view && view[n] == run[end].last[n].rec
  {
    var worlds := seq(|moments|, j requires 0 <= j < |moments| => run[moments[j]]);
    forall j | 0 <= j < |readings| ensures ReadIn(d, worlds[j], ttl, readings[j]) && worlds[j].history <= run[end].history {
      RunInv(d, run, es, moments[j]);
      HistoryGrows(d, run, es, moments[j], end);
    }
    RunInv(d, run, es, end);
    hide IsRun, Accepted, AcceptedAll, Fold, Current, ReadIn, Inv, SawLatest;
    StableFetch(d, worlds, readings, run[end], ttl, me, n);
    var view := Fold(AcceptedAll(d, me, readings));
    if j :| 0 <= j < |worlds| && Current(worlds[j], ttl, me, n) {
      assert Current(run[moments[j]], ttl, me, n);
    }
    if j :| 0 <= j < |readings| && SawLatest(run[moments[j]], ttl, me, readings[j], run[end], n) {
      assert SawLatest(worlds[j], ttl, me, readings[j], run[end], n);
    }
  }

  /** A reading made at a moment of a run: its cutoff is of that moment, and it shows part of what was listed. */
  ghost predicate ShownAtMoment(run: seq<World>, k: nat, ttl: int, reading: Reading) {
    && k < |run| && reading.cutoff == Cutoff(run[k].now)
    && forall v :: v in reading.vals ==> v in Listed(run[k], ttl)
  }

  // ----- FetchStable itself -----

  /** The protocol can go from the one world to the other. */
  ghost predicate Leads(d: Deriver, w: World, w': World) {
    exists run: seq<World>, es: seq<Event> :: IsPath(d, run, es) && run[0] == w && run[|es|] == w'
  }

  lemma {:induction false} PathReachable(d: Deriver, run: seq<World>, es: seq<Event>, k: nat)
    requires IsPath(d, run, es) && k <= |es| && Reachable(d, run[0])
    ensures Reachable(d, run[k])
  {
    if k > 0 {
      PathReachable(d, run, es, k - 1);
      hide Reachable;
      assert IsStep(d, run[k - 1], es[k - 1], run[k - 1 + 1]);
      ReachableStep(d, run[k - 1], es[k - 1]);
    }
  }

  lemma LeadsReachable(d: Deriver, w: World, w': World)
    requires Reachable(d, w) && Leads(d, w, w')
    ensures Reachable(d, w') && w.history <= w'.history
  {
    var run: seq<World>, es: seq<Event> :| IsPath(d, run, es) && run[0] == w && run[|es|] == w';
    PathReachable(d, run, es, |es|);
    HistoryGrows(d, run, es, 0, |es|);
  }

  /** The world once a read has been answered in it. */
  ghost function AfterRead(w: World, c: Call<Sealed>): World {
    if c.GetCall? && c.answer.Some? then w.(history := w.history + [Got(ROSTER_KEY, w.now)]) else w
  }

  /** The world that earlier reads leave for read number `k`. */
  ghost function Left(w: World, ws: seq<World>, calls: seq<Call<Sealed>>, k: nat): World
    requires k <= |calls| <= |ws|
  {
    if k == 0 then w else AfterRead(ws[k - 1], calls[k - 1])
  }

  /** Read number `k` was answered in `ws[k]`, or the reads ended there: the mesh came to it, and it has the store and clock of that moment. */
  ghost predicate MomentOf(d: Deriver, w: World, ws: seq<World>, others: nat -> seq<Foreign<Sealed>>, calls: seq<Call<Sealed>>, k: nat)
    requires k <= |calls| < |ws|
  {
    && Leads(d, Left(w, ws, calls, k), ws[k])
    && ws[k].history == HistoryBefore(w.history, others, calls, k)
    && ws[k].now == MomentTime(w.now, others, calls, k)
  }

  /**
    One run of the protocol from `w` on, in which the mesh did what others were
    seen to do to the store between the reads: `ws` are the worlds in which the
    reads were answered, and that of the end.
   */
  ghost predicate MeshRan(d: Deriver, w: World, ws: seq<World>, others: nat -> seq<Foreign<Sealed>>, calls: seq<Call<Sealed>>) {
    && |ws| == |calls| + 1
    && forall k :: 0 <= k <= |calls| ==> MomentOf(d, w, ws, others, calls, k)
  }

  lemma {:induction false} MomentsReachable(d: Deriver, w: World, ws: seq<World>, others: nat -> seq<Foreign<Sealed>>, calls: seq<Call<Sealed>>, k: nat)
    requires Reachable(d, w) && MeshRan(d, w, ws, others, calls) && k <= |calls|
    ensures Reachable(d, ws[k])
    ensures k > 0 ==> ws[k - 1].history <= ws[k].history
  {
    hide Reachable, Leads, HistoryBefore, TimeBefore;
    assert MomentOf(d, w, ws, others, calls, k);
    if k > 0 {
      MomentsReachable(d, w, ws, others, calls, k - 1);
      ReachableStep(d, ws[k - 1], Read);
    }
    LeadsReachable(d, Left(w, ws, calls, k), ws[k]);
  }

  lemma {:induction false} MomentsGrow(d: Deriver, w: World, ws: seq<World>, others: nat -> seq<Foreign<Sealed>>, calls: seq<Call<Sealed>>, j: nat, k: nat)
    requires Reachable(d, w) && MeshRan(d, w, ws, others, calls) && j <= k <= |calls|
    ensures ws[j].history <= ws[k].history
    decreases k
  {
    hide Reachable, MomentOf;
    if j < k {
      MomentsGrow(d, w, ws, others, calls, j, k - 1);
      MomentsReachable(d, w, ws, others, calls, k);
    }
  }

  /** Where the reads that succeeded stand among the calls. */
  ghost function Succeeded(calls: seq<Call<Sealed>>): seq<nat> {
    if calls == [] then []
    else
      var c := calls[|calls| - 1];
      Succeeded(calls[..|calls| - 1]) + if c.GetCall? && c.answer.Some? then [|calls| - 1] else []
  }

  lemma {:induction false} SucceededAre(calls: seq<Call<Sealed>>)
    ensures |Succeeded(calls)| == |ReadingsOf(calls)|
    ensures forall j :: 0 <= j < |Succeeded(calls)| ==>
              var k := Succeeded(calls)[j];
              k < |calls| && calls[k].GetCall? && calls[k].answer.Some? && ReadingsOf(calls)[j] == Reading(calls[k].answer.value, Cutoff(calls[k].at))
    ensures forall k :: 0 <= k < |calls| && calls[k].GetCall? && calls[k].answer.Some? ==> k in Succeeded(calls)
  {
    if calls != [] {
      var front := calls[..|calls| - 1];
      SucceededAre(front);
      assert forall k :: 0 <= k < |front| ==> front[k] == calls[k];
    }
  }

  /** Read number `k` succeeded, and the node's latest post was another's, stored and fresh at its moment. */
  ghost predicate CurrentAt(ws: seq<World>, ttl: int, me: string, calls: seq<Call<Sealed>>, k: nat, n: string) {
    k < |calls| && k < |ws| && calls[k].GetCall? && calls[k].answer.Some? && Current(ws[k], ttl, me, n)
  }

  /** Call number `k` since `first` shows everything. */
  ghost predicate Complete(world: nat -> Weather<Sealed>, first: nat, k: nat) {
    MissesNothing(world(first + k).visible)
  }

  ghost predicate MissesNothing(visible: Sealed -> bool) {
    forall v :: visible(v)
  }

  /**
    A view that several reads give is sound: each entry was current at one of
    them and is no newer than the node's latest post in the end, and every node
    current at a read that missed nothing is in it with nothing older than its
    latest post then, and with exactly that unless it has posted again.
   */
  ghost predicate StableSound(ws: seq<World>, ttl: int, me: string, calls: seq<Call<Sealed>>, world: nat -> Weather<Sealed>, first: nat, view: View) {
    |ws| == |calls| + 1 && forall n :: StableSoundFor(ws, ttl, me, calls, world, first, view, n)
  }

  ghost predicate StableSoundFor(ws: seq<World>, ttl: int, me: string, calls: seq<Call<Sealed>>, world: nat -> Weather<Sealed>, first: nat, view: View, n: string)
    requires |ws| == |calls| + 1
  {
    var last := ws[|calls|].last;
    && (n in view ==>
          && n in last && view[n].seqno <= last[n].rec.seqno
          && exists k :: 0 <= k < |calls| && CurrentAt(ws, ttl, me, calls, k, n))
    && (forall k :: 0 <= k < |calls| && Complete(world, first, k) && CurrentAt(ws, ttl, me, calls, k, n) ==>
          && n in view && n in ws[k].last && n in last && ws[k].last[n].rec.seqno <= view[n].seqno
          && (ws[k].last[n].rec == last[n].rec ==> view[n] == last[n].rec))
  }

  lemma CallIsReadIn(d: Deriver, w: World, ws: seq<World>, others: nat -> seq<Foreign<Sealed>>, ttl: int, world: nat -> Weather<Sealed>, first: nat,
                     calls: seq<Call<Sealed>>, k: nat)
    requires Reachable(d, w) && MeshRan(d, w, ws, others, calls) && AllShown(w.history, others, w.now, ttl, world, first, calls)
    requires k < |calls| && calls[k].GetCall? && calls[k].answer.Some?
    ensures ReadIn(d, ws[k], ttl, Reading(calls[k].answer.value, Cutoff(calls[k].at)))
    ensures forall v :: v in calls[k].answer.value <==> world(first + k).visible(v) && v in Listed(ws[k], ttl)
  {
    MomentsReachable(d, w, ws, others, calls, k);
    hide Shows, Reachable, Inv, Listed, HistoryBefore, TimeBefore, Leads;
    assert ShownAt(w.history, others, w.now, ttl, world, first, calls, k);
    assert MomentOf(d, w, ws, others, calls, k);
    ReachableInv(d, ws[k]);
    ShownIsListed(ws[k], ttl, calls[k].answer.value, world(first + k).visible);
  }

  /** A read that missed nothing showed the latest post of every node current then. */
  lemma CompleteReadSaw(d: Deriver, w: World, ws: seq<World>, others: nat -> seq<Foreign<Sealed>>, ttl: int, me: string, world: nat -> Weather<Sealed>,
                        first: nat, calls: seq<Call<Sealed>>, k: nat, n: string)
    requires Reachable(d, w) && MeshRan(d, w, ws, others, calls) && AllShown(w.history, others, w.now, ttl, world, first, calls)
    requires k < |calls| && Complete(world, first, k) && CurrentAt(ws, ttl, me, calls, k, n)
    ensures n in ws[k].last && Saw(ws[k], ttl, me, Reading(calls[k].answer.value, Cutoff(calls[k].at)), n)
    ensures k in Succeeded(calls)
  {
    hide Reachable, Inv, AllShown, Listed, MeshRan;
    CallIsReadIn(d, w, ws, others, ttl, world, first, calls, k);
    LatestIsListed(d, ws[k], ttl, me, n);
    SucceededAre(calls);
  }

  lemma StableViewIsSound(d: Deriver, w: World, ws: seq<World>, others: nat -> seq<Foreign<Sealed>>, ttl: int, me: string, world: nat -> Weather<Sealed>,
                          first: nat, calls: seq<Call<Sealed>>)
    requires Reachable(d, w) && MeshRan(d, w, ws, others, calls) && AllShown(w.history, others, w.now, ttl, world, first, calls)
    ensures StableSound(ws, ttl, me, calls, world, first, Fold(AcceptedAll(d, me, ReadingsOf(calls))))
  {
    hide Reachable, Inv, Fold, AcceptedAll, AllShown, Accepted, Current, ReadIn, MomentOf, Saw, StableSoundFor;
    var at, readings := Succeeded(calls), ReadingsOf(calls);
    SucceededAre(calls);
    var worlds := seq(|at|, j requires 0 <= j < |at| => ws[at[j]]);
    var end := ws[|calls|];
    forall j | 0 <= j < |at| ensures ReadIn(d, worlds[j], ttl, readings[j]) && worlds[j].history <= end.history {
      CallIsReadIn(d, w, ws, others, ttl, world, first, calls, at[j]);
      MomentsGrow(d, w, ws, others, calls, at[j], |calls|);
    }
    MomentsReachable(d, w, ws, others, calls, |calls|);
    ReachableInv(d, end);
    hide Succeeded, ReadingsOf, MeshRan;
    forall n ensures StableSoundFor(ws, ttl, me, calls, world, first, Fold(AcceptedAll(d, me, readings)), n) {
      forall k | 0 <= k < |calls| && Complete(world, first, k) && CurrentAt(ws, ttl, me, calls, k, n)
        ensures k in at && n in ws[k].last && Saw(ws[k], ttl, me, Reading(calls[k].answer.value, Cutoff(calls[k].at)), n)
      {
        CompleteReadSaw(d, w, ws, others, ttl, me, world, first, calls, k, n);
      }
      StableForNode(d, ws, ttl, me, world, first, calls, at, worlds, readings, n);
    }
  }

  lemma StableForNode(d: Deriver, ws: seq<World>, ttl: int, me: string, world: nat -> Weather<Sealed>, first: nat, calls: seq<Call<Sealed>>,
                      at: seq<nat>, worlds: seq<World>, readings: seq<Reading>, n: string)
    requires |at| == |worlds| == |readings| && |ws| == |calls| + 1 && Inv(d, ws[|calls|])
    requires forall j :: 0 <= j < |at| ==>
               && at[j] < |calls| && calls[at[j]].GetCall? && calls[at[j]].answer.Some?
               && worlds[j] == ws[at[j]] && readings[j] == Reading(calls[at[j]].answer.value, Cutoff(calls[at[j]].at))
               && ReadIn(d, worlds[j], ttl, readings[j]) && worlds[j].history <= ws[|calls|].history
    requires forall k :: 0 <= k < |calls| && Complete(world, first, k) && CurrentAt(ws, ttl, me, calls, k, n) ==>
               k in at && n in ws[k].last && Saw(ws[k], ttl, me, Reading(calls[k].answer.value, Cutoff(calls[k].at)), n)
    ensures StableSoundFor(ws, ttl, me, calls, world, first, Fold(AcceptedAll(d, me, readings)), n)
  {
    hide Inv, Fold, AcceptedAll, Current, ReadIn, Complete, Saw;
    StableFetch(d, worlds, readings, ws[|calls|], ttl, me, n);
    if j :| 0 <= j < |worlds| && Current(worlds[j], ttl, me, n) {
      assert CurrentAt(ws, ttl, me, calls, at[j], n);
    }
    var view := Fold(AcceptedAll(d, me, readings));
    forall k | 0 <= k < |calls| && Complete(world, first, k) && CurrentAt(ws, ttl, me, calls, k, n)
      ensures n in view && n in ws[k].last && ws[k].last[n].rec.seqno <= view[n].seqno && n in ws[|calls|].last
      ensures ws[k].last[n].rec == ws[|calls|].last[n].rec ==> view[n] == ws[|calls|].last[n].rec
    {
      var j :| 0 <= j < |at| && at[j] == k;
      assert Saw(worlds[j], ttl, me, readings[j], n);
      assert n in ws[|calls|].last && ws[k].last[n].rec == ws[|calls|].last[n].rec ==> SawLatest(worlds[j], ttl, me, readings[j], ws[|calls|], n);
    }
  }

  // ----- Such runs exist -----

  /** A step does at most one thing to the store, and time only passes when it does nothing. */
  lemma StepTouches(d: Deriver, w: World, e: Event)
    requires Enabled(d, w, e)
    ensures var w' := Next(d, w, e);
            || (w'.history == w.history && w.now <= w'.now)
            || (w'.now == w.now && exists key, put :: w'.history == w.history + [ForeignOp(Foreign(0, key, put), w.now)])
  {
    var w' := Next(d, w, e);
    match e
    case PutPending(name) => assert w'.history == w.history + [ForeignOp(Foreign(0, ROSTER_KEY, Some(w.nodes[name].pending.value.value)), w.now)];
    case Read => assert w'.history == w.history + [ForeignOp(Foreign(0, ROSTER_KEY, None), w.now)];
    case Outsider(key, v) => assert w'.history == w.history + [ForeignOp(Foreign(0, key, Some(v)), w.now)];
    case _ =>
  }

  lemma ForeignMore(others: seq<Foreign<Sealed>>, o: Foreign<Sealed>, now: int)
    ensures Waits(others + [o]) == Waits(others) + o.wait
    ensures ForeignOps(others + [o], now) == ForeignOps(others, now) + [ForeignOp(o, now + Waits(others) + o.wait)]
  {
    assert (others + [o])[..|others|] == others;
  }

  /** Whatever others do, and for however long, fits a pause. */
  lemma {:induction false} AnythingFitsAPause(d: Deriver, run: seq<World>, es: seq<Event>, k: nat) returns (others: seq<Foreign<Sealed>>)
    requires IsPath(d, run, es) && k <= |es|
    ensures run[k].history == run[0].history + ForeignOps(others, run[0].now)
    ensures run[0].now + Waits(others) <= run[k].now
  {
    if k == 0 { return []; }
    others := AnythingFitsAPause(d, run, es, k - 1);
    hide Enabled, Next, ForeignOps, Waits;
    var w := run[k - 1];
    assert IsStep(d, w, es[k - 1], run[k - 1 + 1]);
    StepTouches(d, w, es[k - 1]);
    if key, put :| run[k].history == w.history + [ForeignOp(Foreign(0, key, put), w.now)] {
      var o := Foreign(w.now - run[0].now - Waits(others), key, put);
      ForeignMore(others, o, run[0].now);
      others := others + [o];
    }
  }

  lemma AdvanceLeads(d: Deriver, w: World, w': World)
    requires w.now <= w'.now < TWO_63 && w' == w.(now := w'.now)
    ensures Leads(d, w, w')
  {
    var run, es := [w, w'], [Advance(w'.now - w.now)];
    assert IsStep(d, run[0], es[0], run[0 + 1]);
    assert IsPath(d, run, es);
  }

  lemma TimesGrow(h: seq<Op<Sealed>>, others: nat -> seq<Foreign<Sealed>>, start: int, ttl: int, world: nat -> Weather<Sealed>,
                  first: nat, calls: seq<Call<Sealed>>, k: nat)
    requires AllShown(h, others, start, ttl, world, first, calls) && k <= |calls|
    ensures start <= TimeBefore(start, others, calls, k) <= TimeBefore(start, others, calls, |calls|)
    ensures k < |calls| ==> TimeBefore(start, others, calls, k) <= calls[k].at <= TimeBefore(start, others, calls, |calls|)
  {
    hide Shows, HistoryBefore;
    TimesFromStart(h, others, start, ttl, world, first, calls, k);
    TimesToEnd(h, others, start, ttl, world, first, calls, k);
    if k < |calls| {
      assert ShownAt(h, others, start, ttl, world, first, calls, k);
      TimesToEnd(h, others, start, ttl, world, first, calls, k + 1);
    }
  }

  lemma {:induction false} TimesFromStart(h: seq<Op<Sealed>>, others: nat -> seq<Foreign<Sealed>>, start: int, ttl: int, world: nat -> Weather<Sealed>,
                                          first: nat, calls: seq<Call<Sealed>>, k: nat)
    requires AllShown(h, others, start, ttl, world, first, calls) && k <= |calls|
    ensures start <= TimeBefore(start, others, calls, k)
  {
    hide Shows, HistoryBefore;
    if k > 0 {
      TimesFromStart(h, others, start, ttl, world, first, calls, k - 1);
      assert ShownAt(h, others, start, ttl, world, first, calls, k - 1);
    }
  }

  lemma {:induction false} TimesToEnd(h: seq<Op<Sealed>>, others: nat -> seq<Foreign<Sealed>>, start: int, ttl: int, world: nat -> Weather<Sealed>,
                                      first: nat, calls: seq<Call<Sealed>>, k: nat)
    requires AllShown(h, others, start, ttl, world, first, calls) && k <= |calls|
    ensures TimeBefore(start, others, calls, k) <= TimeBefore(start, others, calls, |calls|)
    decreases |calls| - k
  {
    hide Shows, HistoryBefore;
    if k < |calls| {
      assert ShownAt(h, others, start, ttl, world, first, calls, k);
      TimesToEnd(h, others, start, ttl, world, first, calls, k + 1);
    }
  }

  /** When nobody does anything between the reads, the mesh may just have stood by. */
  lemma QuietMesh(d: Deriver, w: World, others: nat -> seq<Foreign<Sealed>>, ttl: int, world: nat -> Weather<Sealed>, first: nat, calls: seq<Call<Sealed>>)
    returns (ws: seq<World>)
    requires AllReads(calls) && AllShown(w.history, others, w.now, ttl, world, first, calls)
    requires (forall k :: 0 <= k < |calls| ==> others(k) == []) && TimeBefore(w.now, others, calls, |calls|) < TWO_63
    ensures MeshRan(d, w, ws, others, calls) && forall k :: 0 <= k <= |calls| ==> ws[k].last == w.last
  {
    var until := TimeBefore(w.now, others, calls, |calls|);
    forall k | 0 <= k <= |calls| ensures w.now <= MomentTime(w.now, others, calls, k) <= until {
      TimesGrow(w.history, others, w.now, ttl, world, first, calls, k);
    }
    ws := seq(|calls| + 1, k requires 0 <= k <= |calls| =>
      World(MomentTime(w.now, others, calls, k), HistoryBefore(w.history, others, calls, k), w.nodes, w.last));
    hide Leads, Shows, AllShown;
    forall k | 0 <= k <= |calls| ensures MomentOf(d, w, ws, others, calls, k) {
      TimesGrow(w.history, others, w.now, ttl, world, first, calls, k);
      var before := Left(w, ws, calls, k);
      if k > 0 {
        TimesGrow(w.history, others, w.now, ttl, world, first, calls, k - 1);
        assert IsRead(calls[k - 1]);
        assert before.history + [] == before.history;
        assert HistoryBefore(w.history, others, calls, k - 1) + [] == HistoryBefore(w.history, others, calls, k - 1);
      }
      AdvanceLeads(d, before, ws[k]);
    }
  }

  /** When read number `k` was answered, or the reads ended. */
  ghost function MomentTime(start: int, others: nat -> seq<Foreign<Sealed>>, calls: seq<Call<Sealed>>, k: nat): int
    requires k <= |calls|
  {
    if k < |calls| then calls[k].at else TimeBefore(start, others, calls, k)
  }

  /**
    A real FetchStable by a node of the mesh, over a store in the state of a
    reachable world, while others go on posting and reading between its reads.
    Whatever the mesh did to bring that about, the view is sound for the worlds
    of the reads; and an error means that some read failed.
   */
  method FetchStableInWorld(ro: Roster, attempts: int, patience: Patience, ghost w: World) returns (r: Fetched, ghost calls: seq<Call<Sealed>>)
    requires ro.store.raw.Valid() && Reachable(ro.d, w) && ro.store.raw.mock.history == w.history && ro.store.raw.now == w.now
    modifies ro.store.raw`step, ro.store.raw`now, ro.store.raw`calls, ro.store.raw`idle, ro.store.raw.mock
    ensures ro.store.raw.Valid() && ReadsUntilDone(patience, attempts, |calls|) && AllReads(calls)
    ensures ro.store.raw.calls == old(ro.store.raw.calls) + calls
    ensures AllShown(w.history, Pauses(patience, Tries(attempts)), w.now, ro.store.raw.mock.ttl, ro.store.raw.world, old(ro.store.raw.step), calls)
    ensures forall ws: seq<World> :: MeshRan(ro.d, w, ws, Pauses(patience, Tries(attempts)), calls) ==>
              && Reachable(ro.d, ws[|calls|]) && ws[|calls|].now == ro.store.raw.now && ws[|calls|].history == ro.store.raw.mock.history
              && StableSound(ws, ro.store.raw.mock.ttl, ro.me, calls, ro.store.raw.world, old(ro.store.raw.step), if r.Fetched? then r.view else map[])
    ensures r.ReadError? ==> ReadFailed(calls)
  {
    hide RawStore.Valid, Reachable, StableSound, Fold, AcceptedAll, AllShown, HistoryBefore, TimeBefore, AllReads, ReadFailed, Pauses, Leads;
    ghost var raw, first, others := ro.store.raw, ro.store.raw.step, Pauses(patience, Tries(attempts));
    r, calls := ro.FetchStable(attempts, patience);
    forall ws: seq<World> | MeshRan(ro.d, w, ws, others, calls)
      ensures Reachable(ro.d, ws[|calls|]) && ws[|calls|].now == raw.now && ws[|calls|].history == raw.mock.history
      ensures StableSound(ws, raw.mock.ttl, ro.me, calls, raw.world, first, if r.Fetched? then r.view else map[])
    {
      assert MomentOf(ro.d, w, ws, others, calls, |calls|);
      MomentsReachable(ro.d, w, ws, others, calls, |calls|);
      StableViewIsSound(ro.d, w, ws, others, raw.mock.ttl, ro.me, raw.world, first, calls);
    }
  }
}
