/** One Tick's plan per peer, and what the Tick's device calls say about it (internal/mesh/daemon.go). */
module Plans {
  import opened Wrappers
  import opened Records
  import opened Peers
  import opened Devices
  import Names

  const RACE_POLL: nat := 150_000_000
  const RACE_WAIT: nat := 2_500_000_000

  /** The zero `Candidate{}`: what remembering nothing looks like. */
  const NO_CANDIDATE := Candidate(OtherKind(""), "")

  datatype Plan = Plan(
    name: string, pub: WgKey, desire: PeerDesire, ordered: seq<Candidate>,
    winner: Candidate, haveWin: bool, freshNow: bool)

  predicate Plannable(d: Deriver, name: string) {
    Names.Valid(Names.Normalize(name)) && OverlayIP(d, name).Some?
  }

  function PubOf(d: Deriver, name: string): WgKey {
    WgKey(d.psk, Names.Normalize(name))
  }

  function Remembered(lastGood: map<string, Candidate>, name: string): Candidate {
    if name in lastGood then lastGood[name] else NO_CANDIDATE
  }

  ghost function NamesOf(ps: seq<Plan>): set<string> {
    set p | p in ps :: p.name
  }

  ghost function PubsOf(ps: seq<Plan>): set<WgKey> {
    set p | p in ps :: p.pub
  }

  ghost predicate DistinctNames(ps: seq<Plan>) {
    forall i, j :: 0 <= i < j < |ps| ==> ps[i].name != ps[j].name
  }

  ghost predicate DistinctPubs(ps: seq<Plan>) {
    forall i, j :: 0 <= i < j < |ps| ==> ps[i].pub != ps[j].pub
  }

  /** Each plan desires its own peer, with at least its overlay address. */
  ghost predicate WellFormed(ps: seq<Plan>) {
    forall i :: 0 <= i < |ps| ==> ps[i].desire.pub == ps[i].pub && ps[i].desire.allowedIPs != []
  }

  /** A peer whose session is live is desired without an endpoint. */
  ghost predicate FreshUnasserted(ps: seq<Plan>) {
    forall i :: 0 <= i < |ps| && ps[i].freshNow ==> ps[i].desire.endpoint.None?
  }

  function DesiresOf(ps: seq<Plan>): (r: seq<PeerDesire>)
    ensures |r| == |ps| && forall i :: 0 <= i < |ps| ==> r[i] == ps[i].desire
  {
    if ps == [] then [] else [ps[0].desire] + DesiresOf(ps[1..])
  }

  /** A plan as a race may leave it: only the endpoint and the winner can differ. */
  ghost predicate SamePeer(a: Plan, b: Plan) {
    b == a.(desire := a.desire.(endpoint := b.desire.endpoint), winner := b.winner, haveWin := b.haveWin)
  }

  ghost predicate SamePeers(a: seq<Plan>, b: seq<Plan>) {
    |a| == |b| && forall i :: 0 <= i < |a| ==> SamePeer(a[i], b[i])
  }

  // ----- Every Apply of the Tick -----

  /** The Apply desires exactly the planned peers and asserts nothing for the live ones. */
  ghost predicate Respectful(desired: seq<PeerDesire>, ps: seq<Plan>) {
    && |desired| == |ps|
    && forall i :: 0 <= i < |ps| ==>
         && desired[i].pub == ps[i].pub && desired[i].allowedIPs != []
         && (ps[i].freshNow ==> desired[i].endpoint.None?)
  }

  ghost predicate RespectfulSince(log: seq<Event>, from: nat, ps: seq<Plan>) {
    forall k :: from <= k < |log| && log[k].Applied? ==> Respectful(log[k].desired, ps)
  }

  lemma RespectfulSamePeers(desired: seq<PeerDesire>, a: seq<Plan>, b: seq<Plan>)
    requires Respectful(desired, a) && SamePeers(a, b)
    ensures Respectful(desired, b)
  {
    forall i | 0 <= i < |b|
      ensures desired[i].pub == b[i].pub && desired[i].allowedIPs != [] && (b[i].freshNow ==> desired[i].endpoint.None?)
    {
      assert SamePeer(a[i], b[i]);
    }
  }

  lemma DesiresRespectful(ps: seq<Plan>)
    requires WellFormed(ps) && FreshUnasserted(ps)
    ensures Respectful(DesiresOf(ps), ps)
  {
  }

  lemma WantedOfPlans(desired: seq<PeerDesire>, ps: seq<Plan>)
    requires Respectful(desired, ps)
    ensures Wanted(desired) == PubsOf(ps)
  {
    forall k | k in PubsOf(ps) ensures k in Wanted(desired) {
      var i :| 0 <= i < |ps| && ps[i].pub == k;
      assert desired[i] in desired;
    }
    forall k | k in Wanted(desired) ensures k in PubsOf(ps) {
      var i :| 0 <= i < |desired| && desired[i].pub == k;
      assert ps[i] in ps;
    }
  }

  /** Nothing is asserted for a key exactly when no desire that counts gives it an endpoint. */
  lemma {:induction false} AssertedNoneIff(desired: seq<PeerDesire>, k: WgKey)
    ensures Asserted(desired, k).None? <==>
            forall i :: 0 <= i < |desired| && desired[i].pub == k && desired[i].allowedIPs != [] ==> desired[i].endpoint.None?
  {
    if desired != [] {
      var front, p := desired[..|desired| - 1], desired[|desired| - 1];
      AssertedNoneIff(front, k);
      assert forall i :: 0 <= i < |front| ==> front[i] == desired[i];
      assert desired[|desired| - 1] == p;
    }
  }

  /** Every plan for this key is of a live peer. */
  ghost predicate KeyIsLive(ps: seq<Plan>, k: WgKey) {
    k in PubsOf(ps) && forall i :: 0 <= i < |ps| && ps[i].pub == k ==> ps[i].freshNow
  }

  lemma LiveKeyUnasserted(desired: seq<PeerDesire>, ps: seq<Plan>, k: WgKey)
    requires Respectful(desired, ps) && KeyIsLive(ps, k)
    ensures Asserted(desired, k).None?
  {
    AssertedNoneIff(desired, k);
  }

  /** A key that a stale plan shares is asserted all the same, as soon as that plan has an endpoint. */
  lemma {:induction false} StalePlanAsserts(ps: seq<Plan>, j: nat)
    requires WellFormed(ps) && j < |ps| && ps[j].desire.endpoint.Some?
    ensures Asserted(DesiresOf(ps), ps[j].pub).Some?
  {
    AssertedNoneIff(DesiresOf(ps), ps[j].pub);
    assert DesiresOf(ps)[j].pub == ps[j].pub;
  }

  /**
    No Apply of the Tick touches a live key: the kernel's roamed endpoint, the
    session and its handshake are what they were just before.
   */
  lemma LivePeerLeftAlone(e: Event, ps: seq<Plan>, k: WgKey)
    requires e.Applied? && EventSound(e) && Respectful(e.desired, ps) && KeyIsLive(ps, k) && k in e.before
    ensures k in e.after && e.after[k] == e.before[k] && Asserted(e.desired, k).None?
  {
    WantedOfPlans(e.desired, ps);
    LiveKeyUnasserted(e.desired, ps, k);
  }

  /** A successful Apply leaves exactly the planned peers; peers that stay keep their sessions. */
  lemma PeersAreThePlans(e: Event, ps: seq<Plan>)
    requires e.Applied? && EventSound(e) && Respectful(e.desired, ps)
    ensures e.ok ==> e.after.Keys == PubsOf(ps)
    ensures e.before.Keys == PubsOf(ps) ==> e.after.Keys == PubsOf(ps)
    ensures forall k :: k in e.before && k in PubsOf(ps) ==> k in e.after && e.after[k].session == e.before[k].session
  {
    WantedOfPlans(e.desired, ps);
  }

  // ----- Counting Applies -----

  ghost function Applies(log: seq<Event>): nat {
    if log == [] then 0 else Applies(log[..|log| - 1]) + if log[|log| - 1].Applied? then 1 else 0
  }

  lemma AppliesSnoc(log: seq<Event>, e: Event)
    ensures Applies(log + [e]) == Applies(log) + if e.Applied? then 1 else 0
  {
    assert (log + [e])[..|log|] == log;
  }

  lemma {:induction false} AppliesMono(a: seq<Event>, b: seq<Event>)
    requires a <= b
    ensures Applies(a) <= Applies(b)
  {
    if |a| < |b| {
      AppliesMono(a, b[..|b| - 1]);
    } else {
      assert a == b;
    }
  }

  /** `b` continues `a` without any Apply. */
  ghost predicate Quiet(a: seq<Event>, b: seq<Event>) {
    && a <= b && Applies(b) == Applies(a)
    && forall k :: |a| <= k < |b| ==> !b[k].Applied?
  }

  lemma QuietSnoc(a: seq<Event>, b: seq<Event>, e: Event)
    requires Quiet(a, b) && !e.Applied?
    ensures Quiet(a, b + [e])
  {
    AppliesSnoc(b, e);
  }

  /** After one Apply, quiet events add no Apply and nothing disrespectful. */
  lemma QuietlyOn(base: seq<Event>, applied: seq<Event>, log: seq<Event>, ps: seq<Plan>)
    requires base <= applied && |applied| == |base| + 1 && Quiet(applied, log)
    requires applied[|base|].Applied? ==> Respectful(applied[|base|].desired, ps)
    ensures base <= log && log[|base|] == applied[|base|] && RespectfulSince(log, |base|, ps) && Applies(log) == Applies(applied)
  {
    hide Applies, Respectful;
    assert forall k :: 0 <= k < |applied| ==> log[k] == applied[k];
  }

  lemma QuietlySnoc(base: seq<Event>, applied: seq<Event>, log: seq<Event>, e: Event, ps: seq<Plan>)
    requires base <= applied && |applied| == |base| + 1 && Quiet(applied, log) && !e.Applied?
    requires applied[|base|].Applied? ==> Respectful(applied[|base|].desired, ps)
    ensures base <= log + [e] && RespectfulSince(log + [e], |base|, ps) && Applies(log + [e]) == Applies(applied)
  {
    QuietSnoc(applied, log, e);
    QuietlyOn(base, applied, log + [e], ps);
  }

  lemma QuietTrans(a: seq<Event>, b: seq<Event>, c: seq<Event>)
    requires Quiet(a, b) && Quiet(b, c)
    ensures Quiet(a, c)
  {
    hide Applies;
    assert forall k :: 0 <= k < |b| ==> c[k] == b[k];
  }

  /** One per candidate of every stale peer. */
  ghost function DialBudget(ps: seq<Plan>): nat {
    if ps == [] then 0
    else DialBudget(ps[..|ps| - 1]) + if ps[|ps| - 1].freshNow then 0 else |ps[|ps| - 1].ordered|
  }

  lemma {:induction false} NoStaleNoBudget(ps: seq<Plan>)
    requires forall i :: 0 <= i < |ps| ==> ps[i].freshNow
    ensures DialBudget(ps) == 0
  {
    if ps != [] {
      NoStaleNoBudget(ps[..|ps| - 1]);
    }
  }

  // ----- How a race ends -----

  /** The path to credit: where the kernel says the peer is, when that is not what was dialled. */
  function Credit(cand: Candidate, ep: Option<Udp>): Candidate {
    if ep.Some? && ep.value.hasIP && ep.value.text != cand.addr then Candidate(Prflx, ep.value.text) else cand
  }

  /** The credited path is where the kernel says the peer is, reflexive unless that is what was dialled; without word from the kernel, what was dialled. */
  ghost predicate CreditedFrom(good: Candidate, cand: Candidate, ep: Option<Udp>) {
    if ep.Some? && ep.value.hasIP then
      good.addr == ep.value.text && good.kind == if ep.value.text == cand.addr then cand.kind else Prflx
    else good == cand
  }

  /** The endpoint a winning plan carries into later Applies: the kernel's, if it differs from what was dialled. */
  function WonEndpoint(net: NetLib, cand: Candidate, ep: Option<Udp>): Option<Udp> {
    if ep.Some? && ep.value.hasIP && ep.value.text != cand.addr then ep else net.resolve(cand.addr)
  }

  /** A poll of a peer that showed a handshake newer than `start`. */
  predicate ShowsNewer(e: Event, start: int) {
    e.Polled? && e.seen.Some? && e.seen.value > start
  }

  ghost predicate NoneNewer(log: seq<Event>, a: nat, b: nat, start: int) {
    forall k :: a <= k < b && k < |log| ==> !ShowsNewer(log[k], start)
  }

  /** Sleeps and polls of `pub` in turn, each round begun before the deadline. */
  ghost predicate Polling(log: seq<Event>, a: nat, b: nat, pub: WgKey, start: int) {
    && a <= b <= |log| && (b - a) % 2 == 0
    && (forall k :: a <= k < b && (k - a) % 2 == 0 ==> log[k].Slept? && log[k].d == 150_000_000)
    && (forall k :: a <= k < b && (k - a) % 2 == 1 ==> log[k].Polled? && log[k].pub == pub)
    && (forall k :: a <= k < b - 1 && (k - a) % 2 == 1 ==> log[k].at < start + 2_500_000_000)
  }

  lemma PollingStarts(log: seq<Event>, pub: WgKey, start: int)
    ensures Quiet(log, log) && Polling(log, |log|, |log|, pub, start) && NoneNewer(log, |log|, |log|, start)
  {
  }

  /** One more round of sleeping and polling. */
  lemma PollingMore(base: seq<Event>, log: seq<Event>, pub: WgKey, start: int, slept: Event, polled: Event)
    requires Quiet(base, log) && Polling(log, |base|, |log|, pub, start) && NoneNewer(log, |base|, |log|, start)
    requires |log| > |base| ==> log[|log| - 1].at < start + RACE_WAIT
    requires slept.Slept? && slept.d == RACE_POLL && polled.Polled? && polled.pub == pub
    ensures var more := log + [slept, polled];
            && Quiet(base, more) && Polling(more, |base|, |more|, pub, start) && NoneNewer(more, |base|, |more| - 1, start)
            && (!ShowsNewer(polled, start) ==> NoneNewer(more, |base|, |more|, start))
  {
    var more := log + [slept, polled];
    QuietSnoc(base, log, slept);
    QuietSnoc(base, log + [slept], polled);
    assert more == log + [slept] + [polled];
    hide Quiet, ShowsNewer;
    assert more[|log|] == slept && more[|log| + 1] == polled && forall k :: 0 <= k < |log| ==> more[k] == log[k];
    assert !ShowsNewer(slept, start) by { NoShow(slept, start); }
  }

  lemma NoShow(e: Event, start: int)
    requires e.Slept?
    ensures !ShowsNewer(e, start)
  {
  }

  lemma NoneNewerLess(log: seq<Event>, a: nat, b: nat, start: int)
    requires NoneNewer(log, a, b, start)
    ensures b > 0 ==> NoneNewer(log, a, b - 1, start)
  {
  }

  datatype DialResult = Skipped | Refused | Silent | Won

  /** An Apply that put plan `i` at the candidate's address. */
  ghost predicate DialApplied(net: NetLib, e: Event, i: nat, cand: Candidate) {
    e.Applied? && i < |e.desired| && net.resolve(cand.addr).Some? && e.desired[i].endpoint == net.resolve(cand.addr)
  }

  /** Events `a` up to `b` are those of one dial of `cand` with this result; `good` is what a win credits. */
  ghost predicate Dialed(net: NetLib, log: seq<Event>, a: nat, b: nat, i: nat, p: Plan, cand: Candidate, r: DialResult, good: Candidate) {
    && a <= b <= |log|
    && match r
       case Skipped => a == b && net.resolve(cand.addr).None?
       case Refused => b == a + 1 && DialApplied(net, log[a], i, cand) && !log[a].ok
       case Silent =>
         && a + 1 < b && DialApplied(net, log[a], i, cand) && log[a].ok
         && Polling(log, a + 1, b, p.pub, log[a].at) && NoneNewer(log, a + 1, b, log[a].at)
         && log[b - 1].at >= log[a].at + 2_500_000_000
       case Won =>
         && a + 3 < b && DialApplied(net, log[a], i, cand) && log[a].ok
         && Polling(log, a + 1, b - 1, p.pub, log[a].at) && NoneNewer(log, a + 1, b - 2, log[a].at)
         && ShowsNewer(log[b - 2], log[a].at)
         && log[b - 1].Observed? && log[b - 1].pub == p.pub && CreditedFrom(good, cand, log[b - 1].endpoint)
  }

  /** What a dial leaves of the plan it was made for. */
  function PlanAfterDial(net: NetLib, p: Plan, cand: Candidate, r: DialResult, seen: Option<Udp>): Plan {
    match r
    case Skipped => p
    case Won => p.(desire := p.desire.(endpoint := WonEndpoint(net, cand, seen)), winner := Credit(cand, seen), haveWin := true)
    case _ => p.(desire := p.desire.(endpoint := net.resolve(cand.addr)))
  }

  /**
    A won plan credits and carries on with the place where the kernel saw the
    peer; otherwise with what was dialled. Any other dial leaves the endpoint
    of the plan where it was put.
   */
  lemma DialedPlanFollowsTheKernel(net: NetLib, p: Plan, cand: Candidate, r: DialResult, seen: Option<Udp>)
    ensures var q, there := PlanAfterDial(net, p, cand, r, seen), seen.Some? && seen.value.hasIP;
            && (r.Won? ==> q.haveWin && CreditedFrom(q.winner, cand, seen))
            && (r.Won? && there ==> q.winner.addr == seen.value.text && (q.desire.endpoint == seen || seen.value.text == cand.addr))
            && (r.Won? && (!there || seen.value.text == cand.addr) ==> q.desire.endpoint == net.resolve(cand.addr))
            && (!r.Won? ==> q.winner == p.winner && q.desire.endpoint == if r.Skipped? then p.desire.endpoint else net.resolve(cand.addr))
  {
  }

  /** What a race has left of its plan after the first `n` dials; each dial starts from the plan's own desire. */
  ghost function PlanAfterDials(net: NetLib, log: seq<Event>, p: Plan, race: Race, n: nat): Plan
    requires n <= |race.results| < |race.cuts| && |race.results| <= |p.ordered|
  {
    if n == 0 then p
    else if race.results[n - 1].Skipped? then PlanAfterDials(net, log, p, race, n - 1)
    else PlanAfterDial(net, p, p.ordered[n - 1], race.results[n - 1], LastSeen(log, race.cuts[n]))
  }

  /** The endpoint observed by the last event before `b`, if it was an observation. */
  function LastSeen(log: seq<Event>, b: nat): Option<Udp> {
    if 0 < b <= |log| && log[b - 1].Observed? then log[b - 1].endpoint else None
  }

  /** Dial number `k` of a race took events `cuts[k]` up to `cuts[k + 1]` and ended as `results[k]`. */
  datatype Race = Race(cuts: seq<nat>, results: seq<DialResult>)

  ghost predicate DialsRan(net: NetLib, log: seq<Event>, from: nat, i: nat, p: Plan, race: Race, good: Candidate) {
    && |race.cuts| == |race.results| + 1 && |race.results| <= |p.ordered| && from <= race.cuts[0]
    && forall k :: 0 <= k < |race.results| ==>
         Dialed(net, log, race.cuts[k], race.cuts[k + 1], i, p, p.ordered[k], race.results[k], good)
  }

  /** Dials that neither won nor were refused: the race goes on. */
  ghost predicate GoesOn(results: seq<DialResult>) {
    forall k :: 0 <= k < |results| ==> results[k].Skipped? || results[k].Silent?
  }

  ghost predicate EndsWith(results: seq<DialResult>, r: DialResult) {
    results != [] && results[|results| - 1] == r && GoesOn(results[..|results| - 1])
  }

  /**
    A whole race: the candidates are dialled in list order, up to the first win
    or refusal or to the end. A win credits the path it proved; without one
    nothing is remembered.
   */
  ghost predicate RaceRan(net: NetLib, log: seq<Event>, from: nat, i: nat, p: Plan, race: Race, good: Candidate) {
    && DialsRan(net, log, from, i, p, race, good)
    && (EndsWith(race.results, Won)
        || (good == NO_CANDIDATE && (EndsWith(race.results, Refused) || (GoesOn(race.results) && |race.results| == |p.ordered|))))
  }

  /** `good` is what a race of plan `i` since event `from` left in memory. */
  ghost predicate Settled(net: NetLib, log: seq<Event>, from: nat, i: nat, p: Plan, good: Candidate) {
    exists race :: RaceRan(net, log, from, i, p, race, good)
  }

  lemma DialedLater(net: NetLib, log: seq<Event>, log': seq<Event>, a: nat, b: nat, i: nat, p: Plan, p': Plan, cand: Candidate, r: DialResult, good: Candidate)
    requires Dialed(net, log, a, b, i, p, cand, r, good) && log <= log' && p'.pub == p.pub
    ensures Dialed(net, log', a, b, i, p', cand, r, good)
  {
    hide Credit;
    assert forall k :: 0 <= k < |log| ==> log'[k] == log[k];
  }

  /** What has not won credits nothing. */
  lemma DialedAnyGood(net: NetLib, log: seq<Event>, a: nat, b: nat, i: nat, p: Plan, cand: Candidate, r: DialResult, good: Candidate, good': Candidate)
    requires Dialed(net, log, a, b, i, p, cand, r, good) && !r.Won?
    ensures Dialed(net, log, a, b, i, p, cand, r, good')
  {
    hide Polling, NoneNewer;
  }

  lemma SilentDial(net: NetLib, log: seq<Event>, a: nat, i: nat, p: Plan, cand: Candidate, good: Candidate)
    requires a + 2 < |log| && DialApplied(net, log[a], i, cand) && log[a].ok
    requires Polling(log, a + 1, |log|, p.pub, log[a].at) && NoneNewer(log, a + 1, |log| - 1, log[a].at)
    requires !ShowsNewer(log[|log| - 1], log[a].at) && log[|log| - 1].at >= log[a].at + RACE_WAIT
    ensures Dialed(net, log, a, |log|, i, p, cand, Silent, good)
  {
  }

  lemma WonDial(net: NetLib, log: seq<Event>, seen: Event, a: nat, i: nat, p: Plan, cand: Candidate, good: Candidate)
    requires a + 2 < |log| && DialApplied(net, log[a], i, cand) && log[a].ok
    requires Polling(log, a + 1, |log|, p.pub, log[a].at) && NoneNewer(log, a + 1, |log| - 1, log[a].at)
    requires ShowsNewer(log[|log| - 1], log[a].at) && seen.Observed? && seen.pub == p.pub && good == Credit(cand, seen.endpoint)
    ensures Dialed(net, log + [seen], a, |log| + 1, i, p, cand, Won, good)
  {
    var all := log + [seen];
    assert forall k :: 0 <= k < |log| ==> all[k] == log[k];
    assert all[|log|] == seen;
  }

  lemma DialsAnyGood(net: NetLib, log: seq<Event>, from: nat, i: nat, p: Plan, race: Race, good: Candidate, good': Candidate)
    requires DialsRan(net, log, from, i, p, race, good) && (GoesOn(race.results) || EndsWith(race.results, Refused))
    ensures DialsRan(net, log, from, i, p, race, good')
  {
    hide Dialed;
    forall k | 0 <= k < |race.results|
      ensures Dialed(net, log, race.cuts[k], race.cuts[k + 1], i, p, p.ordered[k], race.results[k], good')
    {
      assert k < |race.results| - 1 ==> race.results[..|race.results| - 1][k] == race.results[k];
      DialedAnyGood(net, log, race.cuts[k], race.cuts[k + 1], i, p, p.ordered[k], race.results[k], good, good');
    }
  }

  lemma SettledLater(net: NetLib, log: seq<Event>, log': seq<Event>, from: nat, from': nat, i: nat, p: Plan, p': Plan, good: Candidate)
    requires Settled(net, log, from, i, p, good) && log <= log' && from' <= from && SamePeer(p, p')
    ensures Settled(net, log', from', i, p', good)
  {
    hide Dialed, GoesOn;
    var race :| RaceRan(net, log, from, i, p, race, good);
    forall k | 0 <= k < |race.results|
      ensures Dialed(net, log', race.cuts[k], race.cuts[k + 1], i, p', p'.ordered[k], race.results[k], good)
    {
      DialedLater(net, log, log', race.cuts[k], race.cuts[k + 1], i, p, p', p.ordered[k], race.results[k], good);
    }
    assert RaceRan(net, log', from', i, p', race, good);
  }

  lemma RaceStarts(net: NetLib, log: seq<Event>, i: nat, p: Plan, good: Candidate)
    ensures DialsRan(net, log, |log|, i, p, Race([|log|], []), good) && GoesOn([])
  {
  }

  /** One more dial, from where the race had got to. */
  lemma RaceGoesOn(net: NetLib, log: seq<Event>, log': seq<Event>, from: nat, i: nat, p: Plan, race: Race, r: DialResult, good: Candidate, good': Candidate)
    requires DialsRan(net, log, from, i, p, race, good) && GoesOn(race.results) && race.cuts[|race.cuts| - 1] == |log| && log <= log'
    requires |race.results| < |p.ordered| && Dialed(net, log', |log|, |log'|, i, p, p.ordered[|race.results|], r, good')
    ensures DialsRan(net, log', from, i, p, Race(race.cuts + [|log'|], race.results + [r]), good')
    ensures r.Won? || r.Refused? ==> EndsWith(race.results + [r], r)
    ensures r.Skipped? || r.Silent? ==> GoesOn(race.results + [r])
  {
    hide Dialed;
    var cuts, results := race.cuts + [|log'|], race.results + [r];
    assert results[..|race.results|] == race.results;
    forall k | 0 <= k < |results| ensures Dialed(net, log', cuts[k], cuts[k + 1], i, p, p.ordered[k], results[k], good') {
      if k < |race.results| {
        assert cuts[k] == race.cuts[k] && cuts[k + 1] == race.cuts[k + 1] && results[k] == race.results[k];
        DialedLater(net, log, log', cuts[k], cuts[k + 1], i, p, p, p.ordered[k], results[k], good);
        DialedAnyGood(net, log', cuts[k], cuts[k + 1], i, p, p.ordered[k], results[k], good, good');
      }
    }
  }

  lemma {:induction false} PlanAfterDialsLater(net: NetLib, log: seq<Event>, log': seq<Event>, from: nat, i: nat, p: Plan, race: Race,
                                               r: DialResult, cut: nat, good: Candidate, n: nat)
    requires DialsRan(net, log, from, i, p, race, good) && log <= log' && n <= |race.results| < |p.ordered|
    ensures PlanAfterDials(net, log', p, Race(race.cuts + [cut], race.results + [r]), n) == PlanAfterDials(net, log, p, race, n)
  {
    hide PlanAfterDial, DialApplied, Polling, NoneNewer;
    if n > 0 {
      PlanAfterDialsLater(net, log, log', from, i, p, race, r, cut, good, n - 1);
      assert Dialed(net, log, race.cuts[n - 1], race.cuts[n], i, p, p.ordered[n - 1], race.results[n - 1], good);
      assert forall k :: 0 <= k < |log| ==> log'[k] == log[k];
    }
  }

  /** One more dial of a race: a skipped one leaves the plan as it was, any other starts afresh. */
  lemma PlanAfterMore(net: NetLib, log: seq<Event>, log': seq<Event>, from: nat, i: nat, p: Plan, race: Race, r: DialResult, good: Candidate)
    requires DialsRan(net, log, from, i, p, race, good) && log <= log' && |race.results| < |p.ordered|
    ensures var more := Race(race.cuts + [|log'|], race.results + [r]);
            PlanAfterDials(net, log', p, more, |more.results|) ==
            if r.Skipped? then PlanAfterDials(net, log, p, race, |race.results|)
            else PlanAfterDial(net, p, p.ordered[|race.results|], r, LastSeen(log', |log'|))
  {
    hide PlanAfterDial, DialsRan;
    assert |race.cuts| == |race.results| + 1 by { DialsRanShape(net, log, from, i, p, race, good); }
    var more, n := Race(race.cuts + [|log'|], race.results + [r]), |race.results|;
    assert more.results[n] == r && more.cuts[n + 1] == |log'|;
    if r.Skipped? { PlanAfterDialsLater(net, log, log', from, i, p, race, r, |log'|, good, n); }
  }

  lemma DialsRanShape(net: NetLib, log: seq<Event>, from: nat, i: nat, p: Plan, race: Race, good: Candidate)
    requires DialsRan(net, log, from, i, p, race, good)
    ensures |race.cuts| == |race.results| + 1 && |race.results| <= |p.ordered|
  {
  }

  // ----- What a Tick remembers -----

  ghost predicate SameMemory(was: map<string, Candidate>, now: map<string, Candidate>, name: string) {
    (name in was <==> name in now) && (name in was ==> was[name] == now[name])
  }

  /** The kernel's endpoint, if the observation shows one, has become the winner; else nothing has changed. */
  ghost predicate AdoptedBy(e: Event, p: Plan, was: map<string, Candidate>, now: map<string, Candidate>) {
    && e.Observed? && e.pub == p.pub
    && if e.endpoint.Some? && e.endpoint.value.hasIP then p.name in now && now[p.name] == Candidate(Prflx, e.endpoint.value.text)
       else SameMemory(was, now, p.name)
  }

  /** What the turn of plan `i` does to the memory of its peer. */
  ghost predicate TurnDone(net: NetLib, log: seq<Event>, from: nat, i: nat, p: Plan, was: map<string, Candidate>, now: map<string, Candidate>) {
    if p.freshNow && p.haveWin then SameMemory(was, now, p.name)
    else if p.freshNow then exists k :: from <= k < |log| && AdoptedBy(log[k], p, was, now)
    else if p.ordered == [] then SameMemory(was, now, p.name)
    else p.name in now && Settled(net, log, from, i, p, now[p.name])
  }

  /** The first `n` plans have had their turn, and nobody else's memory has changed. */
  ghost predicate SettledUpTo(net: NetLib, log: seq<Event>, from: nat, ps: seq<Plan>, was: map<string, Candidate>, now: map<string, Candidate>, n: nat)
    requires n <= |ps|
  {
    && (forall i :: 0 <= i < n ==> TurnDone(net, log, from, i, ps[i], was, now))
    && (forall m :: (forall i :: 0 <= i < n ==> ps[i].name != m) ==> SameMemory(was, now, m))
  }

  lemma TurnDoneLater(net: NetLib, log: seq<Event>, log': seq<Event>, from: nat, from': nat, i: nat, p: Plan,
                      was: map<string, Candidate>, now: map<string, Candidate>, now': map<string, Candidate>)
    requires TurnDone(net, log, from, i, p, was, now) && log <= log' && from' <= from && SameMemory(now, now', p.name)
    ensures TurnDone(net, log', from', i, p, was, now')
  {
    hide Settled, AdoptedBy;
    if p.freshNow && !p.haveWin {
      var k :| from <= k < |log| && AdoptedBy(log[k], p, was, now);
      assert log'[k] == log[k];
      AdoptedStill(log[k], p, was, now, now');
    } else if !p.freshNow && p.ordered != [] {
      SettledLater(net, log, log', from, from', i, p, p, now[p.name]);
    }
  }

  lemma AdoptedStill(e: Event, p: Plan, was: map<string, Candidate>, now: map<string, Candidate>, now': map<string, Candidate>)
    requires AdoptedBy(e, p, was, now) && SameMemory(now, now', p.name)
    ensures AdoptedBy(e, p, was, now')
  {
  }

  lemma SettledStart(net: NetLib, log: seq<Event>, from: nat, ps: seq<Plan>, was: map<string, Candidate>)
    ensures SettledUpTo(net, log, from, ps, was, was, 0)
  {
  }

  /** The turn of plan `n` is done and has touched nobody else. */
  lemma SettledMore(net: NetLib, log: seq<Event>, log': seq<Event>, from: nat, ps: seq<Plan>,
                    was: map<string, Candidate>, now: map<string, Candidate>, now': map<string, Candidate>, n: nat)
    requires n < |ps| && DistinctNames(ps) && log <= log'
    requires SettledUpTo(net, log, from, ps, was, now, n)
    requires forall m :: m != ps[n].name ==> SameMemory(now, now', m)
    requires TurnDone(net, log', from, n, ps[n], now, now')
    ensures SettledUpTo(net, log', from, ps, was, now', n + 1)
  {
    hide TurnDone;
    assert SameMemory(was, now, ps[n].name);
    forall m | forall i :: 0 <= i < n + 1 ==> ps[i].name != m ensures SameMemory(was, now', m) {
      assert ps[n].name != m;
      assert SameMemory(was, now, m) && SameMemory(now, now', m);
    }
    forall i | 0 <= i < n + 1 ensures TurnDone(net, log', from, i, ps[i], was, now') {
      if i < n {
        TurnDoneLater(net, log, log', from, from, i, ps[i], was, now, now');
      } else {
        TurnFrom(net, log', from, n, ps[n], was, now, now');
      }
    }
  }

  /** A turn that began from the same memory of its peer. */
  lemma TurnFrom(net: NetLib, log: seq<Event>, from: nat, i: nat, p: Plan,
                 was: map<string, Candidate>, now: map<string, Candidate>, now': map<string, Candidate>)
    requires TurnDone(net, log, from, i, p, now, now') && SameMemory(was, now, p.name)
    ensures TurnDone(net, log, from, i, p, was, now')
  {
    hide Settled;
    if p.freshNow && !p.haveWin {
      var k :| from <= k < |log| && AdoptedBy(log[k], p, now, now');
      assert AdoptedBy(log[k], p, was, now');
    }
  }

  lemma SettledExtended(net: NetLib, log: seq<Event>, log': seq<Event>, from: nat, from': nat, ps: seq<Plan>,
                        was: map<string, Candidate>, now: map<string, Candidate>)
    requires SettledUpTo(net, log, from, ps, was, now, |ps|) && log <= log' && from' <= from
    ensures SettledUpTo(net, log', from', ps, was, now, |ps|)
  {
    hide TurnDone;
    forall i | 0 <= i < |ps| ensures TurnDone(net, log', from', i, ps[i], was, now) {
      TurnDoneLater(net, log, log', from, from', i, ps[i], was, now, now);
    }
  }

  lemma RespectfulExtended(log: seq<Event>, log': seq<Event>, from: nat, ps: seq<Plan>, ps': seq<Plan>)
    requires from <= |log| && log <= log' && RespectfulSince(log, from, ps) && RespectfulSince(log', |log|, ps') && SamePeers(ps', ps)
    ensures RespectfulSince(log', from, ps)
  {
    forall k | from <= k < |log'| && log'[k].Applied? ensures Respectful(log'[k].desired, ps) {
      if k < |log| {
        assert log'[k] == log[k];
      } else {
        RespectfulSamePeers(log'[k].desired, ps', ps);
      }
    }
  }

  lemma RespectfulQuietly(log: seq<Event>, log': seq<Event>, from: nat, ps: seq<Plan>)
    requires from <= |log| && RespectfulSince(log, from, ps) && Quiet(log, log')
    ensures RespectfulSince(log', from, ps)
  {
    forall k | from <= k < |log'| && log'[k].Applied? ensures Respectful(log'[k].desired, ps) {
      assert k < |log| && log'[k] == log[k];
    }
  }
}
