/** The reconcile loop (internal/mesh/daemon.go): one Tick builds plans, converges endpoints and NAT, and evicts. */
module Daemons {
  import opened Wrappers
  import opened Records
  import opened Rosters
  import opened Peers
  import opened Devices
  import opened Plans
  import opened Routers
  import opened SpokeNat
  import opened Spokes
  import RosterProtocol
  import Names

  const DEFAULT_EVICT_AFTER: int := 540_000_000_000

  function EvictAfter(staleAfter: int): int {
    if staleAfter > 0 then 3 * staleAfter else DEFAULT_EVICT_AFTER
  }

  predicate Fresh(seen: Option<int>, at: int, staleAfter: int) {
    seen.Some? && at - seen.value < staleAfter
  }

  /** A spoke that has connected and has then been quiet for the eviction window. */
  predicate Departed(seen: Option<int>, at: int, staleAfter: int) {
    seen.Some? && at - seen.value >= EvictAfter(staleAfter)
  }

  /** parseCIDRs: valid entries only, each once, in order of first appearance. */
  function ParsedCIDRs(parse: string -> Option<Subnet>, ss: seq<string>): seq<Subnet> {
    if ss == [] then []
    else
      var out := ParsedCIDRs(parse, ss[..|ss| - 1]);
      match parse(Names.TrimSpace(ss[|ss| - 1]))
      case None => out
      case Some(sub) => if exists i :: 0 <= i < |out| && out[i].text == sub.text then out else out + [sub]
  }

  function Texts(nets: seq<Subnet>): seq<string> {
    if nets == [] then [] else Texts(nets[..|nets| - 1]) + [nets[|nets| - 1].text]
  }

  /** Exactly the subnets that some entry parses to, up to spelling, are kept. */
  lemma {:induction false} ParsedCIDRsKeepAll(parse: string -> Option<Subnet>, ss: seq<string>, text: string)
    ensures (exists n :: n in ParsedCIDRs(parse, ss) && n.text == text) <==>
            exists s :: s in ss && parse(Names.TrimSpace(s)).Some? && parse(Names.TrimSpace(s)).value.text == text
  {
    hide Names.TrimSpace;
    if ss != [] {
      var front, last := ss[..|ss| - 1], ss[|ss| - 1];
      ParsedCIDRsKeepAll(parse, front, text);
      assert ss == front + [last];
      assert forall s :: s in ss <==> s in front || s == last;
      var before, net := ParsedCIDRs(parse, front), parse(Names.TrimSpace(last));
      if net.Some? && net.value.text == text {
        assert last in ss;
        if i :| 0 <= i < |before| && before[i].text == text {
          assert before[i] in ParsedCIDRs(parse, ss);
        } else {
          assert net.value in ParsedCIDRs(parse, ss);
        }
      } else {
        assert forall n :: n in before ==> n in ParsedCIDRs(parse, ss);
        assert forall n :: n in ParsedCIDRs(parse, ss) && n.text == text ==> n in before;
      }
    }
  }

  method ParseCIDRs(parse: string -> Option<Subnet>, ss: seq<string>) returns (out: seq<Subnet>)
    ensures out == ParsedCIDRs(parse, ss)
    ensures forall i, j :: 0 <= i < j < |out| ==> out[i].text != out[j].text
  {
    out := [];
    var seen: set<string> := {};
    for i := 0 to |ss|
      invariant out == ParsedCIDRs(parse, ss[..i])
      invariant seen == set s | s in out :: s.text
      invariant forall i, j :: 0 <= i < j < |out| ==> out[i].text != out[j].text
    {
      assert ss[..i + 1][..i] == ss[..i];
      hide Names.TrimSpace;
      var net := parse(Names.TrimSpace(ss[i]));
      if net.Some? && net.value.text !in seen {
        assert forall k :: 0 <= k < |out| ==> out[k] in out;
        seen := seen + {net.value.text};
        out := out + [net.value];
      }
    }
    assert ss[..|ss|] == ss;
  }

  /** The spokes that get source NAT: those with an overlay address. */
  ghost function SpokeIPs(d: Deriver, spokes: set<string>): map<string, string> {
    map n | n in spokes && OverlayIP(d, n).Some? :: OverlayIP(d, n).value
  }

  /** This poll decided it: evicted means a handshake three stale limits ago, or nine minutes when there is no limit. */
  ghost predicate JudgedBy(d: Deriver, e: Event, n: string, evicted: bool, staleAfter: int) {
    && e.Polled? && e.pub == PubOf(d, n)
    && (evicted <==> e.seen.Some? && e.seen.value <= e.at - if staleAfter > 0 then 3 * staleAfter else 540_000_000_000)
  }

  /** A spoke is evicted exactly when a poll since `from` found it departed; a name without a key stays. */
  ghost predicate Judged(d: Deriver, log: seq<Event>, from: nat, n: string, evicted: bool, staleAfter: int) {
    if Names.Valid(Names.Normalize(n)) then exists k :: from <= k < |log| && JudgedBy(d, log[k], n, evicted, staleAfter)
    else !evicted
  }

  /** `n` was judged, and `kept` holds what was left. */
  ghost predicate JudgedAs(d: Deriver, log: seq<Event>, from: nat, n: string, kept: set<string>, staleAfter: int) {
    Judged(d, log, from, n, n !in kept, staleAfter)
  }

  lemma JudgedLater(d: Deriver, log: seq<Event>, log': seq<Event>, from: nat, n: string, evicted: bool, staleAfter: int)
    requires Judged(d, log, from, n, evicted, staleAfter) && log <= log'
    ensures Judged(d, log', from, n, evicted, staleAfter)
  {
    if Names.Valid(Names.Normalize(n)) {
      var k :| from <= k < |log| && JudgedBy(d, log[k], n, evicted, staleAfter);
      assert log'[k] == log[k];
    }
  }

  /** The poll that decided whether a peer's session is live. */
  ghost predicate MarkedBy(p: Plan, e: Event, staleAfter: int) {
    e.Polled? && e.pub == p.pub && (p.freshNow <==> e.seen.Some? && e.at < e.seen.value + staleAfter)
  }

  // ----- Building plans -----

  /** The peers a Tick plans for: the roster's names and the hub's own spokes, where derivation succeeds. */
  ghost function Planned(d: Deriver, view: View, spokes: set<string>): set<string> {
    set n | n in view.Keys + spokes && Plannable(d, n)
  }

  /** What a Tick's plans are made from. */
  datatype Context = Context(
    d: Deriver, net: NetLib, parse: string -> Option<Subnet>, view: View, mine: seq<Candidate>, lastGood: map<string, Candidate>)

  /** The peer's announced subnets, if it is in the roster, then its overlay address. */
  ghost function AllowedFor(c: Context, name: string): seq<string>
    requires Plannable(c.d, name)
  {
    (if name in c.view then Texts(ParsedCIDRs(c.parse, c.view[name].adv)) else []) + [OverlayIP(c.d, name).value + "/32"]
  }

  /** A roster peer is allowed its overlay address and exactly the subnets that its announcements parse to; a spoke its address only. */
  lemma PlanAllows(c: Context, from: nat, log: seq<Event>, p: Plan, text: string)
    requires PlanFor(c, from, log, p)
    ensures text in p.desire.allowedIPs <==>
            || text == OverlayIP(c.d, p.name).value + "/32"
            || (p.name in c.view && exists s :: s in c.view[p.name].adv && c.parse(Names.TrimSpace(s)).Some? && c.parse(Names.TrimSpace(s)).value.text == text)
  {
    if p.name in c.view {
      ParsedCIDRsKeepAll(c.parse, c.view[p.name].adv, text);
      TextsAre(ParsedCIDRs(c.parse, c.view[p.name].adv), text);
    }
    hide ParsedCIDRs, Texts, Names.TrimSpace, OrderedBy;
  }

  lemma {:induction false} TextsAre(nets: seq<Subnet>, text: string)
    ensures text in Texts(nets) <==> exists n :: n in nets && n.text == text
  {
    if nets != [] {
      TextsAre(nets[..|nets| - 1], text);
      assert nets == nets[..|nets| - 1] + [nets[|nets| - 1]];
    }
  }

  /** The dial list follows what the kernel reported for this peer at this event. */
  ghost predicate OrderedBy(c: Context, e: Event, p: Plan)
    requires p.name in c.view
  {
    e.Observed? && e.pub == p.pub && p.ordered == OrderedFor(c.net, e.endpoint, c.mine, c.view[p.name].candidates)
  }

  /** A freshly built plan; the observation behind its dial list was made since event `from`. */
  ghost predicate PlanFor(c: Context, from: nat, log: seq<Event>, p: Plan) {
    && Plannable(c.d, p.name) && p.pub == PubOf(c.d, p.name)
    && p.desire == PeerDesire(p.name, p.pub, None, AllowedFor(c, p.name))
    && p.winner == Remembered(c.lastGood, p.name) && p.haveWin == (p.winner.addr != "") && !p.freshNow
    && if p.name in c.view then exists k :: from <= k < |log| && OrderedBy(c, log[k], p) else p.ordered == []
  }

  ghost predicate PlansFor(c: Context, from: nat, log: seq<Event>, ps: seq<Plan>) {
    DistinctNames(ps) && forall i :: 0 <= i < |ps| ==> PlanFor(c, from, log, ps[i])
  }

  lemma PlanForLater(c: Context, from: nat, log: seq<Event>, log': seq<Event>, p: Plan)
    requires PlanFor(c, from, log, p) && log <= log'
    ensures PlanFor(c, from, log', p)
  {
    hide Plannable, AllowedFor, OrderedBy;
    if p.name in c.view {
      var k :| from <= k < |log| && OrderedBy(c, log[k], p);
      assert log'[k] == log[k];
    }
  }

  lemma PlanForSince(c: Context, from: nat, from': nat, log: seq<Event>, p: Plan)
    requires PlanFor(c, from', log, p) && from <= from'
    ensures PlanFor(c, from, log, p)
  {
    hide Plannable, AllowedFor, OrderedBy;
  }

  lemma PlansForLater(c: Context, from: nat, log: seq<Event>, log': seq<Event>, ps: seq<Plan>)
    requires PlansFor(c, from, log, ps) && log <= log'
    ensures PlansFor(c, from, log', ps)
  {
    hide PlanFor;
    forall i | 0 <= i < |ps| ensures PlanFor(c, from, log', ps[i]) {
      PlanForLater(c, from, log, log', ps[i]);
    }
  }

  lemma PlansSnoc(c: Context, from: nat, log: seq<Event>, ps: seq<Plan>, p: Plan)
    requires PlansFor(c, from, log, ps) && PlanFor(c, from, log, p) && p.name !in NamesOf(ps)
    ensures PlansFor(c, from, log, ps + [p])
    ensures NamesOf(ps + [p]) == NamesOf(ps) + {p.name}
  {
    hide PlanFor;
    forall i | 0 <= i < |ps| ensures ps[i].name != p.name {
      assert ps[i] in ps;
    }
    forall n | n in NamesOf(ps) ensures n in NamesOf(ps + [p]) {
      var q :| q in ps && q.name == n;
      assert q in ps + [p];
    }
    assert p in ps + [p];
  }

  /** No two of the names have the same normal form. */
  ghost predicate NormalizeInjectiveOn(names: set<string>) {
    forall a, b :: a in names && b in names && Names.Normalize(a) == Names.Normalize(b) ==> a == b
  }

  /** Plans have distinct keys exactly when their names have distinct normal forms. */
  lemma DistinctPubsIff(d: Deriver, ps: seq<Plan>)
    requires DistinctNames(ps) && forall i :: 0 <= i < |ps| ==> ps[i].pub == PubOf(d, ps[i].name)
    ensures DistinctPubs(ps) <==> NormalizeInjectiveOn(NamesOf(ps))
  {
    hide Names.Normalize;
    if NormalizeInjectiveOn(NamesOf(ps)) {
      forall i, j | 0 <= i < j < |ps| ensures ps[i].pub != ps[j].pub {
        assert ps[i] in ps && ps[j] in ps;
      }
    }
    if DistinctPubs(ps) {
      forall a, b | a in NamesOf(ps) && b in NamesOf(ps) && Names.Normalize(a) == Names.Normalize(b) ensures a == b {
        var i :| 0 <= i < |ps| && ps[i].name == a;
        var j :| 0 <= j < |ps| && ps[j].name == b;
        assert ps[i].pub == ps[j].pub;
      }
    }
  }

  /** An Apply of the state with plan `i` at `ep`. */
  ghost predicate DialedAt(e: Event, ps: seq<Plan>, i: nat, ep: Option<Udp>, ok: bool, at: int)
    requires i < |ps|
  {
    && e.Applied? && e.ok == ok && e.at == at && e.desired == DesiresOf(StateWith(ps, i, ep))
    && Respectful(e.desired, ps) && i < |e.desired| && e.desired[i].endpoint == ep
  }

  function StateWith(ps: seq<Plan>, i: nat, ep: Option<Udp>): seq<Plan>
    requires i < |ps|
  {
    ps[i := ps[i].(desire := ps[i].desire.(endpoint := ep))]
  }

  /** The log ends with one deciding poll per plan, in order. */
  ghost predicate AllMarked(ps: seq<Plan>, log: seq<Event>, staleAfter: int) {
    |ps| <= |log| && forall i :: 0 <= i < |ps| ==> MarkedBy(ps[i], log[|log| - |ps| + i], staleAfter)
  }

  /** What the first Apply asserts: nothing for a live peer, else the remembered winner, else the first candidate. */
  function InitialEndpoint(net: NetLib, p: Plan): Option<Udp> {
    if p.freshNow then None
    else if p.haveWin then net.resolve(p.winner.addr)
    else if p.ordered != [] then net.resolve(p.ordered[0].addr)
    else None
  }

  ghost predicate Primed(net: NetLib, ps: seq<Plan>) {
    forall i :: 0 <= i < |ps| ==> ps[i].desire.endpoint == InitialEndpoint(net, ps[i])
  }

  function Unprimed(p: Plan): Plan {
    p.(freshNow := false, desire := p.desire.(endpoint := None))
  }

  /** Plans at the first Apply: one per planned name, built from the view and then marked and primed. */
  ghost predicate PlannedPeers(c: Context, spokes: set<string>, from: nat, log: seq<Event>, ps: seq<Plan>) {
    && DistinctNames(ps) && WellFormed(ps) && FreshUnasserted(ps) && Primed(c.net, ps)
    && NamesOf(ps) == Planned(c.d, c.view, spokes)
    && forall i :: 0 <= i < |ps| ==> PlanFor(c, from, log, Unprimed(ps[i]))
  }

  ghost predicate UnprimedPeers(c: Context, spokes: set<string>, from: nat, log: seq<Event>, ps: seq<Plan>) {
    && DistinctNames(ps) && WellFormed(ps) && NamesOf(ps) == Planned(c.d, c.view, spokes)
    && (forall i :: 0 <= i < |ps| ==> ps[i].desire.endpoint.None?)
    && forall i :: 0 <= i < |ps| ==> PlanFor(c, from, log, Unprimed(ps[i]))
  }

  lemma NamesOfSame(a: seq<Plan>, b: seq<Plan>)
    requires |a| == |b| && forall i :: 0 <= i < |a| ==> a[i].name == b[i].name
    ensures NamesOf(a) == NamesOf(b)
    ensures DistinctNames(a) ==> DistinctNames(b)
  {
    forall n ensures n in NamesOf(a) <==> n in NamesOf(b) {
      if n in NamesOf(a) {
        var i :| 0 <= i < |a| && a[i].name == n;
        assert b[i] in b;
      }
      if n in NamesOf(b) {
        var i :| 0 <= i < |b| && b[i].name == n;
        assert a[i] in a;
      }
    }
  }

  lemma MarkedPlans(c: Context, spokes: set<string>, from: nat, log: seq<Event>, log': seq<Event>, built: seq<Plan>, marked: seq<Plan>)
    requires PlansFor(c, from, log, built) && NamesOf(built) == Planned(c.d, c.view, spokes) && log <= log'
    requires |marked| == |built| && forall i :: 0 <= i < |built| ==> marked[i] == built[i].(freshNow := marked[i].freshNow)
    ensures UnprimedPeers(c, spokes, from, log', marked)
  {
    NamesOfSame(built, marked);
    hide Planned, NamesOf, DistinctNames, AllowedFor, Plannable, OrderedBy;
    forall i | 0 <= i < |marked|
      ensures marked[i].desire.endpoint.None? && marked[i].desire.pub == marked[i].pub && marked[i].desire.allowedIPs != []
      ensures PlanFor(c, from, log', Unprimed(marked[i]))
    {
      assert PlanFor(c, from, log, built[i]);
      PlanDesire(c, from, log, built[i]);
      assert Unprimed(marked[i]) == built[i];
      PlanForLater(c, from, log, log', built[i]);
    }
  }

  lemma PlanDesire(c: Context, from: nat, log: seq<Event>, p: Plan)
    requires PlanFor(c, from, log, p)
    ensures p.desire.endpoint.None? && p.desire.pub == p.pub && p.desire.allowedIPs != []
  {
  }

  lemma SamePlanned(c: Context, spokes: set<string>, from: nat, log: seq<Event>, marked: seq<Plan>, ps: seq<Plan>)
    requires UnprimedPeers(c, spokes, from, log, marked)
    requires SamePeers(marked, ps) && WellFormed(ps) && FreshUnasserted(ps) && Primed(c.net, ps)
    requires forall i :: 0 <= i < |ps| ==> ps[i].winner == marked[i].winner && ps[i].haveWin == marked[i].haveWin
    ensures PlannedPeers(c, spokes, from, log, ps)
    ensures forall i :: 0 <= i < |ps| ==> ps[i].pub == marked[i].pub && ps[i].freshNow == marked[i].freshNow
  {
    forall i | 0 <= i < |ps| ensures ps[i].name == marked[i].name && ps[i].pub == marked[i].pub && ps[i].freshNow == marked[i].freshNow {
      assert SamePeer(marked[i], ps[i]);
    }
    NamesOfSame(marked, ps);
    hide Planned, NamesOf, DistinctNames, PlanFor;
    forall i | 0 <= i < |ps| ensures PlanFor(c, from, log, Unprimed(ps[i])) {
      assert SamePeer(marked[i], ps[i]);
      assert Unprimed(ps[i]) == Unprimed(marked[i]);
    }
  }

  lemma RaceFollows(net: NetLib, l3: seq<Event>, log: seq<Event>, from: nat, ps: seq<Plan>, was: map<string, Candidate>, now: map<string, Candidate>)
    requires from <= |l3| && l3 <= log && RespectfulSince(l3, from, ps) && RespectfulSince(log, |l3|, ps)
    requires SettledUpTo(net, log, |l3|, ps, was, now, |ps|)
    ensures RespectfulSince(log, from, ps) && SettledUpTo(net, log, from, ps, was, now, |ps|)
  {
    SamePeersSelf(ps);
    RespectfulExtended(l3, log, from, ps, ps);
    hide SettledUpTo;
    SettledExtended(net, log, log, |l3|, from, ps, was, now);
  }

  lemma SamePeersSelf(ps: seq<Plan>)
    ensures SamePeers(ps, ps)
  {
  }

  /**
    What a Tick leaves behind for reading: the spokes it loaded, the plans at
    its first Apply, and where in the device log that Apply and the evictions
    start.
   */
  datatype TickTrace = TickTrace(spokes: set<string>, plans: seq<Plan>, from: nat, judged: nat)

  /** Event `from` is the first Apply, of exactly these plans. */
  ghost predicate FirstApply(log: seq<Event>, from: nat, ps: seq<Plan>) {
    from < |log| && log[from].Applied? && log[from].desired == DesiresOf(ps)
  }

  /**
    The endpoint half of a Tick: one plan per planned name, each marked by a
    poll; the first Apply is of these plans; every Apply respects them; at
    most one more Apply per candidate of a stale peer.
   */
  ghost predicate EndpointsHandled(c: Context, staleAfter: int, before: seq<Event>, log: seq<Event>, t: TickTrace) {
    && |before| + |t.plans| <= t.from <= |log| && Quiet(before, log[..t.from])
    && PlannedPeers(c, t.spokes, |before|, log, t.plans)
    && AllMarked(t.plans, log[..t.from], staleAfter)
    && FirstApply(log, t.from, t.plans) && RespectfulSince(log, t.from, t.plans)
    && Applies(before) + 1 <= Applies(log) <= Applies(before) + 1 + DialBudget(t.plans)
  }

  lemma PlannedLater(c: Context, spokes: set<string>, from: nat, log: seq<Event>, log': seq<Event>, ps: seq<Plan>)
    requires PlannedPeers(c, spokes, from, log, ps) && log <= log'
    ensures PlannedPeers(c, spokes, from, log', ps)
  {
    hide PlanFor, DistinctNames, NamesOf, Planned, Primed;
    forall i | 0 <= i < |ps| ensures PlanFor(c, from, log', Unprimed(ps[i])) {
      PlanForLater(c, from, log, log', Unprimed(ps[i]));
    }
  }

  lemma EndpointsStayHandled(c: Context, staleAfter: int, before: seq<Event>, log: seq<Event>, log': seq<Event>, t: TickTrace)
    requires EndpointsHandled(c, staleAfter, before, log, t) && Quiet(log, log')
    ensures EndpointsHandled(c, staleAfter, before, log', t) && log <= log'
  {
    hide PlannedPeers, AllMarked, DialBudget, Applies, Respectful;
    assert log'[..t.from] == log[..t.from];
    assert log'[t.from] == log[t.from];
    RespectfulQuietly(log, log', t.from, t.plans);
    PlannedLater(c, t.spokes, |before|, log, log', t.plans);
  }

  class Daemon {
    const d: Deriver
    const net: NetLib
    const parseCIDR: string -> Option<Subnet>
    const overlay: string
    const announce: seq<string>
    const staleAfter: int
    const persistent: bool
    const file: SpokeFile
    const dev: Device
    const tracker: SpokeTracker
    var seqno: nat
    var spokes: set<string>
    var lastGood: map<string, Candidate>

    ghost predicate Valid()
      reads this, dev, tracker, tracker.router
    {
      && '|' !in overlay && staleAfter > 0 && dev.now >= 0
      && dev.Valid() && tracker.router.Valid()
      && (forall n :: n in tracker.spokeSrc ==> OverlayIP(d, n) == Some(tracker.spokeSrc[n]))
      && (forall n :: n in spokes ==> Storable(n))
    }

    /** Loads the spoke file if there is one; a read error leaves no spokes. */
    constructor (d: Deriver, net: NetLib, parseCIDR: string -> Option<Subnet>, overlay: string, announce: seq<string>,
                 staleAfter: int, persistent: bool, file: SpokeFile, dev: Device, tracker: SpokeTracker, nanos: nat, readable: bool)
      requires '|' !in overlay && dev.Valid() && dev.now >= 0 && tracker.router.Valid() && tracker.spokeSrc == map[]
      ensures Valid() && this.file == file && this.persistent == persistent && lastGood == map[] && seqno == nanos
      ensures this.staleAfter == if staleAfter <= 0 then 180_000_000_000 else staleAfter
      ensures spokes == if persistent && (file.text.None? || readable) then file.Stored() else {}
    {
      hide LinuxRouter.Valid, Device.Valid, Storable, SpokeFile.Stored, OverlayIP;
      this.d, this.net, this.parseCIDR, this.overlay, this.announce := d, net, parseCIDR, overlay, announce;
      this.staleAfter := if staleAfter <= 0 then 180_000_000_000 else staleAfter;
      this.persistent, this.file, this.dev, this.tracker := persistent, file, dev, tracker;
      seqno, lastGood := nanos, map[];
      var loaded: Option<set<string>> := None;
      if persistent { loaded := file.Load(readable); }
      spokes := if loaded.Some? then loaded.value else {};
    }

    /** What this Tick's plans are made from. */
    ghost function Ctx(view: View, mine: seq<Candidate>): Context
      reads this`lastGood
    {
      Context(d, net, parseCIDR, view, mine, lastGood)
    }

    /** Takes the next sequence number: strictly larger, unless the 64-bit counter wraps. */
    method NextSeq() returns (n: nat)
      requires dev.now >= 0
      modifies this`seqno
      ensures n == seqno == RosterProtocol.NextSeq(old(seqno), dev.now / NANOS_PER_SECOND)
      ensures n == ((if old(seqno) == 0 then dev.now / 1_000_000_000 else old(seqno)) + 1) % 0x1_0000_0000_0000_0000
      ensures old(seqno) < RosterProtocol.TWO_64 - 1 && dev.now / NANOS_PER_SECOND < RosterProtocol.TWO_64 - 1 ==> n > old(seqno)
    {
      if seqno == 0 { seqno := dev.now / NANOS_PER_SECOND; }
      seqno := (seqno + 1) % RosterProtocol.TWO_64;
      n := seqno;
    }

    /** Picks up the spoke file; a read error keeps the set in memory. */
    method ReloadSpokes(readable: bool)
      modifies this`spokes
      ensures !persistent ==> spokes == old(spokes)
      ensures persistent && (file.text.None? || readable) ==> spokes == file.Stored() && forall n :: n in spokes ==> Storable(n)
      ensures persistent && file.text.Some? && !readable ==> spokes == old(spokes)
    {
      if !persistent { return; }
      var loaded := file.Load(readable);
      if loaded.Some? { spokes := loaded.value; }
    }

    /** The peer's valid announcements, each once, then its own overlay address. */
    method AllowedIPs(adv: seq<string>, ip: string) returns (allowed: seq<string>)
      ensures allowed == Texts(ParsedCIDRs(parseCIDR, adv)) + [ip + "/32"]
    {
      var nets := ParseCIDRs(parseCIDR, adv);
      allowed := [];
      for i := 0 to |nets|
        invariant allowed == Texts(nets[..i])
      {
        assert nets[..i + 1][..i] == nets[..i];
        allowed := allowed + [nets[i].text];
      }
      assert nets[..|nets|] == nets;
      allowed := allowed + [ip + "/32"];
    }

    method PlanRosterPeer(view: View, mine: seq<Candidate>, n: string) returns (p: Plan)
      requires dev.Valid() && n in view && Plannable(d, n)
      modifies dev
      ensures dev.Valid() && dev.peers.Keys == old(dev.peers.Keys) && dev.now >= old(dev.now)
      ensures |dev.log| == |old(dev.log)| + 1 && Quiet(old(dev.log), dev.log)
      ensures PlanFor(Ctx(view, mine), |old(dev.log)|, dev.log, p) && p.name == n
    {
      hide Device.Valid, OrderedFor, ParsedCIDRs, Texts;
      var pub := PubOf(d, n);
      var allowed := AllowedIPs(view[n].adv, OverlayIP(d, n).value);
      var obs := dev.Endpoint(pub);
      assert Quiet(old(dev.log), old(dev.log));
      QuietSnoc(old(dev.log), old(dev.log), dev.log[|old(dev.log)|]);
      var win := Remembered(lastGood, n);
      var ordered := DialList(net, obs, mine, view[n].candidates);
      p := Plan(n, pub, PeerDesire(n, pub, None, allowed), ordered, win, win.addr != "", false);
      assert OrderedBy(Ctx(view, mine), dev.log[|old(dev.log)|], p);
    }

    method BuildPlans(view: View, mine: seq<Candidate>) returns (ps: seq<Plan>)
      requires dev.Valid()
      modifies dev
      ensures dev.Valid() && dev.peers.Keys == old(dev.peers.Keys) && dev.now >= old(dev.now)
      ensures Quiet(old(dev.log), dev.log)
      ensures PlansFor(Ctx(view, mine), |old(dev.log)|, dev.log, ps) && NamesOf(ps) == Planned(d, view, spokes)
    {
      var names := SortedNames(view.Keys);
      ps := [];
      ghost var done: set<string>, c, base := {}, Ctx(view, mine), dev.log;
      assert PlansFor(c, |base|, base, ps) && NamesOf(ps) == {} && Quiet(base, base);
      hide PlanFor, PlansFor, DistinctNames, NamesOf, Quiet, Plannable, Device.Valid, Daemon.Ctx;
      for i := 0 to |names|
        invariant dev.Valid() && dev.peers.Keys == old(dev.peers.Keys) && dev.now >= old(dev.now)
        invariant Quiet(base, dev.log) && base <= dev.log
        invariant done == set n | n in names[..i]
        invariant c == Ctx(view, mine) && PlansFor(c, |base|, dev.log, ps)
        invariant NamesOf(ps) == set n | n in done && Plannable(d, n)
      {
        var n := names[i];
        assert names[..i + 1] == names[..i] + [n];
        if Plannable(d, n) {
          ghost var log := dev.log;
          var p := PlanRosterPeer(view, mine, n);
          QuietTrans(base, log, dev.log);
          PlanForSince(c, |base|, |log|, dev.log, p);
          PlansForLater(c, |base|, log, dev.log, ps);
          AscendingDistinct(names, i);
          PlansSnoc(c, |base|, dev.log, ps, p);
          ps := ps + [p];
        }
        done := done + {n};
      }
      assert names[..|names|] == names;
      assert done == view.Keys;
      ps := AddSpokePlans(view, mine, ps, |base|, dev.log);
    }

    method AddSpokePlans(view: View, mine: seq<Candidate>, roster: seq<Plan>, ghost from: nat, ghost log: seq<Event>) returns (ps: seq<Plan>)
      requires PlansFor(Ctx(view, mine), from, log, roster)
      requires NamesOf(roster) == set n | n in view.Keys && Plannable(d, n)
      ensures PlansFor(Ctx(view, mine), from, log, ps) && NamesOf(ps) == Planned(d, view, spokes)
    {
      hide PlanFor, PlansFor, DistinctNames, NamesOf, Plannable;
      ps := roster;
      var left := spokes - view.Keys;
      while left != {}
        invariant left <= spokes - view.Keys
        invariant PlansFor(Ctx(view, mine), from, log, ps)
        invariant NamesOf(ps) == set n | n in view.Keys + (spokes - left) && Plannable(d, n)
        decreases left
      {
        var n :| n in left;
        if Plannable(d, n) {
          var p := PlanSpoke(view, mine, n, from, log);
          PlansSnoc(Ctx(view, mine), from, log, ps, p);
          ps := ps + [p];
        }
        left := left - {n};
      }
    }

    method PlanSpoke(view: View, mine: seq<Candidate>, n: string, ghost from: nat, ghost log: seq<Event>) returns (p: Plan)
      requires n !in view && Plannable(d, n)
      ensures PlanFor(Ctx(view, mine), from, log, p) && p.name == n
    {
      var pub, win := PubOf(d, n), Remembered(lastGood, n);
      p := Plan(n, pub, PeerDesire(n, pub, None, [OverlayIP(d, n).value + "/32"]), [], win, win.addr != "", false);
    }

    // ----- Endpoints -----

    /** Marks the peers whose last handshake is recent. */
    method MarkFresh(plans: array<Plan>)
      requires dev.Valid()
      modifies dev, plans
      ensures dev.Valid() && dev.peers.Keys == old(dev.peers.Keys) && dev.now >= old(dev.now)
      ensures Quiet(old(dev.log), dev.log) && |dev.log| == |old(dev.log)| + plans.Length
      ensures forall i :: 0 <= i < plans.Length ==> plans[i] == old(plans[i]).(freshNow := plans[i].freshNow)
      ensures forall i :: 0 <= i < plans.Length ==> MarkedBy(plans[i], dev.log[|old(dev.log)| + i], staleAfter)
    {
      hide Device.Valid, Applies;
      ghost var base := dev.log;
      assert Quiet(base, base);
      for i := 0 to plans.Length
        invariant dev.Valid() && dev.peers.Keys == old(dev.peers.Keys) && dev.now >= old(dev.now)
        invariant Quiet(base, dev.log) && |dev.log| == |base| + i
        invariant forall k :: 0 <= k < i ==> plans[k] == old(plans[k]).(freshNow := plans[k].freshNow)
        invariant forall k :: i <= k < plans.Length ==> plans[k] == old(plans[k])
        invariant forall k :: 0 <= k < i ==> MarkedBy(plans[k], dev.log[|base| + k], staleAfter)
      {
        ghost var log := dev.log;
        var seen := dev.Handshake(plans[i].pub);
        QuietSnoc(base, log, dev.log[|log|]);
        assert forall j :: 0 <= j < |log| ==> dev.log[j] == log[j];
        plans[i] := plans[i].(freshNow := Fresh(seen, dev.now, staleAfter));
      }
    }

    /** Asserts a remembered winner or the first candidate, and nothing at all for a live session. */
    method PickInitial(plans: array<Plan>)
      requires WellFormed(plans[..]) && forall i :: 0 <= i < plans.Length ==> plans[i].desire.endpoint.None?
      modifies plans
      ensures SamePeers(old(plans[..]), plans[..]) && WellFormed(plans[..]) && FreshUnasserted(plans[..]) && Primed(net, plans[..])
      ensures forall i :: 0 <= i < plans.Length ==> plans[i].winner == old(plans[i]).winner && plans[i].haveWin == old(plans[i]).haveWin
    {
      for i := 0 to plans.Length
        invariant forall k :: i <= k < plans.Length ==> plans[k] == old(plans[k])
        invariant forall k :: 0 <= k < i ==>
                    plans[k] == old(plans[k]).(desire := old(plans[k]).desire.(endpoint := plans[k].desire.endpoint))
        invariant forall k :: 0 <= k < i ==> plans[k].desire.endpoint == InitialEndpoint(net, plans[k])
      {
        var p := plans[i];
        if p.haveWin {
          p := p.(desire := p.desire.(endpoint := net.resolve(p.winner.addr)));
        } else if p.ordered != [] {
          p := p.(desire := p.desire.(endpoint := net.resolve(p.ordered[0].addr)));
        }
        if p.freshNow {
          p := p.(desire := p.desire.(endpoint := None));
        }
        plans[i] := p;
      }
    }

    /** Sleeps and polls until a handshake newer than the call shows, or the wait is over. */
    method TryConnect(pub: WgKey) returns (won: bool)
      requires dev.Valid()
      modifies dev
      ensures dev.Valid() && dev.peers.Keys == old(dev.peers.Keys) && dev.now >= old(dev.now)
      ensures Quiet(old(dev.log), dev.log) && |dev.log| > |old(dev.log)| + 1
      ensures Polling(dev.log, |old(dev.log)|, |dev.log|, pub, old(dev.now)) && dev.log[|dev.log| - 1].at == dev.now
      ensures NoneNewer(dev.log, |old(dev.log)|, |dev.log| - 1, old(dev.now))
      ensures won <==> ShowsNewer(dev.log[|dev.log| - 1], old(dev.now))
      ensures dev.log[|dev.log| - 1].Polled? && (won <==> dev.log[|dev.log| - 1].seen.Some? && dev.log[|dev.log| - 1].seen.value > old(dev.now))
      ensures !won ==> dev.now >= old(dev.now) + RACE_WAIT
    {
      hide Device.Valid, Applies, Polling, NoneNewer, Quiet;
      ghost var base := dev.log;
      var start := dev.now;
      var deadline := start + RACE_WAIT;
      PollingStarts(base, pub, start);
      won := false;
      while dev.now < deadline
        invariant dev.Valid() && dev.peers.Keys == old(dev.peers.Keys) && dev.now >= start
        invariant Quiet(base, dev.log) && |base| <= |dev.log| && Polling(dev.log, |base|, |dev.log|, pub, start)
        invariant NoneNewer(dev.log, |base|, |dev.log|, start)
        invariant if |dev.log| == |base| then dev.now == start else |dev.log| > |base| + 1 && dev.log[|dev.log| - 1].at == dev.now
        invariant |dev.log| > |base| ==> dev.log[|dev.log| - 1].Polled? && !ShowsNewer(dev.log[|dev.log| - 1], start)
        decreases deadline - dev.now
      {
        ghost var log := dev.log;
        dev.Sleep(RACE_POLL);
        ghost var slept := dev.log[|log|];
        var seen := dev.Handshake(pub);
        PollingMore(base, log, pub, start, slept, dev.log[|log| + 1]);
        assert dev.log == log + [slept, dev.log[|log| + 1]];
        if seen.Some? && seen.value > start { return true; }
      }
      NoneNewerLess(dev.log, |base|, |dev.log|, start);
    }

    /** Applies the whole state with plan `i` at endpoint `ep` (daemon.go's stateWith). */
    method ApplyWith(ps: seq<Plan>, i: nat, ep: Option<Udp>) returns (ok: bool)
      requires dev.Valid() && i < |ps| && !ps[i].freshNow
      requires WellFormed(ps) && FreshUnasserted(ps) && dev.peers.Keys == PubsOf(ps)
      modifies dev
      ensures dev.Valid() && dev.peers.Keys == PubsOf(ps) && dev.now >= old(dev.now)
      ensures |dev.log| == |old(dev.log)| + 1 && old(dev.log) <= dev.log && Applies(dev.log) == Applies(old(dev.log)) + 1
      ensures DialedAt(dev.log[|old(dev.log)|], ps, i, ep, ok, dev.now)
      ensures var sent := dev.log[|old(dev.log)|].desired;
              sent[i] == ps[i].desire.(endpoint := ep) && forall k :: 0 <= k < |ps| && k != i ==> sent[k] == ps[k].desire
    {
      hide ApplySound, Accepts, Device.Valid;
      var desired := DesiresOf(StateWith(ps, i, ep));
      ok := dev.Apply(desired);
      ghost var e := dev.log[|old(dev.log)|];
      assert dev.log == old(dev.log) + [e];
      AppliesSnoc(old(dev.log), e);
      PeersAreThePlans(e, ps);
    }

    /** Tries one candidate of stale peer `i`. */
    method DialOne(ps: seq<Plan>, i: nat, cand: Candidate) returns (r: DialResult, p: Plan)
      requires dev.Valid() && i < |ps| && !ps[i].freshNow && cand in ps[i].ordered
      requires WellFormed(ps) && FreshUnasserted(ps) && dev.peers.Keys == PubsOf(ps)
      modifies dev, this`lastGood
      ensures dev.Valid() && dev.peers.Keys == PubsOf(ps) && dev.now >= old(dev.now)
      ensures SamePeer(ps[i], p) && (r.Won? ==> p.haveWin)
      ensures p == PlanAfterDial(net, ps[i], cand, r, LastSeen(dev.log, |dev.log|))
      ensures old(dev.log) <= dev.log && RespectfulSince(dev.log, |old(dev.log)|, ps)
      ensures Applies(dev.log) <= Applies(old(dev.log)) + 1
      ensures lastGood == if r.Won? then old(lastGood)[p.name := p.winner] else old(lastGood)
      ensures Dialed(net, dev.log, |old(dev.log)|, |dev.log|, i, ps[i], cand, r, p.winner)
    {
      hide Device.Valid, Applies, Respectful, WellFormed, FreshUnasserted, PubsOf, Quiet, Polling, NoneNewer, ShowsNewer;
      ghost var base := dev.log;
      p := ps[i];
      var ep := net.resolve(cand.addr);
      if ep.None? { return Skipped, p; }
      p := p.(desire := p.desire.(endpoint := ep));
      var ok := ApplyWith(ps, i, ep);
      ghost var applied := dev.log;
      if !ok { return Refused, p; }
      var won := TryConnect(p.pub);
      ghost var polled := dev.log;
      QuietlyOn(base, applied, polled, ps);
      if !won {
        SilentDial(net, polled, |base|, i, ps[i], cand, p.winner);
        return Silent, p;
      }
      var seen := dev.Endpoint(p.pub);
      QuietlySnoc(base, applied, polled, dev.log[|polled|], ps);
      var win := Credit(cand, seen);
      if win != cand { p := p.(desire := p.desire.(endpoint := seen)); }
      WonDial(net, polled, dev.log[|polled|], |base|, i, ps[i], cand, win);
      lastGood := lastGood[p.name := win];
      p := p.(winner := win, haveWin := true);
      r := Won;
    }

    /**
      Races the candidates of stale peer `i` in order until one brings a
      handshake or an Apply is refused, and remembers the winner; with nothing
      won, what was remembered is cleared.
     */
    method RacePeer(ps: seq<Plan>, i: nat) returns (p: Plan, ghost race: Race)
      requires dev.Valid() && i < |ps| && !ps[i].freshNow
      requires WellFormed(ps) && FreshUnasserted(ps) && dev.peers.Keys == PubsOf(ps)
      modifies dev, this`lastGood
      ensures dev.Valid() && dev.peers.Keys == PubsOf(ps) && dev.now >= old(dev.now)
      ensures SamePeer(ps[i], p)
      ensures old(dev.log) <= dev.log && RespectfulSince(dev.log, |old(dev.log)|, ps)
      ensures Applies(dev.log) <= Applies(old(dev.log)) + |ps[i].ordered|
      ensures ps[i].ordered == [] ==> lastGood == old(lastGood) && dev.log == old(dev.log)
      ensures ps[i].ordered != [] ==> p.name in lastGood && lastGood == old(lastGood)[p.name := lastGood[p.name]] &&
                                      RaceRan(net, dev.log, |old(dev.log)|, i, ps[i], race, lastGood[p.name]) &&
                                      Settled(net, dev.log, |old(dev.log)|, i, ps[i], lastGood[p.name])
      ensures |race.results| <= |ps[i].ordered| && |race.results| < |race.cuts| && p == PlanAfterDials(net, dev.log, ps[i], race, |race.results|)
    {
      hide Device.Valid, Applies, Respectful, WellFormed, FreshUnasserted, PubsOf, Dialed, GoesOn, DialsRan, EndsWith, PlanAfterDial;
      ghost var base := dev.log;
      race := Race([|dev.log|], []);
      RaceStarts(net, base, i, ps[i], NO_CANDIDATE);
      p := ps[i];
      for k := 0 to |ps[i].ordered|
        invariant dev.Valid() && dev.peers.Keys == PubsOf(ps) && dev.now >= old(dev.now)
        invariant SamePeer(ps[i], p)
        invariant base <= dev.log && RespectfulSince(dev.log, |base|, ps)
        invariant Applies(dev.log) <= Applies(base) + k
        invariant lastGood == old(lastGood)
        invariant DialsRan(net, dev.log, |base|, i, ps[i], race, NO_CANDIDATE) && GoesOn(race.results)
        invariant |race.results| == k && |race.cuts| == k + 1 && race.cuts[k] == |dev.log| && (k == 0 ==> dev.log == base)
        invariant p == PlanAfterDials(net, dev.log, ps[i], race, k)
      {
        ghost var log := dev.log;
        var r, q := DialOne(ps, i, ps[i].ordered[k]);
        SamePeersSelf(ps);
        RespectfulExtended(log, dev.log, |base|, ps, ps);
        RaceGoesOn(net, log, dev.log, |base|, i, ps[i], race, r, NO_CANDIDATE, q.winner);
        PlanAfterMore(net, log, dev.log, |base|, i, ps[i], race, r, NO_CANDIDATE);
        race := Race(race.cuts + [|dev.log|], race.results + [r]);
        if r.Won? {
          assert RaceRan(net, dev.log, |base|, i, ps[i], race, q.winner);
          return q, race;
        }
        DialsAnyGood(net, dev.log, |base|, i, ps[i], race, q.winner, NO_CANDIDATE);
        if r.Refused? {
          p := q;
          assert RaceRan(net, dev.log, |base|, i, ps[i], race, NO_CANDIDATE);
          break;
        }
        if r.Silent? { p := q; }
      }
      if ps[i].ordered != [] {
        assert RaceRan(net, dev.log, |base|, i, ps[i], race, NO_CANDIDATE);
        lastGood := lastGood[p.name := NO_CANDIDATE];
      }
    }

    /** Adopts the kernel's endpoint for a live session nobody remembers a winner for. */
    method AdoptLive(p0: Plan) returns (p: Plan)
      requires dev.Valid() && p0.freshNow
      modifies dev, this`lastGood
      ensures dev.Valid() && dev.peers.Keys == old(dev.peers.Keys) && dev.now >= old(dev.now)
      ensures Quiet(old(dev.log), dev.log)
      ensures SamePeer(p0, p) && p.desire == p0.desire
      ensures p0.haveWin ==> p == p0 && lastGood == old(lastGood) && dev.log == old(dev.log)
      ensures !p0.haveWin ==> |dev.log| == |old(dev.log)| + 1 && AdoptedBy(dev.log[|old(dev.log)|], p0, old(lastGood), lastGood)
      ensures !p0.haveWin && lastGood != old(lastGood) ==> p.haveWin && p.name in lastGood && p.winner == lastGood[p.name]
      ensures forall m :: m != p0.name ==> SameMemory(old(lastGood), lastGood, m)
    {
      hide Device.Valid, Applies;
      p := p0;
      assert Quiet(dev.log, dev.log);
      if p0.haveWin { return; }
      var ep := dev.Endpoint(p0.pub);
      QuietSnoc(old(dev.log), old(dev.log), dev.log[|old(dev.log)|]);
      if ep.Some? && ep.value.hasIP {
        var win := Candidate(Prflx, ep.value.text);
        lastGood := lastGood[p0.name := win];
        p := p0.(winner := win, haveWin := true);
      }
    }

    /** Leaves live sessions alone and races everybody else, in plan order. */
    method RaceAll(plans: array<Plan>)
      requires dev.Valid()
      requires WellFormed(plans[..]) && FreshUnasserted(plans[..]) && DistinctNames(plans[..])
      requires dev.peers.Keys == PubsOf(plans[..])
      modifies dev, plans, this`lastGood
      ensures dev.Valid() && dev.peers.Keys == PubsOf(old(plans[..])) && dev.now >= old(dev.now)
      ensures SamePeers(old(plans[..]), plans[..])
      ensures old(dev.log) <= dev.log && RespectfulSince(dev.log, |old(dev.log)|, old(plans[..]))
      ensures Applies(dev.log) <= Applies(old(dev.log)) + DialBudget(old(plans[..]))
      ensures SettledUpTo(net, dev.log, |old(dev.log)|, old(plans[..]), old(lastGood), lastGood, plans.Length)
    {
      hide Device.Valid, Applies, Respectful, SettledUpTo;
      ghost var ps0, base, was := plans[..], dev.log, lastGood;
      assert ps0[..0] == [];
      SettledStart(net, base, |base|, ps0, was);
      for i := 0 to plans.Length
        invariant dev.Valid() && dev.peers.Keys == PubsOf(ps0) && dev.now >= old(dev.now)
        invariant SamePeers(ps0, plans[..]) && FreshUnasserted(plans[..]) && forall k :: i <= k < plans.Length ==> plans[k] == ps0[k]
        invariant base <= dev.log && RespectfulSince(dev.log, |base|, ps0)
        invariant Applies(dev.log) <= Applies(base) + DialBudget(ps0[..i])
        invariant SettledUpTo(net, dev.log, |base|, ps0, was, lastGood, i)
      {
        RaceTurn(plans, i, ps0, base, was);
      }
      assert ps0[..plans.Length] == ps0;
    }

    /** The turn of plan `i`. */
    method RaceTurn(plans: array<Plan>, i: nat, ghost ps0: seq<Plan>, ghost base: seq<Event>, ghost was: map<string, Candidate>)
      requires dev.Valid() && i < plans.Length == |ps0| && plans[i] == ps0[i]
      requires WellFormed(ps0) && DistinctNames(ps0) && SamePeers(ps0, plans[..]) && FreshUnasserted(plans[..])
      requires dev.peers.Keys == PubsOf(ps0)
      requires base <= dev.log && RespectfulSince(dev.log, |base|, ps0)
      requires Applies(dev.log) <= Applies(base) + DialBudget(ps0[..i])
      requires SettledUpTo(net, dev.log, |base|, ps0, was, lastGood, i)
      modifies dev, plans, this`lastGood
      ensures dev.Valid() && dev.peers.Keys == PubsOf(ps0) && dev.now >= old(dev.now)
      ensures SamePeers(ps0, plans[..]) && FreshUnasserted(plans[..])
      ensures forall k :: i < k < plans.Length ==> plans[k] == old(plans[k])
      ensures base <= dev.log && RespectfulSince(dev.log, |base|, ps0)
      ensures Applies(dev.log) <= Applies(base) + DialBudget(ps0[..i + 1])
      ensures SettledUpTo(net, dev.log, |base|, ps0, was, lastGood, i + 1)
    {
      hide Device.Valid, Applies, Respectful, Settled, DialBudget, PubsOf, SettledUpTo, AdoptedBy;
      ghost var log, good := dev.log, lastGood;
      var ps := plans[..];
      SamePeersSymmetric(ps0, ps);
      BudgetTurn(ps0, i);
      if ps[i].freshNow {
        var p := AdoptLive(ps[i]);
        QuietRespects(log, dev.log, ps0);
        RespectfulExtended(log, dev.log, |base|, ps0, ps0);
        plans[i] := p;
      } else {
        PubsOfSamePeers(ps0, ps);
        var p, race := RacePeer(ps, i);
        RespectfulExtended(log, dev.log, |base|, ps0, ps);
        plans[i] := p;
        if ps[i].ordered != [] {
          SettledLater(net, dev.log, dev.log, |log|, |base|, i, ps[i], ps0[i], lastGood[ps[i].name]);
        }
      }
      assert TurnDone(net, dev.log, |base|, i, ps0[i], good, lastGood);
      SettledMore(net, log, dev.log, |base|, ps0, was, good, lastGood, i);
      TurnTaken(ps0, ps, plans[..], i);
    }

    // ----- Spokes -----

    /** Reconciles announcements, the transport port and the spokes' source NAT. */
    method SyncNat()
      requires Valid()
      modifies tracker, tracker.router
      ensures Valid() && old(tracker.router.log) <= tracker.router.log
      ensures tracker.spokeSrc.Keys <= SpokeIPs(d, spokes).Keys && SpokesServed(tracker, |old(tracker.router.log)|, SpokeIPs(d, spokes))
      ensures DistinctIPs(old(tracker.spokeSrc) + SpokeIPs(d, spokes)) && old(tracker.InStep()) && RemovalsHeld(tracker.router.fails, tracker.router.log, |old(tracker.router.log)|) ==> tracker.InStep()
      ensures tracker.router.NoneFailed(|old(tracker.router.log)|, |tracker.router.log|) ==>
                tracker.spokeSrc == SpokeIPs(d, spokes) && tracker.router.PortOpen() &&
                tracker.router.announceNAT == Routers.Wanted(overlay, ParsedCIDRs(parseCIDR, announce))
    {
      hide LinuxRouter.Valid, Device.Valid, ParsedCIDRs, Routers.Wanted, OverlayIP, Sources, DistinctIPs, SpokeIPs,
           LinuxRouter.NoneFailed, RemovalsHeld;
      ghost var router := tracker.router;
      SyncAnnounced();
      ghost var mid := |router.log|;
      SyncSources();
      ServedSince(tracker, |old(router.log)|, mid, SpokeIPs(d, spokes));
      LaterPart(router, |old(router.log)|, mid, |router.log|);
    }

    /** The announcements' NAT and the transport port. */
    method SyncAnnounced()
      requires Valid()
      modifies tracker.router`announceNAT, tracker.router`postrouting, tracker.router`input, tracker.router`input6, tracker.router`log
      ensures Valid() && old(tracker.router.log) <= tracker.router.log
      ensures tracker.router.NoneFailed(|old(tracker.router.log)|, |tracker.router.log|) ==>
                tracker.router.PortOpen() &&
                tracker.router.announceNAT == Routers.Wanted(overlay, ParsedCIDRs(parseCIDR, announce))
    {
      hide LinuxRouter.Valid, LinuxRouter.PortOpen, Device.Valid, ParsedCIDRs, Routers.Wanted, Routers.Announced, Opening, Opened, OverlayIP, LinuxRouter.NoneFailed;
      var router := tracker.router;
      var subnets := ParseCIDRs(parseCIDR, announce);
      router.AnnounceNAT(overlay, subnets);
      ghost var mid := |router.log|;
      router.EnsurePort();
      LaterPart(router, |old(router.log)|, mid, |router.log|);
    }

    /** The spokes' source NAT. */
    method SyncSources()
      requires Valid()
      modifies tracker, tracker.router`added, tracker.router`postrouting, tracker.router`log
      ensures Valid() && old(tracker.router.log) <= tracker.router.log
      ensures tracker.spokeSrc.Keys <= SpokeIPs(d, spokes).Keys && SpokesServed(tracker, |old(tracker.router.log)|, SpokeIPs(d, spokes))
      ensures DistinctIPs(old(tracker.spokeSrc) + SpokeIPs(d, spokes)) && old(tracker.InStep()) && RemovalsHeld(tracker.router.fails, tracker.router.log, |old(tracker.router.log)|) ==> tracker.InStep()
      ensures tracker.router.NoneFailed(|old(tracker.router.log)|, |tracker.router.log|) ==> tracker.spokeSrc == SpokeIPs(d, spokes)
    {
      hide LinuxRouter.Valid, Device.Valid, OverlayIP, Sources, DistinctIPs, SpokeTracker.InStep, LinuxRouter.NoneFailed, RemovalsHeld;
      var want := map n | n in spokes && OverlayIP(d, n).Some? :: OverlayIP(d, n).value;
      assert want == SpokeIPs(d, spokes);
      tracker.Sync(want);
    }

    /** Drops the spokes that connected once and have long been quiet, and saves the rest. */
    method EvictStaleSpokes(writable: bool)
      requires dev.Valid()
      modifies dev, this`spokes, file
      ensures dev.Valid() && dev.peers.Keys == old(dev.peers.Keys) && dev.now >= old(dev.now)
      ensures Quiet(old(dev.log), dev.log)
      ensures spokes <= old(spokes)
      ensures forall n :: n in old(spokes) ==> JudgedAs(d, dev.log, |old(dev.log)|, n, spokes, staleAfter)
      ensures spokes == old(spokes) || !persistent || !writable ==> file.text == old(file.text)
      ensures spokes != old(spokes) && persistent && writable && (forall n :: n in spokes ==> Storable(n)) ==> file.Stored() == spokes
    {
      hide Device.Valid, Applies, Judged, Storable, SpokeFile.Stored;
      ghost var base := dev.log;
      assert Quiet(base, base);
      var left, changed := spokes, false;
      while left != {}
        invariant dev.Valid() && dev.peers.Keys == old(dev.peers.Keys) && dev.now >= old(dev.now)
        invariant Quiet(base, dev.log)
        invariant left <= spokes <= old(spokes) && (changed <==> spokes != old(spokes))
        invariant forall n :: n in old(spokes) - left ==> JudgedAs(d, dev.log, |base|, n, spokes, staleAfter)
        invariant file.text == old(file.text)
        decreases left
      {
        var n :| n in left;
        ghost var log := dev.log;
        var evict := JudgeSpoke(n, base);
        forall m | m in old(spokes) - left ensures JudgedAs(d, dev.log, |base|, m, spokes, staleAfter) {
          JudgedLater(d, log, dev.log, |base|, m, m !in spokes, staleAfter);
        }
        ghost var kept := spokes;
        if evict {
          spokes := spokes - {n};
          changed := true;
        }
        forall m | m in old(spokes) - left ensures JudgedAs(d, dev.log, |base|, m, spokes, staleAfter) {
          assert JudgedAs(d, dev.log, |base|, m, kept, staleAfter);
        }
        left := left - {n};
      }
      if changed && persistent {
        var _ := file.Save(spokes, writable);
      }
    }

    method JudgeSpoke(n: string, ghost base: seq<Event>) returns (evict: bool)
      requires dev.Valid() && Quiet(base, dev.log)
      modifies dev
      ensures dev.Valid() && dev.peers.Keys == old(dev.peers.Keys) && dev.now >= old(dev.now)
      ensures Quiet(base, dev.log) && old(dev.log) <= dev.log
      ensures Judged(d, dev.log, |base|, n, evict, staleAfter)
    {
      if !Names.Valid(Names.Normalize(n)) { return false; }
      ghost var log := dev.log;
      var seen := dev.Handshake(PubOf(d, n));
      QuietSnoc(base, log, dev.log[|log|]);
      evict := Departed(seen, dev.now, staleAfter);
      assert JudgedBy(d, dev.log[|log|], n, evict, staleAfter);
    }

    // ----- The Tick -----

    /** Builds the plans, marks the live ones and picks what the first Apply asserts. */
    method PreparePlans(view: View, mine: seq<Candidate>) returns (plans: array<Plan>)
      requires dev.Valid()
      modifies dev
      ensures dev.Valid() && dev.now >= old(dev.now) && dev.peers.Keys == old(dev.peers.Keys) && fresh(plans)
      ensures Quiet(old(dev.log), dev.log) && |old(dev.log)| + plans.Length <= |dev.log|
      ensures PlannedPeers(Ctx(view, mine), spokes, |old(dev.log)|, dev.log, plans[..])
      ensures AllMarked(plans[..], dev.log, staleAfter)
    {
      hide Device.Valid, Applies, PlanFor, DistinctNames, NamesOf, Planned;
      ghost var c, base := Ctx(view, mine), dev.log;
      var built := BuildPlans(view, mine);
      ghost var l1 := dev.log;
      plans := new Plan[|built|](i requires 0 <= i < |built| => built[i]);
      assert plans[..] == built;
      MarkFresh(plans);
      ghost var marked := plans[..];
      QuietTrans(base, l1, dev.log);
      MarkedPlans(c, spokes, |base|, l1, dev.log, built, marked);
      PickInitial(plans);
      SamePlanned(c, spokes, |base|, dev.log, marked, plans[..]);
    }

    /** Plans, applies and races: the endpoint half of a Tick. */
    method Converge(view: View, mine: seq<Candidate>) returns (ok: bool, ghost ps: seq<Plan>, ghost from: nat)
      requires dev.Valid()
      modifies dev, this`lastGood
      ensures dev.Valid() && dev.now >= old(dev.now) && old(dev.log) <= dev.log
      ensures EndpointsHandled(old(Ctx(view, mine)), staleAfter, old(dev.log), dev.log, TickTrace(spokes, ps, from, 0))
      ensures ok == dev.log[from].ok
      ensures !ok ==> lastGood == old(lastGood)
      ensures ok ==> dev.peers.Keys == PubsOf(ps)
      ensures ok ==> SettledUpTo(net, dev.log, from, ps, old(lastGood), lastGood, |ps|)
    {
      hide Applies, PlanFor, Respectful, SettledUpTo, DialBudget, NamesOf, Planned, MarkedBy, EventSound, PubsOf, DistinctNames, Device.Valid,
           Primed, Daemon.Ctx;
      ghost var c, base, was := Ctx(view, mine), dev.log, lastGood;
      var plans := PreparePlans(view, mine);
      ghost var l2 := dev.log;
      ps, from := plans[..], |l2|;
      ok := ApplyAll(plans[..]);
      ghost var l3 := dev.log;
      assert l3[..from] == l2;
      if ok {
        RaceAll(plans);
        RaceFollows(net, l3, dev.log, from, ps, was, lastGood);
        assert dev.log[..from] == l2;
        AppliesMono(l3, dev.log);
      }
      PlannedLater(c, spokes, |base|, l2, dev.log, ps);
    }

    /** The first Apply of a Tick. */
    method ApplyAll(ps: seq<Plan>) returns (ok: bool)
      requires dev.Valid() && WellFormed(ps) && FreshUnasserted(ps)
      modifies dev
      ensures dev.Valid() && dev.now >= old(dev.now)
      ensures old(dev.log) <= dev.log && Applies(dev.log) == Applies(old(dev.log)) + 1 && |dev.log| == |old(dev.log)| + 1
      ensures FirstApply(dev.log, |old(dev.log)|, ps) && dev.log[|old(dev.log)|].ok == ok
      ensures RespectfulSince(dev.log, |old(dev.log)|, ps)
      ensures ok ==> dev.peers.Keys == PubsOf(ps)
    {
      hide ApplySound, Applies, PubsOf, Accepts, Device.Valid;
      DesiresRespectful(ps);
      ok := dev.Apply(DesiresOf(ps));
      ghost var e := dev.log[|old(dev.log)|];
      assert dev.log == old(dev.log) + [e];
      AppliesSnoc(old(dev.log), e);
      PeersAreThePlans(e, ps);
    }

    /**
      One reconcile pass over a fetched roster. It succeeds exactly when there
      is a roster and the kernel accepts the first Apply; otherwise NAT and the
      spokes are left alone.
     */
    method Tick(roster: Fetched, mine: seq<Candidate>, readable: bool, writable: bool) returns (ok: bool, ghost t: TickTrace)
      requires Valid()
      modifies this, dev, tracker, tracker.router, file
      ensures Valid() && old(dev.log) <= dev.log
      ensures seqno == RosterProtocol.NextSeq(old(seqno), old(dev.now) / NANOS_PER_SECOND)
      ensures t.spokes == if persistent && (old(file.text).None? || readable) then old(file.Stored()) else old(spokes)
      ensures forall n :: n in t.spokes ==> Storable(n)
      ensures roster.ReadError? ==> !ok && dev.log == old(dev.log)
      ensures roster.Fetched? ==> EndpointsHandled(old(Ctx(roster.view, mine)), staleAfter, old(dev.log), dev.log, t)
      ensures roster.Fetched? ==> (ok <==> Accepts(dev.world(t.from), DesiresOf(t.plans), dev.log[t.from].before))
      ensures !ok ==> lastGood == old(lastGood) && spokes == t.spokes && tracker.spokeSrc == old(tracker.spokeSrc) && file.text == old(file.text)
      ensures !ok ==> tracker.router.added == old(tracker.router.added) && tracker.router.log == old(tracker.router.log)
      ensures old(tracker.router.log) <= tracker.router.log
      ensures ok ==> dev.peers.Keys == PubsOf(t.plans)
      ensures ok ==> SettledUpTo(net, dev.log, t.from, t.plans, old(lastGood), lastGood, |t.plans|)
      ensures ok ==> tracker.spokeSrc.Keys <= SpokeIPs(d, t.spokes).Keys
      ensures ok ==> SpokesServed(tracker, |old(tracker.router.log)|, SpokeIPs(d, t.spokes))
      ensures ok && DistinctIPs(old(tracker.spokeSrc) + SpokeIPs(d, t.spokes)) && old(tracker.InStep()) && RemovalsHeld(tracker.router.fails, tracker.router.log, |old(tracker.router.log)|) ==> tracker.InStep()
      ensures ok && tracker.router.NoneFailed(|old(tracker.router.log)|, |tracker.router.log|) ==>
                tracker.spokeSrc == SpokeIPs(d, t.spokes) && tracker.router.PortOpen() &&
                tracker.router.announceNAT == Routers.Wanted(overlay, ParsedCIDRs(parseCIDR, announce))
      ensures ok ==> spokes <= t.spokes && forall n :: n in t.spokes ==> JudgedAs(d, dev.log, t.judged, n, spokes, staleAfter)
      ensures ok && persistent && writable && spokes != t.spokes ==> file.Stored() == spokes
      ensures ok && (spokes == t.spokes || !persistent || !writable) ==> file.text == old(file.text)
    {
      hide LinuxRouter.Valid, Device.Valid, Applies, EndpointsHandled, SettledUpTo, Accepts,
           PubsOf, JudgedAs, Storable, SpokeFile.Stored, ParsedCIDRs, Routers.Wanted, SpokeIPs, DistinctIPs, OverlayIP,
           SpokeTracker.InStep, LinuxRouter.NoneFailed, RemovalsHeld, SpokesServed, Quiet, Daemon.Ctx;
      ReloadSpokes(readable);
      t := TickTrace(spokes, [], |dev.log|, |dev.log|);
      var _ := NextSeq();
      if roster.ReadError? { return false, t; }
      ghost var c, was, plans, from := Ctx(roster.view, mine), lastGood, [], 0;
      ok, plans, from := Converge(roster.view, mine);
      t := t.(plans := plans, from := from);
      SameTrace(c, staleAfter, old(dev.log), dev.log, TickTrace(spokes, plans, from, 0), t);
      FirstApplyAnswered(dev, from, plans);
      if !ok { return; }
      ghost var l1 := dev.log;
      SyncNat();
      EvictStaleSpokes(writable);
      t := t.(judged := |l1|);
      SameTrace(c, staleAfter, old(dev.log), l1, TickTrace(t.spokes, plans, from, 0), t);
      EndpointsStayHandled(c, staleAfter, old(dev.log), l1, dev.log, t);
      SettledExtended(net, l1, dev.log, from, from, plans, was, lastGood);
      assert dev.log[from] == l1[from];
    }
  }

  /** What holds of all commands since `from` holds of the later and of the earlier ones. */
  lemma LaterPart(router: LinuxRouter, from: nat, mid: nat, to: nat)
    requires from <= mid <= to == |router.log|
    ensures router.NoneFailed(from, to) ==> router.NoneFailed(from, mid) && router.NoneFailed(mid, to)
    ensures RemovalsHeld(router.fails, router.log, from) ==> RemovalsHeld(router.fails, router.log, mid)
  {
  }

  /** Every wanted spoke that is not tracked had its own command fail since command number `from`. */
  ghost predicate SpokesServed(tracker: SpokeTracker, from: nat, want: map<string, string>)
    reads tracker, tracker.router
  {
    forall n :: n in want && n !in tracker.spokeSrc ==> SpokeNat.Refused(tracker.router.iface, tracker.router.fails, tracker.router.log, from, want[n])
  }

  lemma ServedSince(tracker: SpokeTracker, from: nat, mid: nat, want: map<string, string>)
    requires SpokesServed(tracker, mid, want) && from <= mid
    ensures SpokesServed(tracker, from, want)
  {
  }

  lemma SameTrace(c: Context, staleAfter: int, before: seq<Event>, log: seq<Event>, t: TickTrace, t': TickTrace)
    requires EndpointsHandled(c, staleAfter, before, log, t) && t' == t.(judged := t'.judged)
    ensures EndpointsHandled(c, staleAfter, before, log, t') && t.from < |log| && log[t.from].Applied? && log[t.from].desired == DesiresOf(t.plans)
  {
    hide PlannedPeers, AllMarked, RespectfulSince, Applies, DialBudget, Quiet;
  }

  /** The kernel accepted the first Apply exactly when the world let it. */
  lemma FirstApplyAnswered(dev: Device, from: nat, ps: seq<Plan>)
    requires dev.Valid() && from < |dev.log| && dev.log[from].Applied? && dev.log[from].desired == DesiresOf(ps)
    ensures dev.log[from].ok <==> Accepts(dev.world(from), DesiresOf(ps), dev.log[from].before)
  {
    hide Accepts, EventSound, KernelAt, TimeAt;
    assert FollowsAt(dev.world, dev.start, dev.log, from);
  }

  lemma SamePeersSymmetric(a: seq<Plan>, b: seq<Plan>)
    requires SamePeers(a, b)
    ensures SamePeers(b, a) && SamePeers(a, a)
  {
    forall i | 0 <= i < |a| ensures SamePeer(b[i], a[i]) {
      assert SamePeer(a[i], b[i]);
    }
  }

  lemma PubsOfSamePeers(a: seq<Plan>, b: seq<Plan>)
    requires SamePeers(a, b) && WellFormed(a)
    ensures PubsOf(a) == PubsOf(b) && WellFormed(b)
  {
    forall i | 0 <= i < |a| ensures a[i].pub == b[i].pub && b[i].desire.pub == b[i].pub && b[i].desire.allowedIPs != [] {
      assert SamePeer(a[i], b[i]);
    }
    forall k ensures k in PubsOf(a) <==> k in PubsOf(b) {
      if k in PubsOf(a) {
        var i :| 0 <= i < |a| && a[i].pub == k;
        assert b[i] in b;
      }
      if k in PubsOf(b) {
        var i :| 0 <= i < |b| && b[i].pub == k;
        assert a[i] in a;
      }
    }
  }

  lemma BudgetTurn(ps: seq<Plan>, i: nat)
    requires i < |ps|
    ensures DialBudget(ps[..i + 1]) == DialBudget(ps[..i]) + if ps[i].freshNow then 0 else |ps[i].ordered|
  {
    assert ps[..i + 1][..i] == ps[..i];
  }

  lemma QuietRespects(a: seq<Event>, b: seq<Event>, ps: seq<Plan>)
    requires Quiet(a, b)
    ensures RespectfulSince(b, |a|, ps)
  {
  }

  /** Replacing one plan by itself raced keeps all plans the same peers, live ones unasserted. */
  lemma TurnTaken(ps0: seq<Plan>, ps: seq<Plan>, ps': seq<Plan>, i: nat)
    requires SamePeers(ps0, ps) && FreshUnasserted(ps) && i < |ps| && |ps'| == |ps|
    requires forall k :: 0 <= k < |ps| && k != i ==> ps'[k] == ps[k]
    requires SamePeer(ps[i], ps'[i]) && (ps[i].freshNow ==> ps'[i].desire == ps[i].desire)
    ensures SamePeers(ps0, ps') && FreshUnasserted(ps')
  {
    forall k | 0 <= k < |ps0| ensures SamePeer(ps0[k], ps'[k]) {
      assert SamePeer(ps0[k], ps[k]);
    }
  }

  // ----- What a Tick does to sessions -----

  /** The interface is there, and the kernel has a handshake with the polled key less than `limit` old. */
  ghost predicate LiveInKernel(w: Devices.Weather, e: Event, limit: int)
    requires e.Polled?
  {
    !w.gone && e.pub in e.kernel && e.kernel[e.pub].handshake.Some? && e.at - e.kernel[e.pub].handshake.value < limit
  }

  /** Every poll of the key between these events found it live in the kernel. */
  ghost predicate PolledLive(world: nat -> Devices.Weather, log: seq<Event>, a: nat, b: nat, pub: WgKey, limit: int) {
    forall k :: a <= k < b && k < |log| && log[k].Polled? && log[k].pub == pub ==> LiveInKernel(world(k), log[k], limit)
  }

  lemma PollShowsKernel(world: nat -> Devices.Weather, start: int, log: seq<Event>, k: nat, limit: int)
    requires Ran(world, start, log) && k < |log| && log[k].Polled?
    ensures log[k].seen.Some? && log[k].at < log[k].seen.value + limit <==> LiveInKernel(world(k), log[k], limit)
  {
    hide EventSound;
    assert FollowsAt(world, start, log, k);
  }

  /** A plan is marked live exactly when the kernel had a recent handshake with its key at the plan's own poll. */
  lemma MarkedByKernel(staleAfter: int, log: seq<Event>, from: nat, ps: seq<Plan>, world: nat -> Devices.Weather, start: int, i: nat)
    requires |ps| <= from <= |log| && i < |ps| && AllMarked(ps, log[..from], staleAfter) && Ran(world, start, log)
    ensures var k := from - |ps| + i;
            log[k].Polled? && log[k].pub == ps[i].pub && (ps[i].freshNow <==> LiveInKernel(world(k), log[k], staleAfter))
  {
    var k := from - |ps| + i;
    assert log[..from][k] == log[k] && MarkedBy(ps[i], log[k], staleAfter);
    hide LiveInKernel, AllMarked, Ran;
    PollShowsKernel(world, start, log, k, staleAfter);
  }

  /**
    If every poll of a key before the first Apply finds the kernel with a
    recent handshake, no Apply of the Tick, not even one made while racing
    others, asserts an endpoint for it, and each leaves the kernel's entry
    exactly as it was.
   */
  lemma LiveSessionsUntouched(c: Context, staleAfter: int, before: seq<Event>, log: seq<Event>, t: TickTrace, world: nat -> Devices.Weather, start: int,
                              k: nat, pub: WgKey)
    requires EndpointsHandled(c, staleAfter, before, log, t) && Ran(world, start, log)
    requires PolledLive(world, log, |before|, t.from, pub, staleAfter)
    requires |before| <= k < |log| && log[k].Applied?
    ensures Asserted(log[k].desired, pub).None?
    ensures pub in PubsOf(t.plans) && pub in log[k].before ==> pub in log[k].after && log[k].after[pub] == log[k].before[pub]
  {
    forall i | 0 <= i < |t.plans| && t.plans[i].pub == pub ensures t.plans[i].freshNow {
      MarkedByKernel(staleAfter, log, t.from, t.plans, world, start, i);
    }
    assert EventSound(log[k]) by { assert FollowsAt(world, start, log, k); }
    hide PlannedPeers, AllMarked, DialBudget, Applies, ApplySound, Ran, Asserted, PolledLive;
    ApplyIsNotBefore(before, log, t.from, k);
    NothingAsserted(log[k].desired, t.plans, pub);
    if pub in PubsOf(t.plans) && pub in log[k].before {
      hide Respectful;
      LivePeerLeftAlone(log[k], t.plans, pub);
    }
  }

  lemma NothingAsserted(desired: seq<PeerDesire>, ps: seq<Plan>, pub: WgKey)
    requires Respectful(desired, ps) && forall i :: 0 <= i < |ps| && ps[i].pub == pub ==> ps[i].freshNow
    ensures Asserted(desired, pub).None?
  {
    AssertedNoneIff(desired, pub);
  }

  /**
    What one plan's own poll decides. The first Apply asserts nothing for a
    peer that is live in the kernel, else the endpoint that won last time, else
    the first candidate. After a success, a peer that is not live and has
    candidates has been raced, and a live one was given no endpoint by any Apply.
   */
  ghost predicate PlanDecided(c: Context, world: nat -> Devices.Weather, staleAfter: int, log: seq<Event>, t: TickTrace, i: nat, ok: bool, now: map<string, Candidate>)
    requires i < |t.plans| <= t.from < |log|
  {
    var p, poll := t.plans[i], t.from - |t.plans| + i;
    var w, e := world(poll), log[poll];
    && e.Polled? && e.pub == p.pub && FirstApply(log, t.from, t.plans) && |log[t.from].desired| == |t.plans|
    && log[t.from].desired[i].endpoint ==
         (if LiveInKernel(w, e, staleAfter) then None
          else if p.name in c.lastGood && c.lastGood[p.name].addr != "" then c.net.resolve(c.lastGood[p.name].addr)
          else if p.ordered != [] then c.net.resolve(p.ordered[0].addr)
          else None)
    && (ok && !LiveInKernel(w, e, staleAfter) && p.ordered != [] ==> p.name in now && Settled(c.net, log, t.from, i, p, now[p.name]))
    && (LiveInKernel(w, e, staleAfter) ==>
          forall k :: t.from <= k < |log| && log[k].Applied? ==> |log[k].desired| == |t.plans| && log[k].desired[i].endpoint.None?)
  }

  /** The kernel's own handshakes decide: a key live at all its polls is left alone, and each plan goes by its own poll. */
  ghost predicate KernelDecides(c: Context, world: nat -> Devices.Weather, staleAfter: int, before: seq<Event>, log: seq<Event>, t: TickTrace,
                                ok: bool, now: map<string, Candidate>) {
    && |before| + |t.plans| <= t.from < |log|
    && (forall pub, k :: PolledLive(world, log, |before|, t.from, pub, staleAfter) && |before| <= k < |log| && log[k].Applied? ==>
          && Asserted(log[k].desired, pub).None?
          && (pub in PubsOf(t.plans) && pub in log[k].before ==> pub in log[k].after && log[k].after[pub] == log[k].before[pub]))
    && forall i :: 0 <= i < |t.plans| ==> PlanDecided(c, world, staleAfter, log, t, i, ok, now)
  }

  lemma PlanGoesByItsPoll(c: Context, world: nat -> Devices.Weather, start: int, staleAfter: int, before: seq<Event>, log: seq<Event>, t: TickTrace,
                          i: nat, ok: bool, was: map<string, Candidate>, now: map<string, Candidate>)
    requires EndpointsHandled(c, staleAfter, before, log, t) && Ran(world, start, log) && i < |t.plans| && was == c.lastGood
    requires ok ==> SettledUpTo(c.net, log, t.from, t.plans, was, now, |t.plans|)
    ensures |t.plans| <= t.from < |log| && PlanDecided(c, world, staleAfter, log, t, i, ok, now)
  {
    hide Ran, Quiet, Applies, DialBudget, AllMarked, LiveInKernel, PlannedPeers, SettledUpTo, Settled, RespectfulSince, PlanDecided;
    MarkedByKernel(staleAfter, log, t.from, t.plans, world, start, i);
    PrimedFromMemory(c, t.spokes, |before|, log, t.plans, i);
    LiveStaysUnasserted(log, t.from, t.plans, i);
    if ok { TurnOf(c.net, log, t.from, t.plans, was, now, i); }
    DecidedFrom(c, world, staleAfter, log, t, i, ok, now);
  }

  lemma DecidedFrom(c: Context, world: nat -> Devices.Weather, staleAfter: int, log: seq<Event>, t: TickTrace, i: nat, ok: bool, now: map<string, Candidate>)
    requires i < |t.plans| <= t.from < |log| && FirstApply(log, t.from, t.plans)
    requires var p, poll := t.plans[i], t.from - |t.plans| + i;
             && log[poll].Polled? && log[poll].pub == p.pub && (p.freshNow <==> LiveInKernel(world(poll), log[poll], staleAfter))
             && p.desire.endpoint ==
                  (if p.freshNow then None
                   else if p.name in c.lastGood && c.lastGood[p.name].addr != "" then c.net.resolve(c.lastGood[p.name].addr)
                   else if p.ordered != [] then c.net.resolve(p.ordered[0].addr)
                   else None)
             && (ok && !p.freshNow && p.ordered != [] ==> p.name in now && Settled(c.net, log, t.from, i, p, now[p.name]))
             && (p.freshNow ==> forall k :: t.from <= k < |log| && log[k].Applied? ==> |log[k].desired| == |t.plans| && log[k].desired[i].endpoint.None?)
    ensures PlanDecided(c, world, staleAfter, log, t, i, ok, now)
  {
    hide LiveInKernel, Settled;
  }

  lemma PrimedFromMemory(c: Context, spokes: set<string>, from: nat, log: seq<Event>, ps: seq<Plan>, i: nat)
    requires PlannedPeers(c, spokes, from, log, ps) && i < |ps|
    ensures var p := ps[i];
            p.desire.endpoint ==
              (if p.freshNow then None
               else if p.name in c.lastGood && c.lastGood[p.name].addr != "" then c.net.resolve(c.lastGood[p.name].addr)
               else if p.ordered != [] then c.net.resolve(p.ordered[0].addr)
               else None)
  {
    hide Plannable, AllowedFor, OrderedBy, WellFormed, DistinctNames, NamesOf, Planned;
    assert PlanFor(c, from, log, Unprimed(ps[i]));
  }

  lemma LiveStaysUnasserted(log: seq<Event>, from: nat, ps: seq<Plan>, i: nat)
    requires RespectfulSince(log, from, ps) && i < |ps|
    ensures ps[i].freshNow ==> forall k :: from <= k < |log| && log[k].Applied? ==> |log[k].desired| == |ps| && log[k].desired[i].endpoint.None?
  {
  }

  lemma TurnOf(net: NetLib, log: seq<Event>, from: nat, ps: seq<Plan>, was: map<string, Candidate>, now: map<string, Candidate>, i: nat)
    requires SettledUpTo(net, log, from, ps, was, now, |ps|) && i < |ps|
    ensures !ps[i].freshNow && ps[i].ordered != [] ==> ps[i].name in now && Settled(net, log, from, i, ps[i], now[ps[i].name])
  {
    assert TurnDone(net, log, from, i, ps[i], was, now);
  }

  lemma KernelDecidesAll(c: Context, world: nat -> Devices.Weather, start: int, staleAfter: int, before: seq<Event>, log: seq<Event>, t: TickTrace,
                         ok: bool, now: map<string, Candidate>)
    requires EndpointsHandled(c, staleAfter, before, log, t) && Ran(world, start, log)
    requires ok ==> SettledUpTo(c.net, log, t.from, t.plans, c.lastGood, now, |t.plans|)
    ensures KernelDecides(c, world, staleAfter, before, log, t, ok, now)
  {
    hide Ran, Quiet, Applies, DialBudget, AllMarked, PlannedPeers, PlanDecided, SettledUpTo, PolledLive, Asserted, PubsOf;
    forall pub, k | PolledLive(world, log, |before|, t.from, pub, staleAfter) && |before| <= k < |log| && log[k].Applied?
      ensures Asserted(log[k].desired, pub).None?
      ensures pub in PubsOf(t.plans) && pub in log[k].before ==> pub in log[k].after && log[k].after[pub] == log[k].before[pub]
    {
      LiveSessionsUntouched(c, staleAfter, before, log, t, world, start, k, pub);
    }
    forall i | 0 <= i < |t.plans| ensures PlanDecided(c, world, staleAfter, log, t, i, ok, now) {
      PlanGoesByItsPoll(c, world, start, staleAfter, before, log, t, i, ok, c.lastGood, now);
    }
  }

  /** The same for a key whose every plan was marked live. */
  lemma MarkedLiveUntouched(c: Context, staleAfter: int, before: seq<Event>, log: seq<Event>, t: TickTrace, k: nat, pub: WgKey)
    requires EndpointsHandled(c, staleAfter, before, log, t)
    requires |before| <= k < |log| && log[k].Applied? && EventSound(log[k])
    requires KeyIsLive(t.plans, pub) && pub in log[k].before
    ensures pub in log[k].after && log[k].after[pub] == log[k].before[pub]
    ensures Asserted(log[k].desired, pub).None?
  {
    hide PlannedPeers, AllMarked, DialBudget, Applies, ApplySound, KeyIsLive, Asserted, Respectful;
    ApplyIsNotBefore(before, log, t.from, k);
    LivePeerLeftAlone(log[k], t.plans, pub);
  }

  /** The guard is needed: the first Apply asserts an endpoint for any key that one stale plan has one for. */
  lemma StalePlanIsAsserted(c: Context, staleAfter: int, before: seq<Event>, log: seq<Event>, t: TickTrace, j: nat)
    requires EndpointsHandled(c, staleAfter, before, log, t) && j < |t.plans|
    ensures InitialEndpoint(c.net, t.plans[j]).Some? ==> Asserted(log[t.from].desired, t.plans[j].pub).Some?
  {
    hide AllMarked, DialBudget, Applies, Asserted, Respectful, PlanFor, Planned;
    if InitialEndpoint(c.net, t.plans[j]).Some? { StalePlanAsserts(t.plans, j); }
  }

  lemma ApplyIsNotBefore(before: seq<Event>, log: seq<Event>, from: nat, k: nat)
    requires from <= |log| && Quiet(before, log[..from]) && |before| <= k < |log| && log[k].Applied?
    ensures from <= k
  {
    assert forall j :: 0 <= j < from ==> log[..from][j] == log[j];
  }

  /** With every session live, a Tick issues exactly one Apply. */
  lemma OneApplyWhenAllLive(c: Context, staleAfter: int, before: seq<Event>, log: seq<Event>, t: TickTrace)
    requires EndpointsHandled(c, staleAfter, before, log, t)
    requires forall i :: 0 <= i < |t.plans| ==> t.plans[i].freshNow
    ensures Applies(log) == Applies(before) + 1
  {
    NoStaleNoBudget(t.plans);
  }

  /** Every Apply of the Tick: right peers if accepted, and no live session disturbed. */
  ghost predicate SessionsRespected(d: Deriver, view: View, from: nat, log: seq<Event>, t: TickTrace) {
    forall k :: from <= k < |log| && log[k].Applied? ==> ApplyRespects(d, view, log[k], t)
  }

  ghost predicate ApplyRespects(d: Deriver, view: View, e: Event, t: TickTrace)
    requires e.Applied?
  {
    && (e.ok ==> e.after.Keys == set n | n in Planned(d, view, t.spokes) :: PubOf(d, n))
    && (forall pub :: pub in e.before && pub in PubsOf(t.plans) ==> pub in e.after && e.after[pub].session == e.before[pub].session)
    && forall pub :: KeyIsLive(t.plans, pub) && pub in e.before ==>
         Asserted(e.desired, pub).None? && pub in e.after && e.after[pub] == e.before[pub]
  }

  lemma ApplyIsRespectful(c: Context, staleAfter: int, before: seq<Event>, log: seq<Event>, t: TickTrace, k: nat)
    requires EndpointsHandled(c, staleAfter, before, log, t)
    requires |before| <= k < |log| && log[k].Applied? && EventSound(log[k])
    ensures ApplyRespects(c.d, c.view, log[k], t)
  {
    hide AllMarked, DialBudget, Applies, ApplySound, PlannedPeers, Respectful, Asserted, Planned, Quiet, KeyIsLive;
    PlannedKeys(c, t.spokes, |before|, log, t.plans);
    ApplyIsNotBefore(before, log, t.from, k);
    PeersAreThePlans(log[k], t.plans);
    forall pub | KeyIsLive(t.plans, pub) && pub in log[k].before
      ensures Asserted(log[k].desired, pub).None? && pub in log[k].after && log[k].after[pub] == log[k].before[pub]
    {
      MarkedLiveUntouched(c, staleAfter, before, log, t, k, pub);
    }
  }

  lemma PlannedPub(c: Context, spokes: set<string>, from: nat, log: seq<Event>, ps: seq<Plan>, i: nat)
    requires PlannedPeers(c, spokes, from, log, ps) && i < |ps|
    ensures ps[i].pub == PubOf(c.d, ps[i].name) && ps[i].name in Planned(c.d, c.view, spokes)
  {
    hide Planned, Primed;
    assert PlanFor(c, from, log, Unprimed(ps[i]));
    assert ps[i] in ps && ps[i].name in NamesOf(ps);
  }

  /** The planned keys are the planned names' keys. */
  lemma PlannedKeys(c: Context, spokes: set<string>, from: nat, log: seq<Event>, ps: seq<Plan>)
    requires PlannedPeers(c, spokes, from, log, ps)
    ensures PubsOf(ps) == set n | n in Planned(c.d, c.view, spokes) :: PubOf(c.d, n)
  {
    forall i | 0 <= i < |ps| ensures ps[i].pub == PubOf(c.d, ps[i].name) && ps[i].name in Planned(c.d, c.view, spokes) {
      PlannedPub(c, spokes, from, log, ps, i);
    }
    hide Planned, Primed, PlanFor;
    forall n | n in Planned(c.d, c.view, spokes) ensures PubOf(c.d, n) in PubsOf(ps) {
      var p :| p in ps && p.name == n;
    }
  }

  /** The plans of a Tick have distinct keys exactly when no two planned names normalize alike. */
  lemma PlannedPubsDistinctIff(c: Context, spokes: set<string>, from: nat, log: seq<Event>, ps: seq<Plan>)
    requires PlannedPeers(c, spokes, from, log, ps)
    ensures DistinctPubs(ps) <==> NormalizeInjectiveOn(Planned(c.d, c.view, spokes))
  {
    forall i | 0 <= i < |ps| ensures ps[i].pub == PubOf(c.d, ps[i].name) {
      PlannedPub(c, spokes, from, log, ps, i);
    }
    DistinctPubsIff(c.d, ps);
  }

  /** A record under another spelling of a name is genuine and shares its key: the roster then plans one key twice. */
  lemma RespelledNameSharesKey(d: Deriver, nonce: nat, body: Body)
    requires body.name == " a" && d.overlayOf("a") == Some(body.ip)
    ensures var id := PublicKeyOf(d, body.name);
            Genuine(d, Seal(d, nonce, Sign(body, id))) == Some(body.(pk := PkText(id)))
    ensures Plannable(d, " a") && Plannable(d, "a") && PubOf(d, " a") == PubOf(d, "a")
    ensures !NormalizeInjectiveOn({" a", "a"})
  {
    assert Names.TrimLeft(" a") == Names.TrimLeft("a") == "a" by { assert " a"[1..] == "a"; }
    assert Names.TrimRight("a") == "a";
    assert Names.ToLower("a") == "a";
    assert Names.Normalize(" a") == "a" && Names.Normalize("a") == "a";
    assert Names.Valid("a");
    assert " a" in {" a", "a"} && "a" in {" a", "a"} && " a" != "a";
  }

  /**
    A whole Tick: every Apply it issues, first or racing, respects the live
    sessions and, if accepted, leaves exactly the keys of the roster's names
    and the spokes; what is live is decided by the kernel's handshakes; with
    every session live there is exactly one Apply; and every turn of the race
    is accounted for.
   */
  method TickRespectsSessions(dm: Daemon, view: View, mine: seq<Candidate>, readable: bool, writable: bool)
    returns (ok: bool, ghost t: TickTrace)
    requires dm.Valid()
    modifies dm, dm.dev, dm.tracker, dm.tracker.router, dm.file
    ensures dm.Valid() && old(dm.dev.log) <= dm.dev.log && t.spokes == old(Loaded(dm, readable))
    ensures EndpointsHandled(old(dm.Ctx(view, mine)), dm.staleAfter, old(dm.dev.log), dm.dev.log, t)
    ensures ok <==> Accepts(dm.dev.world(t.from), DesiresOf(t.plans), dm.dev.log[t.from].before)
    ensures SessionsRespected(dm.d, view, |old(dm.dev.log)|, dm.dev.log, t)
    ensures KernelDecides(old(dm.Ctx(view, mine)), dm.dev.world, dm.staleAfter, old(dm.dev.log), dm.dev.log, t, ok, dm.lastGood)
    ensures (forall i :: 0 <= i < |t.plans| ==> t.plans[i].freshNow) ==> Applies(dm.dev.log) == Applies(old(dm.dev.log)) + 1
    ensures ok ==> SettledUpTo(dm.net, dm.dev.log, t.from, t.plans, old(dm.lastGood), dm.lastGood, |t.plans|)
  {
    hide LinuxRouter.Valid, Device.Valid, JudgedAs, SpokeFile.Stored, ParsedCIDRs, Routers.Wanted, SpokeIPs, DistinctIPs, OverlayIP, EndpointsHandled,
         LinuxRouter.NoneFailed, RemovalsHeld, Applies, PubsOf, Sources, SettledUpTo, SpokeTracker.InStep, EventSound, ApplyRespects, Storable, Accepts, KernelDecides, Ran;
    ghost var c := dm.Ctx(view, mine);
    ok, t := dm.Tick(Fetched(view), mine, readable, writable);
    forall k | |old(dm.dev.log)| <= k < |dm.dev.log| && dm.dev.log[k].Applied? ensures ApplyRespects(dm.d, view, dm.dev.log[k], t) {
      LogIsSound(dm.dev, k);
      ApplyIsRespectful(c, dm.staleAfter, old(dm.dev.log), dm.dev.log, t, k);
    }
    if forall i :: 0 <= i < |t.plans| ==> t.plans[i].freshNow {
      OneApplyWhenAllLive(c, dm.staleAfter, old(dm.dev.log), dm.dev.log, t);
    }
    DeviceRan(dm.dev);
    KernelDecidesAll(c, dm.dev.world, dm.dev.start, dm.staleAfter, old(dm.dev.log), dm.dev.log, t, ok, dm.lastGood);
  }

  lemma DeviceRan(dev: Device)
    requires dev.Valid()
    ensures Ran(dev.world, dev.start, dev.log)
  {
  }

  lemma LogIsSound(dev: Device, k: nat)
    requires dev.Valid() && k < |dev.log|
    ensures EventSound(dev.log[k])
  {
    hide EventSound, Accepts, KernelAt, TimeAt;
    assert FollowsAt(dev.world, dev.start, dev.log, k);
  }

  // ----- Whole runs -----

  /** One Tick's inputs: the roster, our candidates, and how its spoke file read and write go. */
  datatype TickInput = TickInput(roster: Fetched, mine: seq<Candidate>, readable: bool, writable: bool)

  /** Where a run of Ticks stands: the device log, the spokes in memory and the spoke file. */
  datatype Stage = Stage(log: seq<Event>, spokes: set<string>, text: Option<string>)

  /** One Tick of a run: where it began, the spoke file it met, what it was made from, how it went and where it ended. */
  datatype Ticked = Ticked(input: TickInput, c: Context, from: Stage, text: Option<string>, ok: bool, t: TickTrace, to: Stage)

  ghost function StoredIn(text: Option<string>): set<string> {
    if text.None? then {} else NamesIn(text.value)
  }

  /**
    The record is of a real Tick. It loaded the spokes from the file it met,
    or kept those in memory; it handled the endpoints, and succeeded exactly
    when the world let its first Apply through; then it dropped exactly the
    spokes found departed and saved the rest, and otherwise none.
   */
  ghost predicate TickedSound(dm: Daemon, k: Ticked)
  {
    && k.from.log <= k.to.log
    && k.c == Context(dm.d, dm.net, dm.parseCIDR, if k.input.roster.Fetched? then k.input.roster.view else map[], k.input.mine, k.c.lastGood)
    && k.t.spokes == (if dm.persistent && (k.text.None? || k.input.readable) then StoredIn(k.text) else k.from.spokes)
    && (k.input.roster.ReadError? ==> !k.ok && k.to.log == k.from.log)
    && (k.input.roster.Fetched? ==>
          && EndpointsHandled(k.c, dm.staleAfter, k.from.log, k.to.log, k.t)
          && (k.ok <==> Accepts(dm.dev.world(k.t.from), DesiresOf(k.t.plans), k.to.log[k.t.from].before)))
    && k.to.spokes <= k.t.spokes
    && (!k.ok ==> k.to.spokes == k.t.spokes && k.to.text == k.text)
    && (k.ok ==> forall n :: n in k.t.spokes ==> JudgedAs(dm.d, k.to.log, k.t.judged, n, k.to.spokes, dm.staleAfter))
    && (k.to.text == k.text || StoredIn(k.to.text) == k.to.spokes)
    && (k.ok && dm.persistent && k.input.writable && k.to.spokes != k.t.spokes ==> StoredIn(k.to.text) == k.to.spokes)
  }

  /** The Ticks follow on each other, from one stage to another, with these edits of the spoke file before them. */
  ghost predicate Chained(start: Stage, edits: seq<Option<string>>, ticks: seq<Ticked>, end: Stage)
    decreases |ticks|
  {
    && |edits| == |ticks|
    && if ticks == [] then end == start
       else
         var n := |ticks| - 1;
         var k := ticks[n];
         k.to == end && k.text == (if edits[n].Some? then edits[n] else k.from.text) && Chained(start, edits[..n], ticks[..n], k.from)
  }

  /** The records are of real Ticks on these inputs, one after another, from one stage to another. */
  ghost predicate TicksRan(dm: Daemon, start: Stage, edits: seq<Option<string>>, inputs: seq<TickInput>, ticks: seq<Ticked>, end: Stage) {
    && |ticks| == |inputs| && (forall i :: 0 <= i < |ticks| ==> ticks[i].input == inputs[i] && TickedSound(dm, ticks[i]))
    && Chained(start, edits, ticks, end)
  }

  lemma TicksRanBegins(dm: Daemon, start: Stage, edits: seq<Option<string>>, inputs: seq<TickInput>)
    ensures TicksRan(dm, start, edits[..0], inputs[..0], [], start)
  {
    assert edits[..0] == [] && inputs[..0] == [];
  }

  lemma TicksRanEnds(dm: Daemon, start: Stage, edits: seq<Option<string>>, inputs: seq<TickInput>, ticks: seq<Ticked>, end: Stage)
    requires |edits| == |inputs| && TicksRan(dm, start, edits[..|inputs|], inputs[..|inputs|], ticks, end)
    ensures TicksRan(dm, start, edits, inputs, ticks, end)
  {
    assert edits[..|inputs|] == edits && inputs[..|inputs|] == inputs;
  }

  lemma TicksRanSnoc(dm: Daemon, start: Stage, edits: seq<Option<string>>, inputs: seq<TickInput>, i: nat, ticks: seq<Ticked>, k: Ticked)
    requires i < |inputs| == |edits| && TicksRan(dm, start, edits[..i], inputs[..i], ticks, k.from) && k.input == inputs[i] && TickedSound(dm, k)
    requires k.text == if edits[i].Some? then edits[i] else k.from.text
    ensures TicksRan(dm, start, edits[..i + 1], inputs[..i + 1], ticks + [k], k.to)
  {
    hide TickedSound;
    assert (ticks + [k])[..i] == ticks && edits[..i + 1][..i] == edits[..i];
    hide Chained;
    forall j | 0 <= j < i + 1 ensures (ticks + [k])[j].input == inputs[j] && TickedSound(dm, (ticks + [k])[j]) {
      if j < i { assert (ticks + [k])[j] == ticks[j] && inputs[..i][j] == inputs[j]; }
    }
    assert Chained(start, edits[..i + 1], ticks + [k], k.to) by { ChainedSnoc(start, edits, i, ticks, k); }
  }

  lemma ChainedSnoc(start: Stage, edits: seq<Option<string>>, i: nat, ticks: seq<Ticked>, k: Ticked)
    requires i < |edits| && Chained(start, edits[..i], ticks, k.from) && k.text == if edits[i].Some? then edits[i] else k.from.text
    ensures Chained(start, edits[..i + 1], ticks + [k], k.to)
  {
    assert (ticks + [k])[..i] == ticks && edits[..i + 1][..i] == edits[..i];
  }

  ghost function StageOf(dm: Daemon): Stage
    reads dm, dm.dev, dm.file
  {
    Stage(dm.dev.log, dm.spokes, dm.file.text)
  }

  /** The spokes a Tick starts from. */
  ghost function Loaded(dm: Daemon, readable: bool): set<string>
    reads dm, dm.file
  {
    if dm.persistent && (dm.file.text.None? || readable) then dm.file.Stored() else dm.spokes
  }

  /** A Tick as runs see it. */
  method TickOnce(dm: Daemon, input: TickInput) returns (ghost k: Ticked)
    requires dm.Valid()
    modifies dm, dm.dev, dm.tracker, dm.tracker.router, dm.file
    ensures dm.Valid() && old(dm.tracker.router.log) <= dm.tracker.router.log
    ensures k.input == input && k.from == old(StageOf(dm)) && k.text == k.from.text && k.to == StageOf(dm) && TickedSound(dm, k)
    ensures k.t.spokes == old(Loaded(dm, input.readable)) && dm.spokes <= k.t.spokes && forall n :: n in k.t.spokes ==> Storable(n)
    ensures dm.file.text == old(dm.file.text) || dm.file.Stored() == dm.spokes
    ensures k.ok && dm.persistent && input.writable && dm.spokes != k.t.spokes ==> dm.file.Stored() == dm.spokes
    ensures !k.ok ==> dm.spokes == k.t.spokes && dm.tracker.spokeSrc == old(dm.tracker.spokeSrc) && dm.file.text == old(dm.file.text)
    ensures !k.ok ==> dm.tracker.router.added == old(dm.tracker.router.added)
    ensures k.ok ==> dm.dev.peers.Keys == PubsOf(k.t.plans) && dm.tracker.spokeSrc.Keys <= SpokeIPs(dm.d, k.t.spokes).Keys
    ensures k.ok ==> forall n :: n in k.t.spokes ==> JudgedAs(dm.d, k.to.log, k.t.judged, n, dm.spokes, dm.staleAfter)
    ensures DistinctIPs(old(dm.tracker.spokeSrc) + SpokeIPs(dm.d, k.t.spokes)) && old(dm.tracker.InStep()) && RemovalsHeld(dm.tracker.router.fails, dm.tracker.router.log, |old(dm.tracker.router.log)|) ==> dm.tracker.InStep()
    ensures k.ok && dm.tracker.router.NoneFailed(|old(dm.tracker.router.log)|, |dm.tracker.router.log|) ==> dm.tracker.spokeSrc == SpokeIPs(dm.d, k.t.spokes)
  {
    hide Daemon.Valid, LinuxRouter.Valid, Device.Valid, JudgedAs, NamesIn, ParsedCIDRs, Routers.Wanted, SpokeIPs, DistinctIPs, OverlayIP,
         LinuxRouter.NoneFailed, RemovalsHeld, EndpointsHandled, Accepts, Applies, PubsOf, Sources, SettledUpTo, Storable, SpokesServed;
    ghost var c := Context(dm.d, dm.net, dm.parseCIDR, if input.roster.Fetched? then input.roster.view else map[], input.mine, dm.lastGood);
    ghost var from := StageOf(dm);
    var ok, t := dm.Tick(input.roster, input.mine, input.readable, input.writable);
    k := Ticked(input, c, from, from.text, ok, t, StageOf(dm));
  }

  /** All spoke names in play come from a pool. */
  ghost predicate FromPool(dm: Daemon, pool: set<string>)
    reads dm, dm.tracker, dm.file
  {
    dm.spokes <= pool && dm.tracker.spokeSrc.Keys <= pool && dm.file.Stored() <= pool
  }

  /**
    Over any run of Ticks, with other processes editing the spoke file in
    between, each Tick succeeds exactly when the world lets it, and the router
    masks exactly the tracked spokes, as long as the world fails no removal of
    a spoke's rule and no two spokes in play share an address. If moreover it
    failed nothing and the last Tick succeeded, those are exactly the spokes
    that Tick had loaded.
   */
  method RunTicks(dm: Daemon, inputs: seq<TickInput>, edits: seq<Option<string>>, ghost pool: set<string>) returns (ghost ticks: seq<Ticked>)
    requires dm.Valid() && dm.tracker.InStep() && FromPool(dm, pool) && DistinctIPs(SpokeIPs(dm.d, pool))
    requires |edits| == |inputs| && forall i :: 0 <= i < |edits| && edits[i].Some? ==> NamesIn(edits[i].value) <= pool
    modifies dm, dm.dev, dm.tracker, dm.tracker.router, dm.file
    ensures dm.Valid() && FromPool(dm, pool) && old(dm.tracker.router.log) <= dm.tracker.router.log
    ensures TicksRan(dm, old(StageOf(dm)), edits, inputs, ticks, StageOf(dm))
    ensures RemovalsHeld(dm.tracker.router.fails, dm.tracker.router.log, |old(dm.tracker.router.log)|) ==> dm.tracker.InStep()
    ensures ticks != [] && ticks[|ticks| - 1].ok && dm.tracker.router.NoneFailed(|old(dm.tracker.router.log)|, |dm.tracker.router.log|) ==>
              var ips := SpokeIPs(dm.d, ticks[|ticks| - 1].t.spokes);
              dm.tracker.spokeSrc == ips && dm.tracker.router.added == Sources(ips)
  {
    ticks := [];
    ghost var router, base, start := dm.tracker.router, |dm.tracker.router.log|, StageOf(dm);
    hide Daemon.Valid, NamesIn, DistinctIPs, SpokeIPs, RemovalsHeld, TickedSound, TicksRan, FromPool, LinuxRouter.NoneFailed, Sources, Loaded, StageOf;
    TicksRanBegins(dm, start, edits, inputs);
    for i := 0 to |inputs|
      invariant dm.Valid() && FromPool(dm, pool) && old(router.log) <= router.log
      invariant |ticks| == i && TicksRan(dm, start, edits[..i], inputs[..i], ticks, StageOf(dm))
      invariant RemovalsHeld(router.fails, router.log, base) ==> dm.tracker.InStep()
      invariant ticks != [] && ticks[i - 1].ok && router.NoneFailed(base, |router.log|) ==> dm.tracker.spokeSrc == SpokeIPs(dm.d, ticks[i - 1].t.spokes)
    {
      hide SpokeTracker.InStep;
      ghost var k := EditAndTick(dm, edits[i], inputs[i], pool, base);
      TicksRanSnoc(dm, start, edits, inputs, i, ticks, k);
      ticks := ticks + [k];
    }
    TicksRanEnds(dm, start, edits, inputs, ticks, StageOf(dm));
  }

  /** One round of a run that began at firewall command number `base`. */
  method EditAndTick(dm: Daemon, edit: Option<string>, input: TickInput, ghost pool: set<string>, ghost base: nat) returns (ghost k: Ticked)
    requires dm.Valid() && FromPool(dm, pool) && DistinctIPs(SpokeIPs(dm.d, pool)) && base <= |dm.tracker.router.log|
    requires edit.Some? ==> NamesIn(edit.value) <= pool
    requires RemovalsHeld(dm.tracker.router.fails, dm.tracker.router.log, base) ==> dm.tracker.InStep()
    modifies dm, dm.dev, dm.tracker, dm.tracker.router, dm.file
    ensures dm.Valid() && FromPool(dm, pool) && old(dm.tracker.router.log) <= dm.tracker.router.log
    ensures k.input == input && k.from == old(StageOf(dm)) && k.to == StageOf(dm) && TickedSound(dm, k)
    ensures k.text == if edit.Some? then edit else k.from.text
    ensures RemovalsHeld(dm.tracker.router.fails, dm.tracker.router.log, base) ==> dm.tracker.InStep()
    ensures k.ok && dm.tracker.router.NoneFailed(base, |dm.tracker.router.log|) ==> dm.tracker.spokeSrc == SpokeIPs(dm.d, k.t.spokes)
  {
    hide Daemon.Valid, NamesIn, DistinctIPs, SpokeIPs, RemovalsHeld, TickedSound, Sources, Loaded;
    ghost var log, from := dm.tracker.router.log, StageOf(dm);
    if edit.Some? {
      EditFile(dm, edit.value);
    }
    hide FromPool;
    k := RunTick(dm, input, pool);
    EditedSound(dm, k, from);
    k := k.(from := from);
    RemovalsSplit(dm.tracker.router.fails, log, dm.tracker.router.log, base);
  }

  /** Where the file's text came from does not matter to a Tick. */
  lemma EditedSound(dm: Daemon, k: Ticked, from: Stage)
    requires TickedSound(dm, k) && from == k.from.(text := from.text)
    ensures TickedSound(dm, k.(from := from))
  {
  }

  method EditFile(dm: Daemon, text: string)
    requires dm.Valid()
    modifies dm.file
    ensures dm.Valid() && dm.file.text == Some(text)
  {
    dm.file.text := Some(text);
  }

  method RunTick(dm: Daemon, input: TickInput, ghost pool: set<string>) returns (ghost k: Ticked)
    requires dm.Valid() && FromPool(dm, pool) && DistinctIPs(SpokeIPs(dm.d, pool))
    modifies dm, dm.dev, dm.tracker, dm.tracker.router, dm.file
    ensures dm.Valid() && FromPool(dm, pool) && old(dm.tracker.router.log) <= dm.tracker.router.log
    ensures k.input == input && k.from == old(StageOf(dm)) && k.text == k.from.text && k.to == StageOf(dm) && TickedSound(dm, k)
    ensures old(dm.tracker.InStep()) && RemovalsHeld(dm.tracker.router.fails, dm.tracker.router.log, |old(dm.tracker.router.log)|) ==> dm.tracker.InStep()
    ensures k.ok && dm.tracker.router.NoneFailed(|old(dm.tracker.router.log)|, |dm.tracker.router.log|) ==> dm.tracker.spokeSrc == SpokeIPs(dm.d, k.t.spokes)
  {
    ghost var loaded := Loaded(dm, input.readable);
    PoolStaysDistinct(dm.d, pool, dm.tracker.spokeSrc, loaded);
    ghost var stored := dm.file.Stored();
    assert stored <= pool && loaded <= pool && dm.tracker.spokeSrc.Keys <= pool && old(dm.file.text) == dm.file.text;
    hide FromPool, Daemon.Valid, LinuxRouter.Valid, Device.Valid, JudgedAs, NamesIn, SpokeIPs, DistinctIPs, OverlayIP,
         LinuxRouter.NoneFailed, RemovalsHeld, TickedSound, PubsOf, Sources, Storable, SpokeTracker.InStep, Loaded, StageOf;
    k := TickOnce(dm, input);
    assert k.t.spokes == loaded && dm.spokes <= pool;
    assert dm.file.Stored() <= pool by {
      if dm.file.text == old(dm.file.text) { assert dm.file.Stored() == stored; }
    }
    InPool(dm, pool);
  }

  lemma InPool(dm: Daemon, pool: set<string>)
    requires dm.spokes <= pool && dm.tracker.spokeSrc.Keys <= pool && dm.file.Stored() <= pool
    ensures FromPool(dm, pool)
  {
  }

  lemma RemovalsSplit(fails: nat -> bool, log: seq<Command>, log': seq<Command>, from: nat)
    requires from <= |log| && log <= log'
    ensures RemovalsHeld(fails, log', from) <==> RemovalsHeld(fails, log, from) && RemovalsHeld(fails, log', |log|)
  {
    assert forall i :: 0 <= i < |log| ==> log'[i] == log[i];
  }

  lemma PoolStaysDistinct(d: Deriver, pool: set<string>, src: map<string, string>, spokes: set<string>)
    requires DistinctIPs(SpokeIPs(d, pool)) && src.Keys <= pool && spokes <= pool
    requires forall n :: n in src ==> OverlayIP(d, n) == Some(src[n])
    ensures DistinctIPs(src + SpokeIPs(d, spokes)) && SpokeIPs(d, spokes).Keys <= pool
  {
    hide OverlayIP;
    DistinctWithin(src + SpokeIPs(d, spokes), SpokeIPs(d, pool));
  }

  // ----- From an eviction to the next success -----

  lemma DistinctWithin(a: map<string, string>, b: map<string, string>)
    requires DistinctIPs(b) && forall n :: n in a ==> n in b && a[n] == b[n]
    ensures DistinctIPs(a)
  {
  }

  /** A spoke no longer among the wanted ones has no source rule, when addresses are distinct. */
  lemma EvictedHasNoSource(d: Deriver, before: set<string>, now: set<string>, src: map<string, string>, s: string)
    requires DistinctIPs(SpokeIPs(d, before)) && now <= before && s in before && s !in now
    requires src.Keys <= SpokeIPs(d, now).Keys && forall n :: n in src ==> OverlayIP(d, n) == Some(src[n])
    ensures OverlayIP(d, s).Some? ==> OverlayIP(d, s).value + "/32" !in Sources(src)
  {
    hide OverlayIP;
    if OverlayIP(d, s).Some? {
      forall n | n in src ensures src[n] + "/32" != OverlayIP(d, s).value + "/32" {
        var all := SpokeIPs(d, before);
        assert n in all && s in all && all[n] == src[n];
        if src[n] + "/32" == OverlayIP(d, s).value + "/32" { SameSource(src[n], OverlayIP(d, s).value); }
      }
    }
  }

  /**
    A spoke evicted in one Tick has a WireGuard peer after the next successful
    one, with any number of failing Ticks in between, exactly when the roster
    names it in some spelling, and it has no source-NAT rule. The latter is for
    distinct overlay addresses, NAT tracking in step and a world that fails no
    removal; both are for a hub with a spoke file that the eviction could write.
   */
  method EvictedSpokeIsGone(dm: Daemon, first: TickInput, between: seq<TickInput>, next: TickInput)
    returns (ghost k1: Ticked, ghost failing: seq<Ticked>, ghost k2: Ticked, ghost gone: set<string>)
    requires dm.Valid() && dm.persistent && dm.tracker.InStep() && first.writable
    modifies dm, dm.dev, dm.tracker, dm.tracker.router, dm.file
    ensures dm.Valid() && gone <= k1.t.spokes
    ensures k1.input == first && k2.input == next && TickedSound(dm, k1) && TickedSound(dm, k2)
    ensures k1.from == old(StageOf(dm)) && TicksRan(dm, k1.to, NoEdits(|between|), between, failing, k2.from) && k2.to == StageOf(dm)
    ensures k1.text == k1.from.text && k2.text == k2.from.text && k1.t.spokes - gone == k1.to.spokes
    ensures k1.t.spokes == old(Loaded(dm, first.readable))
    ensures k1.ok ==> forall s :: s in k1.t.spokes ==> JudgedAs(dm.d, k1.to.log, k1.t.judged, s, k1.t.spokes - gone, dm.staleAfter)
    ensures k1.ok && NoneOk(failing) && k2.ok ==>
              forall s :: s in gone ==> (PubOf(dm.d, s) in dm.dev.peers <==> RosterNames(dm.d, next.roster.view, s))
    ensures k1.ok && NoneOk(failing) && k2.ok && DistinctIPs(old(dm.tracker.spokeSrc) + SpokeIPs(dm.d, k1.t.spokes)) &&
            RemovalsHeld(dm.tracker.router.fails, dm.tracker.router.log, |old(dm.tracker.router.log)|) ==>
              forall s :: s in gone && OverlayIP(dm.d, s).Some? ==> OverlayIP(dm.d, s).value + "/32" !in dm.tracker.router.added
  {
    hide Daemon.Valid, LinuxRouter.Valid, Device.Valid, JudgedAs, SpokeFile.Stored, SpokeIPs, DistinctIPs, OverlayIP, TicksRan,
         LinuxRouter.NoneFailed, RemovalsHeld, TickedSound, PubsOf, Sources, Storable, RosterNames;
    ghost var src0, nat0, d := dm.tracker.spokeSrc, dm.tracker.router.log, dm.d;
    k1 := TickOnce(dm, first);
    ghost var kept, src1, in1, nat1 := dm.spokes, dm.tracker.spokeSrc, dm.tracker.InStep(), dm.tracker.router.log;
    gone := k1.t.spokes - kept;
    assert k1.t.spokes - gone == kept;
    SourcesKnown(dm);
    failing := RunBetween(dm, between, kept, k1.ok && gone != {});
    ghost var nat2 := dm.tracker.router.log;
    k2 := TickOnce(dm, next);
    SourcesKnown(dm);
    RemovalsSplit(dm.tracker.router.fails, nat2, dm.tracker.router.log, |nat0|);
    RemovalsSplit(dm.tracker.router.fails, nat1, nat2, |nat0|);
    if k1.ok && NoneOk(failing) && k2.ok && gone != {} {
      assert k2.t.spokes == kept;
      GonePeers(dm, k2, gone);
      if DistinctIPs(src0 + SpokeIPs(d, k1.t.spokes)) && RemovalsHeld(dm.tracker.router.fails, dm.tracker.router.log, |nat0|) {
        GoneSources(d, k1.t.spokes, kept, src0, src1, dm.tracker.spokeSrc, gone);
      }
    }
  }

  function NoEdits(n: nat): (r: seq<Option<string>>)
    ensures |r| == n && forall i :: 0 <= i < n ==> r[i].None?
  {
    if n == 0 then [] else NoEdits(n - 1) + [None]
  }

  ghost predicate NoneOk(ticks: seq<Ticked>) {
    forall i :: 0 <= i < |ticks| ==> !ticks[i].ok
  }

  /** The spokes, if they are in the file, and the NAT tracking are these. */
  ghost predicate Unmoved(dm: Daemon, kept: set<string>, saved: bool, src: map<string, string>, added: set<string>)
    reads dm, dm.file, dm.tracker, dm.tracker.router
  {
    && (saved ==> dm.spokes == kept && dm.file.Stored() == kept)
    && dm.tracker.spokeSrc == src && dm.tracker.router.added == added
  }

  /** Ticks that all fail leave the spokes, their file and the NAT tracking alone. */
  method RunBetween(dm: Daemon, inputs: seq<TickInput>, ghost kept: set<string>, ghost saved: bool) returns (ghost ticks: seq<Ticked>)
    requires dm.Valid() && dm.persistent && dm.spokes == kept && (saved ==> dm.file.Stored() == kept)
    modifies dm, dm.dev, dm.tracker, dm.tracker.router, dm.file
    ensures dm.Valid() && old(dm.tracker.router.log) <= dm.tracker.router.log
    ensures TicksRan(dm, old(StageOf(dm)), NoEdits(|inputs|), inputs, ticks, StageOf(dm))
    ensures NoneOk(ticks) && saved ==> dm.spokes == kept && dm.file.Stored() == kept
    ensures NoneOk(ticks) ==> dm.tracker.spokeSrc == old(dm.tracker.spokeSrc) && dm.tracker.router.added == old(dm.tracker.router.added)
  {
    ticks := [];
    ghost var edits, start, src, added := NoEdits(|inputs|), StageOf(dm), dm.tracker.spokeSrc, dm.tracker.router.added;
    assert Unmoved(dm, kept, saved, src, added);
    hide Daemon.Valid, TickedSound, TicksRan, NamesIn, NoneOk, StageOf, SpokeFile.Stored, Unmoved, NoEdits;
    TicksRanBegins(dm, start, edits, inputs);
    for i := 0 to |inputs|
      invariant dm.Valid() && old(dm.tracker.router.log) <= dm.tracker.router.log
      invariant |ticks| == i && TicksRan(dm, start, edits[..i], inputs[..i], ticks, StageOf(dm))
      invariant NoneOk(ticks) ==> Unmoved(dm, kept, saved, src, added)
    {
      ghost var k := TickBetween(dm, inputs[i], kept, saved, NoneOk(ticks), src, added);
      NoneOkSnoc(ticks, k);
      TicksRanSnoc(dm, start, edits, inputs, i, ticks, k);
      ticks := ticks + [k];
    }
    TicksRanEnds(dm, start, edits, inputs, ticks, StageOf(dm));
    UnmovedSays(dm, kept, saved, src, added);
  }

  lemma UnmovedSays(dm: Daemon, kept: set<string>, saved: bool, src: map<string, string>, added: set<string>)
    ensures Unmoved(dm, kept, saved, src, added) ==>
              (saved ==> dm.spokes == kept && dm.file.Stored() == kept) && dm.tracker.spokeSrc == src && dm.tracker.router.added == added
  {
  }

  lemma NoneOkSnoc(ticks: seq<Ticked>, k: Ticked)
    ensures NoneOk(ticks + [k]) <==> NoneOk(ticks) && !k.ok
  {
    assert (ticks + [k])[|ticks|] == k && forall i :: 0 <= i < |ticks| ==> (ticks + [k])[i] == ticks[i];
  }

  /** One of them; `quiet` when none has succeeded so far. */
  method TickBetween(dm: Daemon, input: TickInput, ghost kept: set<string>, ghost saved: bool, ghost quiet: bool,
                     ghost src: map<string, string>, ghost added: set<string>) returns (ghost k: Ticked)
    requires dm.Valid() && dm.persistent && (quiet ==> Unmoved(dm, kept, saved, src, added))
    modifies dm, dm.dev, dm.tracker, dm.tracker.router, dm.file
    ensures dm.Valid() && old(dm.tracker.router.log) <= dm.tracker.router.log
    ensures k.input == input && k.from == old(StageOf(dm)) && k.text == k.from.text && k.to == StageOf(dm) && TickedSound(dm, k)
    ensures quiet && !k.ok ==> Unmoved(dm, kept, saved, src, added)
  {
    hide Daemon.Valid, TickedSound, NamesIn, JudgedAs, SpokeIPs, DistinctIPs, RemovalsHeld, PubsOf, LinuxRouter.NoneFailed, SpokeTracker.InStep, Storable;
    k := TickOnce(dm, input);
  }

  lemma SourcesKnown(dm: Daemon)
    requires dm.Valid()
    ensures forall n :: n in dm.tracker.spokeSrc ==> OverlayIP(dm.d, n) == Some(dm.tracker.spokeSrc[n])
  {
  }

  /** The roster holds a derivable name whose normal form is `s`. */
  ghost predicate RosterNames(d: Deriver, view: View, s: string) {
    exists n :: n in view && Plannable(d, n) && Names.Normalize(n) == s
  }

  lemma GonePeers(dm: Daemon, k: Ticked, gone: set<string>)
    requires TickedSound(dm, k) && k.ok && gone !! k.t.spokes
    requires (forall n :: n in k.t.spokes ==> Storable(n)) && (forall n :: n in gone ==> Storable(n))
    ensures forall s :: s in gone ==> (PubOf(dm.d, s) in PubsOf(k.t.plans) <==> RosterNames(dm.d, k.input.roster.view, s))
  {
    var c, spokes, ps := k.c, k.t.spokes, k.t.plans;
    PlannedKeys(c, spokes, |k.from.log|, k.to.log, ps);
    hide Names.Normalize, PlannedPeers, PubsOf, Plannable, EndpointsHandled, Accepts;
    forall s | s in gone ensures PubOf(c.d, s) in PubsOf(ps) <==> RosterNames(c.d, c.view, s) {
      assert Storable(s);
      if PubOf(c.d, s) in PubsOf(ps) {
        var n :| n in Planned(c.d, c.view, spokes) && PubOf(c.d, n) == PubOf(c.d, s);
        assert Names.Normalize(n) == s;
        assert n in spokes ==> n == s;
        assert n in c.view;
      }
      if RosterNames(c.d, c.view, s) {
        var n :| n in c.view && Plannable(c.d, n) && Names.Normalize(n) == s;
        assert n in Planned(c.d, c.view, spokes) && PubOf(c.d, n) == PubOf(c.d, s);
      }
    }
  }

  lemma GoneSources(d: Deriver, spokes1: set<string>, spokes2: set<string>, src0: map<string, string>,
                    src1: map<string, string>, src2: map<string, string>, gone: set<string>)
    requires DistinctIPs(src0 + SpokeIPs(d, spokes1)) && spokes2 <= spokes1 && gone == spokes1 - spokes2
    requires src1.Keys <= SpokeIPs(d, spokes1).Keys && forall n :: n in src1 ==> OverlayIP(d, n) == Some(src1[n])
    requires src2.Keys <= SpokeIPs(d, spokes2).Keys && forall n :: n in src2 ==> OverlayIP(d, n) == Some(src2[n])
    ensures DistinctIPs(src1 + SpokeIPs(d, spokes2))
    ensures forall s :: s in gone && OverlayIP(d, s).Some? ==> OverlayIP(d, s).value + "/32" !in Sources(src2)
  {
    hide OverlayIP;
    DistinctWithin(SpokeIPs(d, spokes1), src0 + SpokeIPs(d, spokes1));
    DistinctWithin(src1 + SpokeIPs(d, spokes2), SpokeIPs(d, spokes1));
    forall s | s in gone && OverlayIP(d, s).Some? ensures OverlayIP(d, s).value + "/32" !in Sources(src2) {
      EvictedHasNoSource(d, spokes1, spokes2, src2, s);
    }
  }

  lemma AscendingDistinct(names: seq<string>, i: nat)
    requires Ascending(names) && i < |names|
    ensures names[i] !in names[..i]
  {
    forall j | 0 <= j < i ensures names[j] != names[i] {
      StringBeforeTotal(names[j], names[i]);
    }
  }
}
