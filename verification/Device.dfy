/**
  The kernel WireGuard device (internal/mesh/device_linux.go): `Apply` turns a
  desired peer set into a list of updates and removals. Peers roam and shake
  hands on their own between calls.
 */
module Devices {
  import opened Wrappers
  import opened Peers

  /** A node's derived WireGuard public key. */
  datatype WgKey = WgKey(psk: string, name: string)

  datatype PeerDesire = PeerDesire(name: string, pub: WgKey, endpoint: Option<Udp>, allowedIPs: seq<string>)

  /** A configured peer; removing and re-adding it would start a new session. */
  datatype KernelPeer = KernelPeer(endpoint: Option<Udp>, handshake: Option<int>, session: nat)

  type Kernel = map<WgKey, KernelPeer>

  datatype PeerConfig = Update(pub: WgKey, endpoint: Option<Udp>) | Remove(pub: WgKey)

  /** What one entry of a ConfigureDevice call does; a nil endpoint leaves the endpoint alone. */
  function Configured(k: Kernel, c: PeerConfig, session: nat): Kernel {
    match c
    case Remove(pub) => k - {pub}
    case Update(pub, ep) =>
      var p := if pub in k then k[pub] else KernelPeer(None, None, session);
      k[pub := if ep.Some? then p.(endpoint := ep) else p]
  }

  /** A new peer's session is numbered by its place in the call. */
  function ConfiguredAll(k: Kernel, cfg: seq<PeerConfig>, first: nat): Kernel {
    if cfg == [] then k
    else Configured(ConfiguredAll(k, cfg[..|cfg| - 1], first), cfg[|cfg| - 1], first + |cfg| - 1)
  }

  /** Desires without AllowedIPs are skipped. */
  ghost function Wanted(desired: seq<PeerDesire>): set<WgKey> {
    set p | p in desired && p.allowedIPs != [] :: p.pub
  }

  /** The endpoint the desires assert for `k`: the last one given, if any. */
  ghost function Asserted(desired: seq<PeerDesire>, k: WgKey): Option<Udp> {
    if desired == [] then None
    else
      var p := desired[|desired| - 1];
      if p.pub == k && p.allowedIPs != [] && p.endpoint.Some? then p.endpoint
      else Asserted(desired[..|desired| - 1], k)
  }

  /** Every peer that is wanted and was there keeps its session, and its endpoint unless another is asserted. */
  ghost predicate Undisturbed(desired: seq<PeerDesire>, before: Kernel, after: Kernel) {
    forall k :: k in before && k in Wanted(desired) ==>
      && k in after
      && after[k].session == before[k].session && after[k].handshake == before[k].handshake
      && (Asserted(desired, k).None? ==> after[k].endpoint == before[k].endpoint)
  }

  /** The kernel holds exactly the wanted peers, at the asserted endpoints. */
  ghost predicate Converged(desired: seq<PeerDesire>, before: Kernel, after: Kernel) {
    && after.Keys == Wanted(desired)
    && forall k :: k in after ==>
         after[k].endpoint == (if Asserted(desired, k).Some? then Asserted(desired, k)
                               else if k in before then before[k].endpoint else None)
  }

  /** What `Apply` guarantees: convergence on success, and no disturbance even on failure. */
  ghost predicate ApplySound(desired: seq<PeerDesire>, before: Kernel, after: Kernel, ok: bool) {
    && Undisturbed(desired, before, after)
    && after.Keys <= before.Keys + Wanted(desired)
    && (ok ==> Converged(desired, before, after))
  }

  // ----- The configuration list -----

  ghost function EndpointBy(cfg: seq<PeerConfig>, k: WgKey): Option<Udp> {
    if cfg == [] then None
    else
      var c := cfg[|cfg| - 1];
      if c.Update? && c.pub == k && c.endpoint.Some? then c.endpoint else EndpointBy(cfg[..|cfg| - 1], k)
  }

  /** Updates only touch wanted peers and removals only unwanted ones. */
  ghost predicate Respects(cfg: seq<PeerConfig>, want: set<WgKey>) {
    forall i :: 0 <= i < |cfg| ==> (cfg[i].Update? <==> cfg[i].pub in want)
  }

  ghost predicate Mentions(cfg: seq<PeerConfig>, k: WgKey) {
    exists i :: 0 <= i < |cfg| && cfg[i].pub == k
  }

  /** What the entries so far have done to one peer. */
  ghost predicate PeerAfter(k: Kernel, k': Kernel, cfg: seq<PeerConfig>, want: set<WgKey>, p: WgKey) {
    && (p in k' <==> if p in want then p in k || Mentions(cfg, p) else p in k && !Mentions(cfg, p))
    && (p in k && p in k' ==> k'[p].session == k[p].session && k'[p].handshake == k[p].handshake)
    && (p in k' ==> k'[p].endpoint == (if EndpointBy(cfg, p).Some? then EndpointBy(cfg, p)
                                       else if p in k then k[p].endpoint else None))
  }

  lemma MentionsSnoc(cfg: seq<PeerConfig>, c: PeerConfig, k: WgKey)
    ensures Mentions(cfg + [c], k) <==> Mentions(cfg, k) || c.pub == k
  {
    var all := cfg + [c];
    if Mentions(cfg, k) {
      var i :| 0 <= i < |cfg| && cfg[i].pub == k;
      assert all[i].pub == k;
    }
    assert all[|cfg|] == c;
  }

  lemma {:induction false} ConfiguredPeer(k: Kernel, cfg: seq<PeerConfig>, first: nat, want: set<WgKey>, p: WgKey)
    requires Respects(cfg, want)
    ensures PeerAfter(k, ConfiguredAll(k, cfg, first), cfg, want, p)
  {
    if cfg != [] {
      var front, c := cfg[..|cfg| - 1], cfg[|cfg| - 1];
      assert cfg == front + [c];
      ConfiguredPeer(k, front, first, want, p);
      MentionsSnoc(front, c, p);
      if !Mentions(front, p) { UnmentionedKeepsEndpoint(front, p); }
    }
  }

  lemma {:induction false} UnmentionedKeepsEndpoint(cfg: seq<PeerConfig>, p: WgKey)
    requires !Mentions(cfg, p)
    ensures EndpointBy(cfg, p).None?
  {
    if cfg != [] {
      var front, c := cfg[..|cfg| - 1], cfg[|cfg| - 1];
      assert cfg == front + [c];
      MentionsSnoc(front, c, p);
      UnmentionedKeepsEndpoint(front, p);
    }
  }

  lemma {:induction false} EndpointByPrefix(cfg: seq<PeerConfig>, m: nat, p: WgKey)
    requires m <= |cfg| && EndpointBy(cfg, p).None?
    ensures EndpointBy(cfg[..m], p).None?
  {
    if m < |cfg| {
      EndpointByPrefix(cfg[..|cfg| - 1], m, p);
      assert cfg[..|cfg| - 1][..m] == cfg[..m];
    } else {
      assert cfg[..m] == cfg;
    }
  }

  /** The list that `Apply` builds: one entry per wanted desire, then the removals. */
  ghost predicate Diff(cfg: seq<PeerConfig>, desired: seq<PeerDesire>, before: Kernel) {
    && Respects(cfg, Wanted(desired))
    && (forall p :: Mentions(cfg, p) <==> p in Wanted(desired) || p in before)
    && (forall p :: EndpointBy(cfg, p) == Asserted(desired, p))
  }

  /** Any prefix of the list disturbs nobody; the whole list converges. */
  lemma DiffIsSound(cfg: seq<PeerConfig>, desired: seq<PeerDesire>, before: Kernel, first: nat, m: nat)
    requires m <= |cfg| && Diff(cfg, desired, before)
    ensures ApplySound(desired, before, ConfiguredAll(before, cfg[..m], first), m == |cfg|)
  {
    var after, ok := ConfiguredAll(before, cfg[..m], first), m == |cfg|;
    forall p ensures PeerSound(desired, before, after, ok, p) {
      DiffPeerSound(cfg, desired, before, first, m, p);
    }
    assert forall p :: p in after ==> PeerSound(desired, before, after, ok, p);
    assert forall p :: p in Wanted(desired) ==> PeerSound(desired, before, after, ok, p);
  }

  /** `ApplySound` for one peer. */
  ghost predicate PeerSound(desired: seq<PeerDesire>, before: Kernel, after: Kernel, ok: bool, p: WgKey) {
    && (p in before && p in Wanted(desired) ==>
          && p in after
          && after[p].session == before[p].session && after[p].handshake == before[p].handshake
          && (Asserted(desired, p).None? ==> after[p].endpoint == before[p].endpoint))
    && (p in after ==> p in before || p in Wanted(desired))
    && (ok ==> (p in after <==> p in Wanted(desired)))
    && (ok && p in after ==>
          after[p].endpoint == (if Asserted(desired, p).Some? then Asserted(desired, p)
                                else if p in before then before[p].endpoint else None))
  }

  lemma DiffPeerSound(cfg: seq<PeerConfig>, desired: seq<PeerDesire>, before: Kernel, first: nat, m: nat, p: WgKey)
    requires m <= |cfg| && Diff(cfg, desired, before)
    ensures PeerSound(desired, before, ConfiguredAll(before, cfg[..m], first), m == |cfg|, p)
  {
    assert m == |cfg| ==> cfg[..m] == cfg;
    ConfiguredPeer(before, cfg[..m], first, Wanted(desired), p);
    if Asserted(desired, p).None? { EndpointByPrefix(cfg, m, p); }
  }

  // ----- The device -----

  datatype Roam = Roam(endpoint: Option<Udp>, handshake: Option<int>)

  /** What happens around one device call. */
  datatype Weather = Weather(
    elapsed: nat,              // nanoseconds that pass first
    roamed: WgKey -> Roam,     // where each configured peer now is
    gone: bool,                // the interface has been deleted
    stoppedAt: Option<nat>)    // ConfigureDevice fails after this many entries

  /** One device call, or one sleep: the kernel it met, what it said or did, and when it was over. */
  datatype Event =
    | Applied(desired: seq<PeerDesire>, before: Kernel, after: Kernel, ok: bool, at: int)
    | Polled(pub: WgKey, seen: Option<int>, kernel: Kernel, at: int)
    | Observed(pub: WgKey, endpoint: Option<Udp>, kernel: Kernel, at: int)
    | Slept(d: nat, kernel: Kernel, at: int)

  function KernelBefore(e: Event): Kernel {
    if e.Applied? then e.before else e.kernel
  }

  function KernelAfter(e: Event): Kernel {
    if e.Applied? then e.after else e.kernel
  }

  ghost predicate EventSound(e: Event) {
    e.Applied? ==> ApplySound(e.desired, e.before, e.after, e.ok)
  }

  function Roamed(peers: Kernel, roam: WgKey -> Roam): Kernel {
    map k | k in peers :: peers[k].(endpoint := roam(k).endpoint, handshake := roam(k).handshake)
  }

  // ----- What the kernel answers -----

  function Updates(desired: seq<PeerDesire>): nat {
    if desired == [] then 0
    else Updates(desired[..|desired| - 1]) + if desired[|desired| - 1].allowedIPs != [] then 1 else 0
  }

  /** How many entries the diff has: one per desire that counts, one per peer to remove. */
  ghost function DiffLength(desired: seq<PeerDesire>, before: Kernel): nat {
    Updates(desired) + |before.Keys - Wanted(desired)|
  }

  /** An Apply is accepted when the interface is there and ConfigureDevice gets through the whole diff. */
  ghost predicate Accepts(w: Weather, desired: seq<PeerDesire>, before: Kernel) {
    !w.gone && (w.stoppedAt.Some? ==> w.stoppedAt.value >= DiffLength(desired, before))
  }

  /** The answer is what the kernel and the world make it. */
  ghost predicate Answered(w: Weather, e: Event) {
    match e
    case Applied(desired, before, _, ok, _) => ok == Accepts(w, desired, before)
    case Polled(pub, seen, kernel, _) => seen == if w.gone || pub !in kernel then None else kernel[pub].handshake
    case Observed(pub, endpoint, kernel, _) => endpoint == if w.gone || pub !in kernel then None else kernel[pub].endpoint
    case Slept(_, _, _) => true
  }

  /** The event follows on a kernel and a time: peers have roamed, time has passed, nothing else has changed. */
  ghost predicate Follows(w: Weather, kernel: Kernel, time: int, e: Event) {
    && KernelBefore(e) == Roamed(kernel, w.roamed)
    && e.at == time + w.elapsed + (if e.Slept? then e.d else 0)
    && Answered(w, e) && EventSound(e)
  }

  function KernelAt(log: seq<Event>, k: nat): Kernel
    requires k <= |log|
  {
    if k == 0 then map[] else KernelAfter(log[k - 1])
  }

  function TimeAt(start: int, log: seq<Event>, k: nat): int
    requires k <= |log|
  {
    if k == 0 then start else log[k - 1].at
  }

  ghost predicate FollowsAt(world: nat -> Weather, start: int, log: seq<Event>, k: nat)
    requires k < |log|
  {
    Follows(world(k), KernelAt(log, k), TimeAt(start, log, k), log[k])
  }

  /** The log is a run of the kernel: event number `k` met weather number `k` and follows on the one before. */
  ghost predicate Ran(world: nat -> Weather, start: int, log: seq<Event>) {
    forall k :: 0 <= k < |log| ==> FollowsAt(world, start, log, k)
  }

  lemma StillFollows(world: nat -> Weather, start: int, log: seq<Event>, e: Event, k: nat)
    requires k < |log| && FollowsAt(world, start, log, k)
    ensures FollowsAt(world, start, log + [e], k)
  {
    hide Follows;
    var all := log + [e];
    assert all[k] == log[k];
    if k > 0 { assert all[k - 1] == log[k - 1]; }
  }

  lemma RanSnoc(world: nat -> Weather, start: int, log: seq<Event>, e: Event)
    requires Ran(world, start, log) && Follows(world(|log|), KernelAt(log, |log|), TimeAt(start, log, |log|), e)
    ensures Ran(world, start, log + [e])
  {
    var all := log + [e];
    assert FollowsAt(world, start, all, |log|) by {
      hide Follows;
      assert |log| > 0 ==> all[|log| - 1] == log[|log| - 1];
    }
    hide FollowsAt;
    forall k | 0 <= k < |all| ensures FollowsAt(world, start, all, k) {
      if k < |log| { StillFollows(world, start, log, e, k); }
    }
  }

  class Device {
    const world: nat -> Weather
    ghost const start: int
    var step: nat
    var now: int
    var sessions: nat
    var peers: Kernel
    ghost var log: seq<Event>

    /** The log tells the whole run so far, and the kernel and the clock are where it ends. */
    ghost predicate Valid()
      reads this
    {
      && |log| == step && Ran(world, start, log)
      && peers == KernelAt(log, |log|) && now == TimeAt(start, log, |log|)
    }

    constructor (world: nat -> Weather, now: int)
      ensures Valid() && this.world == world && this.now == now && peers == map[] && log == []
    {
      this.world, this.now, this.start := world, now, now;
      step, sessions, peers, log := 0, 0, map[], [];
    }

    /** Time passes; every configured peer may roam or shake hands, none comes or goes. */
    method Elapse() returns (w: Weather)
      modifies this`step, this`now, this`peers
      ensures w == world(old(step)) && step == old(step) + 1
      ensures now == old(now) + w.elapsed && peers == Roamed(old(peers), w.roamed)
    {
      w := world(step);
      step, now, peers := step + 1, now + w.elapsed, Roamed(peers, w.roamed);
    }

    method Handshake(pub: WgKey) returns (seen: Option<int>)
      requires Valid()
      modifies this`step, this`now, this`peers, this`log
      ensures Valid() && now >= old(now) && peers.Keys == old(peers).Keys
      ensures log == old(log) + [Polled(pub, seen, peers, now)]
      ensures seen == if world(old(step)).gone || pub !in peers then None else peers[pub].handshake
    {
      hide Ran;
      var w := Elapse();
      seen := if w.gone || pub !in peers then None else peers[pub].handshake;
      RanSnoc(world, start, log, Polled(pub, seen, peers, now));
      log := log + [Polled(pub, seen, peers, now)];
    }

    method Endpoint(pub: WgKey) returns (ep: Option<Udp>)
      requires Valid()
      modifies this`step, this`now, this`peers, this`log
      ensures Valid() && now >= old(now) && peers.Keys == old(peers).Keys
      ensures log == old(log) + [Observed(pub, ep, peers, now)]
      ensures ep == if world(old(step)).gone || pub !in peers then None else peers[pub].endpoint
    {
      hide Ran;
      var w := Elapse();
      ep := if w.gone || pub !in peers then None else peers[pub].endpoint;
      RanSnoc(world, start, log, Observed(pub, ep, peers, now));
      log := log + [Observed(pub, ep, peers, now)];
    }

    method Sleep(d: nat)
      requires Valid()
      modifies this`step, this`now, this`peers, this`log
      ensures Valid() && now >= old(now) + d && peers.Keys == old(peers).Keys
      ensures log == old(log) + [Slept(d, peers, now)]
    {
      hide Ran;
      var w := Elapse();
      now := now + d;
      RanSnoc(world, start, log, Slept(d, peers, now));
      log := log + [Slept(d, peers, now)];
    }

    /** Converges the interface to the desired peers by a diff, never by replacement. */
    method Apply(desired: seq<PeerDesire>) returns (ok: bool)
      requires Valid()
      modifies this
      ensures Valid() && now >= old(now)
      ensures |log| == |old(log)| + 1 && old(log) <= log && log[|old(log)|].Applied?
      ensures log[|old(log)|] == Applied(desired, log[|old(log)|].before, peers, ok, now)
      ensures log[|old(log)|].before == Roamed(old(peers), world(old(step)).roamed) && EventSound(log[|old(log)|])
      ensures ok <==> Accepts(world(old(step)), desired, log[|old(log)|].before)
    {
      hide Ran, ApplySound, Accepts, Roamed;
      var w := Elapse();
      ghost var before := peers;
      ok := Configure(w, desired);
      ghost var e := Applied(desired, before, peers, ok, now);
      RanSnoc(world, start, log, e);
      log := log + [e];
    }

    method Configure(w: Weather, desired: seq<PeerDesire>) returns (ok: bool)
      modifies this`peers, this`sessions
      ensures ok <==> Accepts(w, desired, old(peers))
      ensures ApplySound(desired, old(peers), peers, ok)
    {
      hide ApplySound, Diff;
      if w.gone {
        UnchangedIsSound(desired, peers);
        return false;
      }
      var cfg := BuildDiff(desired);
      var m := if w.stoppedAt.Some? && w.stoppedAt.value < |cfg| then w.stoppedAt.value else |cfg|;
      ok := m == |cfg|;
      DiffIsSound(cfg, desired, peers, sessions, m);
      peers, sessions := ConfiguredAll(peers, cfg[..m], sessions), sessions + m;
    }

    method BuildDiff(desired: seq<PeerDesire>) returns (cfg: seq<PeerConfig>)
      ensures Diff(cfg, desired, peers) && |cfg| == DiffLength(desired, peers)
    {
      var updates, want := BuildUpdates(desired);
      var current := peers.Keys;
      hide Wanted, Updates;
      cfg := AddRemovals(updates, want, current - want);
    }
  }

  /** An update for every desire that counts, and the keys wanted. */
  method BuildUpdates(desired: seq<PeerDesire>) returns (cfg: seq<PeerConfig>, want: set<WgKey>)
    ensures want == Wanted(desired) && |cfg| == Updates(desired) && Respects(cfg, want)
    ensures forall p :: Mentions(cfg, p) <==> p in want
    ensures forall p :: EndpointBy(cfg, p) == Asserted(desired, p)
  {
    want, cfg := {}, [];
    for i := 0 to |desired|
      invariant want == Wanted(desired[..i]) && |cfg| == Updates(desired[..i])
      invariant forall k :: 0 <= k < |cfg| ==> cfg[k].Update? && cfg[k].pub in want
      invariant forall p :: Mentions(cfg, p) <==> p in want
      invariant forall p :: EndpointBy(cfg, p) == Asserted(desired[..i], p)
    {
      hide Wanted, Updates, EndpointBy, Asserted, Mentions;
      var d := desired[i];
      DesiredSnoc(desired[..i], d);
      assert desired[..i + 1] == desired[..i] + [d];
      if d.allowedIPs != [] {
        want := want + {d.pub};
        CfgSnoc(cfg, Update(d.pub, d.endpoint));
        cfg := cfg + [Update(d.pub, d.endpoint)];
      }
    }
    assert desired[..|desired|] == desired;
  }

  /** A removal for every stale peer, in any order. */
  method AddRemovals(updates: seq<PeerConfig>, want: set<WgKey>, stale: set<WgKey>) returns (cfg: seq<PeerConfig>)
    requires Respects(updates, want) && stale !! want
    ensures |cfg| == |updates| + |stale| && Respects(cfg, want)
    ensures forall p :: Mentions(cfg, p) <==> Mentions(updates, p) || p in stale
    ensures forall p :: EndpointBy(cfg, p) == EndpointBy(updates, p)
  {
    cfg := updates;
    var left := stale;
    while left != {}
      invariant left <= stale && |cfg| + |left| == |updates| + |stale|
      invariant Respects(cfg, want)
      invariant forall p :: Mentions(cfg, p) <==> Mentions(updates, p) || p in stale - left
      invariant forall p :: EndpointBy(cfg, p) == EndpointBy(updates, p)
      decreases left
    {
      hide EndpointBy, Mentions;
      var pub :| pub in left;
      CfgSnoc(cfg, Remove(pub));
      cfg := cfg + [Remove(pub)];
      left := left - {pub};
    }
  }

  lemma UnchangedIsSound(desired: seq<PeerDesire>, peers: Kernel)
    ensures ApplySound(desired, peers, peers, false)
  {
  }

  lemma DesiredSnoc(desired: seq<PeerDesire>, d: PeerDesire)
    ensures Wanted(desired + [d]) == Wanted(desired) + if d.allowedIPs != [] then {d.pub} else {}
    ensures Updates(desired + [d]) == Updates(desired) + if d.allowedIPs != [] then 1 else 0
    ensures forall p :: Asserted(desired + [d], p) ==
                        if d.pub == p && d.allowedIPs != [] && d.endpoint.Some? then d.endpoint else Asserted(desired, p)
  {
    assert (desired + [d])[..|desired|] == desired;
  }

  lemma CfgSnoc(cfg: seq<PeerConfig>, c: PeerConfig)
    ensures forall p :: Mentions(cfg + [c], p) <==> Mentions(cfg, p) || c.pub == p
    ensures forall p :: EndpointBy(cfg + [c], p) ==
                        if c.Update? && c.pub == p && c.endpoint.Some? then c.endpoint else EndpointBy(cfg, p)
  {
    assert (cfg + [c])[..|cfg|] == cfg;
    forall p ensures Mentions(cfg + [c], p) <==> Mentions(cfg, p) || c.pub == p {
      MentionsSnoc(cfg, c, p);
    }
  }
}
