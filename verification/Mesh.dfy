/** The two halves of a Tick together (internal/mesh/daemon.go): what it reads from the mesh and what it leaves in the kernel. */
module Mesh {
  import opened Wrappers
  import opened ReliableStores
  import opened Records
  import opened Rosters
  import opened Peers
  import opened Devices
  import opened Plans
  import opened Daemons
  import RosterProtocol
  import Names

  /** The node's latest post was current at a read that succeeded. */
  ghost predicate SeenCurrent(ws: seq<RosterProtocol.World>, ttl: int, me: string, calls: seq<Call<Sealed>>, n: string) {
    exists k :: 0 <= k < |calls| && RosterProtocol.CurrentAt(ws, ttl, me, calls, k, n)
  }

  /** The same at a read that missed nothing. */
  ghost predicate SurelySeen(ws: seq<RosterProtocol.World>, ttl: int, me: string, calls: seq<Call<Sealed>>, world: nat -> ReliableStores.Weather<Sealed>, first: nat, n: string) {
    exists k :: 0 <= k < |calls| && RosterProtocol.Complete(world, first, k) && RosterProtocol.CurrentAt(ws, ttl, me, calls, k, n)
  }

  /**
    Every peer is a spoke or a node whose latest post was current at one of the
    reads; every spoke with a key, and every node that was current at a read
    which missed nothing, is a peer.
   */
  ghost predicate PeersOfMesh(d: Deriver, ws: seq<RosterProtocol.World>, ttl: int, me: string, calls: seq<Call<Sealed>>,
                              world: nat -> ReliableStores.Weather<Sealed>, first: nat, spokes: set<string>, peers: set<WgKey>)
    requires |ws| == |calls| + 1
  {
    && (forall pub :: pub in peers ==>
          exists n :: n in ws[|calls|].last.Keys + spokes && PubOf(d, n) == pub && (n in spokes || SeenCurrent(ws, ttl, me, calls, n)))
    && (forall n :: n in spokes && Plannable(d, n) ==> PubOf(d, n) in peers)
    && (forall n :: SurelySeen(ws, ttl, me, calls, world, first, n) ==> PubOf(d, n) in peers)
  }

  /** A node that has posted has a genuine record, so a Tick can plan for it. */
  lemma PostedIsPlannable(d: Deriver, w: RosterProtocol.World, n: string)
    requires RosterProtocol.Inv(d, w) && n in w.last
    ensures Plannable(d, n)
  {
    assert RosterProtocol.PostOk(d, w, n);
    GenuineIsBound(d, w.last[n].value, w.last[n].rec);
  }

  /** The keys that a view and some spokes put into the kernel, in terms of the mesh. */
  lemma PlannedFromMesh(d: Deriver, ws: seq<RosterProtocol.World>, ttl: int, me: string, calls: seq<Call<Sealed>>, world: nat -> ReliableStores.Weather<Sealed>,
                        first: nat, view: View, spokes: set<string>, n: string)
    requires RosterProtocol.StableSound(ws, ttl, me, calls, world, first, view) && RosterProtocol.Inv(d, ws[|calls|])
    ensures n in Planned(d, view, spokes) ==> n in ws[|calls|].last.Keys + spokes && (n in spokes || SeenCurrent(ws, ttl, me, calls, n))
    ensures (n in spokes && Plannable(d, n)) || SurelySeen(ws, ttl, me, calls, world, first, n) ==> n in Planned(d, view, spokes)
  {
    hide RosterProtocol.Inv, RosterProtocol.CurrentAt, RosterProtocol.Complete, PubOf, Plannable;
    assert RosterProtocol.StableSoundFor(ws, ttl, me, calls, world, first, view, n);
    if SurelySeen(ws, ttl, me, calls, world, first, n) {
      PostedIsPlannable(d, ws[|calls|], n);
    }
  }

  /**
    A Tick of a daemon in a mesh, while others go on posting between the reads
    of its fetch. It succeeds exactly when its reads give a roster and the
    kernel accepts its first Apply. Then, whatever the mesh did meanwhile, the
    WireGuard peers are the spokes and nodes that `PeersOfMesh` says.
   */
  method MeshTick(dm: Daemon, ro: Roster, attempts: int, patience: Patience, mine: seq<Candidate>, readable: bool, writable: bool,
                  ghost w: RosterProtocol.World)
    returns (ghost calls: seq<Call<Sealed>>, ghost k: Ticked)
    requires dm.Valid() && ro.d == dm.d && ro.store.raw.Valid() && RosterProtocol.Reachable(ro.d, w)
    requires ro.store.raw.mock.history == w.history && ro.store.raw.now == w.now
    modifies ro.store.raw`step, ro.store.raw`now, ro.store.raw`calls, ro.store.raw`idle, ro.store.raw.mock
    modifies dm, dm.dev, dm.tracker, dm.tracker.router, dm.file
    ensures dm.Valid() && ro.store.raw.Valid() && ro.store.raw.calls == old(ro.store.raw.calls) + calls
    ensures ReadsUntilDone(patience, attempts, |calls|) && AllReads(calls) && (k.input.roster.ReadError? ==> ReadFailed(calls))
    ensures AllShown(w.history, Pauses(patience, Tries(attempts)), w.now, ro.store.raw.mock.ttl, ro.store.raw.world, old(ro.store.raw.step), calls)
    ensures k.from == old(StageOf(dm)) && k.text == k.from.text && k.to == StageOf(dm) && TickedSound(dm, k) && k.t.spokes == old(Loaded(dm, readable))
    ensures k.ok ==> forall ws :: RosterProtocol.MeshRan(dm.d, w, ws, Pauses(patience, Tries(attempts)), calls) ==>
                       PeersOfMesh(dm.d, ws, ro.store.raw.mock.ttl, ro.me, calls, ro.store.raw.world, old(ro.store.raw.step), k.t.spokes, dm.dev.peers.Keys)
  {
    hide Daemon.Valid, RawStore.Valid, RosterProtocol.Reachable, RosterProtocol.StableSound, JudgedAs, SpokeIPs, TickedSound, ReadFailed, AllReads,
         AllShown, PeersOfMesh, RosterProtocol.MomentOf, PubOf, Plannable, Planned, RosterProtocol.Inv, PubsOf;
    ghost var raw, first, others := ro.store.raw, ro.store.raw.step, Pauses(patience, Tries(attempts));
    var roster;
    roster, calls := RosterProtocol.FetchStableInWorld(ro, attempts, patience, w);
    k := TickOnce(dm, TickInput(roster, mine, readable, writable));
    if k.ok {
      HandledKeys(dm, k);
      forall ws | RosterProtocol.MeshRan(dm.d, w, ws, others, calls)
        ensures PeersOfMesh(dm.d, ws, raw.mock.ttl, ro.me, calls, raw.world, first, k.t.spokes, dm.dev.peers.Keys)
      {
        RosterProtocol.ReachableInv(ro.d, ws[|calls|]);
        MeshPeers(dm.d, ws, raw.mock.ttl, ro.me, calls, raw.world, first, roster.view, k.t.spokes, dm.dev.peers.Keys);
      }
    }
  }

  lemma HandledKeys(dm: Daemon, k: Ticked)
    requires TickedSound(dm, k) && k.ok
    ensures k.input.roster.Fetched?
    ensures PubsOf(k.t.plans) == set n | n in Planned(dm.d, k.input.roster.view, k.t.spokes) :: PubOf(dm.d, n)
  {
    PlannedKeys(k.c, k.t.spokes, |k.from.log|, k.to.log, k.t.plans);
  }

  lemma MeshPeers(d: Deriver, ws: seq<RosterProtocol.World>, ttl: int, me: string, calls: seq<Call<Sealed>>, world: nat -> ReliableStores.Weather<Sealed>,
                  first: nat, view: View, spokes: set<string>, peers: set<WgKey>)
    requires RosterProtocol.StableSound(ws, ttl, me, calls, world, first, view) && RosterProtocol.Inv(d, ws[|calls|])
    requires peers == set n | n in Planned(d, view, spokes) :: PubOf(d, n)
    ensures PeersOfMesh(d, ws, ttl, me, calls, world, first, spokes, peers)
  {
    hide RosterProtocol.Inv, RosterProtocol.StableSoundFor, SeenCurrent, SurelySeen, PubOf, Plannable, Planned;
    forall n
      ensures n in Planned(d, view, spokes) ==> n in ws[|calls|].last.Keys + spokes && (n in spokes || SeenCurrent(ws, ttl, me, calls, n))
      ensures (n in spokes && Plannable(d, n)) || SurelySeen(ws, ttl, me, calls, world, first, n) ==> n in Planned(d, view, spokes)
    {
      PlannedFromMesh(d, ws, ttl, me, calls, world, first, view, spokes, n);
    }
  }
}
