/** The spokes' source-NAT rules as syncNat reconciles them (internal/mesh/daemon.go:384-405). */
module SpokeNat {
  import opened Wrappers
  import opened Routers

  /** The router's tracking keys for a set of addresses. */
  ghost function Sources(src: map<string, string>): set<string> {
    set n | n in src :: src[n] + "/32"
  }

  /** No two spokes share an overlay address. */
  ghost predicate DistinctIPs(m: map<string, string>) {
    forall a, b :: a in m && b in m && m[a] == m[b] ==> a == b
  }

  /** Two maps give the names they share the same addresses. */
  ghost predicate Agree(a: map<string, string>, b: map<string, string>) {
    forall n :: n in a && n in b ==> a[n] == b[n]
  }

  /** Since command number `from` the world made a command to mask `ip` fail. */
  ghost predicate Refused(iface: string, fails: nat -> bool, log: seq<Command>, from: nat, ip: string) {
    exists k :: from <= k < |log| && log[k] == Command(AddSpoke, SpokeMasq(ip + "/32", iface), false) && fails(k)
  }

  lemma RefusedLater(router: LinuxRouter, log: seq<Command>, from: nat, ip: string)
    requires Refused(router.iface, router.fails, log, from, ip) && log <= router.log
    ensures Refused(router.iface, router.fails, router.log, from, ip)
  {
    var k :| from <= k < |log| && log[k] == Command(AddSpoke, SpokeMasq(ip + "/32", router.iface), false) && router.fails(k);
    assert router.log[k] == log[k];
  }

  lemma RefusedNow(router: LinuxRouter, log: seq<Command>, from: nat, ip: string)
    requires from <= |log| && router.log == log + [Command(AddSpoke, SpokeMasq(ip + "/32", router.iface), false)] && router.fails(|log|)
    ensures Refused(router.iface, router.fails, router.log, from, ip)
  {
    assert router.log[|log|] == Command(AddSpoke, SpokeMasq(ip + "/32", router.iface), false);
  }

  lemma NoSources()
    ensures Sources(map[]) == {}
  {
  }

  lemma SameSource(a: string, b: string)
    requires a + "/32" == b + "/32"
    ensures a == b
  {
    assert a == (a + "/32")[..|a + "/32"| - 3];
    assert b == (b + "/32")[..|b + "/32"| - 3];
  }

  /** The second layer of tracking: which spokes were handed to the router. */
  class SpokeTracker {
    const router: LinuxRouter
    var spokeSrc: map<string, string>

    constructor (router: LinuxRouter)
      ensures this.router == router && spokeSrc == map[]
    {
      this.router, spokeSrc := router, map[];
    }

    /** Forgets departed spokes whether or not the router could drop their rule. */
    method RemoveDeparted(want: map<string, string>) returns (ghost dropped: set<string>, ghost clean: bool)
      requires router.Valid()
      modifies this, router`added, router`postrouting, router`log
      ensures router.Valid() && old(router.log) <= router.log
      ensures spokeSrc == old(spokeSrc) - (old(spokeSrc).Keys - want.Keys)
      ensures router.added == old(router.added) - dropped
      ensures dropped <= Sources(old(spokeSrc) - want.Keys)
      ensures clean ==> dropped == Sources(old(spokeSrc) - want.Keys)
      ensures RemovalsHeld(router.fails, router.log, |old(router.log)|) ==> clean
    {
      hide LinuxRouter.Valid, LinuxRouter.NoneFailed, RemovalsHeld, Removing, Sources;
      ghost var base, added0, gone := |router.log|, router.added, map[];
      var left := spokeSrc.Keys - want.Keys;
      dropped, clean := {}, true;
      RemovingStarts(spokeSrc, want, router.added);
      while left != {}
        invariant router.Valid() && old(router.log) <= router.log
        invariant Removing(old(spokeSrc), want, spokeSrc, gone, left, added0, router.added, dropped, clean)
        invariant RemovalsHeld(router.fails, router.log, base) ==> clean
        decreases left
      {
        var n :| n in left;
        ghost var log, src, added := router.log, spokeSrc, router.added;
        ghost var ip := RemovingNext(old(spokeSrc), want, src, gone, left, added0, added, dropped, clean, n);
        var ok := RemoveOne(n);
        NotAccepted(router, log, base, ok);
        RemovingStep(old(spokeSrc), want, src, gone, left, added0, added, dropped, clean, n, ok);
        if ok { dropped := dropped + {ip + "/32"}; } else { clean := false; }
        gone := gone[n := ip];
        left := left - {n};
      }
      RemovingEnds(old(spokeSrc), want, spokeSrc, gone, added0, router.added, dropped, clean);
    }

    method RemoveOne(n: string) returns (ok: bool)
      requires router.Valid() && n in spokeSrc
      modifies this, router`added, router`postrouting, router`log
      ensures router.Valid() && old(router.log) <= router.log
      ensures spokeSrc == old(spokeSrc) - {n}
      ensures router.added == if ok then old(router.added) - {old(spokeSrc)[n] + "/32"} else old(router.added)
      ensures !ok ==> |router.log| == |old(router.log)| + 1 && !RemovalsHeld(router.fails, router.log, |old(router.log)|)
    {
      hide LinuxRouter.Valid;
      ok := router.RemoveSource(Some(spokeSrc[n]));
      spokeSrc := spokeSrc - {n};
    }

    /**
      Hands every new spoke to the router. One that is not tracked afterwards
      had its own command fail, and is tried again next time.
     */
    method AddArrived(want: map<string, string>) returns (ghost arrived: map<string, string>)
      requires router.Valid()
      modifies this, router`added, router`postrouting, router`log
      ensures router.Valid() && old(router.log) <= router.log
      ensures arrived.Keys <= want.Keys - old(spokeSrc).Keys && Agree(arrived, want)
      ensures spokeSrc == old(spokeSrc) + arrived
      ensures router.added == old(router.added) + Sources(arrived)
      ensures forall n :: n in want && n !in old(spokeSrc) && n !in arrived ==> Refused(router.iface, router.fails, router.log, |old(router.log)|, want[n])
    {
      hide LinuxRouter.Valid, Refused, Sources;
      var left := want.Keys - spokeSrc.Keys;
      ghost var all := left;
      arrived := map[];
      NoSources();
      while left != {}
        invariant router.Valid() && old(router.log) <= router.log
        invariant left <= all && arrived.Keys <= all - left && Agree(arrived, want)
        invariant spokeSrc == old(spokeSrc) + arrived
        invariant router.added == old(router.added) + Sources(arrived)
        invariant forall n :: n in all - left && n !in arrived ==> Refused(router.iface, router.fails, router.log, |old(router.log)|, want[n])
        decreases left
      {
        var n :| n in left;
        var ok := AddOne(n, want, arrived, old(spokeSrc), all - left, |old(router.log)|);
        if ok {
          SourcesMore(arrived, n, want[n]);
          arrived := arrived[n := want[n]];
        }
        left := left - {n};
      }
    }

    method AddOne(n: string, want: map<string, string>, ghost arrived: map<string, string>, ghost was: map<string, string>,
                  ghost done: set<string>, ghost from: nat) returns (ok: bool)
      requires router.Valid() && n in want && from <= |router.log| && done <= want.Keys
      requires spokeSrc == was + arrived
      requires forall m :: m in done && m !in arrived ==> Refused(router.iface, router.fails, router.log, from, want[m])
      modifies this, router`added, router`postrouting, router`log
      ensures router.Valid() && old(router.log) <= router.log
      ensures spokeSrc == if ok then was + arrived[n := want[n]] else old(spokeSrc)
      ensures router.added == if ok then old(router.added) + {want[n] + "/32"} else old(router.added)
      ensures forall m :: m in done && m !in arrived ==> Refused(router.iface, router.fails, router.log, from, want[m])
      ensures !ok ==> Refused(router.iface, router.fails, router.log, from, want[n])
    {
      hide LinuxRouter.Valid, Refused;
      ghost var log := router.log;
      ok := router.AddSource(Some(want[n]));
      forall m | m in done && m !in arrived ensures Refused(router.iface, router.fails, router.log, from, want[m]) {
        RefusedLater(router, log, from, want[m]);
      }
      if ok {
        assert was + arrived[n := want[n]] == (was + arrived)[n := want[n]];
        spokeSrc := spokeSrc[n := want[n]];
      } else {
        assert Refused(router.iface, router.fails, router.log, from, want[n]) by { RefusedNow(router, log, from, want[n]); }
      }
    }

    /** Whether every tracked spoke really has its rule, and nothing else has one. */
    ghost predicate InStep()
      reads this, router
    {
      Sources(spokeSrc) == router.added
    }

    /**
      Brings the router's sources in line with the wanted spokes. With
      pairwise distinct addresses and every removal accepted, the router masks
      exactly the tracked spokes; if nothing failed, those are the wanted ones.
     */
    method Sync(want: map<string, string>)
      requires router.Valid() && Agree(spokeSrc, want)
      modifies this, router`added, router`postrouting, router`log
      ensures router.Valid() && old(router.log) <= router.log
      ensures spokeSrc.Keys <= want.Keys && Agree(spokeSrc, want)
      ensures DistinctIPs(old(spokeSrc) + want) && old(Sources(spokeSrc) <= router.added) ==> Sources(spokeSrc) <= router.added
      ensures DistinctIPs(old(spokeSrc) + want) && old(InStep()) && RemovalsHeld(router.fails, router.log, |old(router.log)|) ==> InStep()
      ensures forall n :: n in want && n !in spokeSrc ==> Refused(router.iface, router.fails, router.log, |old(router.log)|, want[n])
      ensures router.NoneFailed(|old(router.log)|, |router.log|) ==> spokeSrc == want
      ensures router.NoneFailed(|old(router.log)|, |router.log|) ==>
                router.added == old(router.added) - Sources(old(spokeSrc) - want.Keys) + Sources(want - old(spokeSrc).Keys)
    {
      hide LinuxRouter.Valid;
      ghost var was, added0 := spokeSrc, router.added;
      ghost var dropped, clean := RemoveDeparted(want);
      ghost var mid := |router.log|;
      ghost var kept := spokeSrc;
      ghost var arrived := AddArrived(want);
      SyncAgree(was, want, kept, arrived);
      if DistinctIPs(was + want) { KeptSourcesSurvive(was, want, dropped); }
      SourcesUnion(kept, arrived);
    }
  }

  /** A run of removals is accepted only if its start was and its last step was. */
  lemma NotAccepted(router: LinuxRouter, log: seq<Command>, from: nat, ok: bool)
    requires from <= |log| && log <= router.log
    requires !ok ==> |router.log| == |log| + 1 && !RemovalsHeld(router.fails, router.log, |log|)
    ensures RemovalsHeld(router.fails, router.log, from) ==> ok && RemovalsHeld(router.fails, log, from)
  {
    assert forall i :: 0 <= i < |log| ==> router.log[i] == log[i];
  }

  /** Half way through: `gone` are forgotten, `left` are still to go, and `dropped` is what the router no longer masks. */
  ghost predicate Removing(was: map<string, string>, want: map<string, string>, src: map<string, string>, gone: map<string, string>,
                           left: set<string>, added0: set<string>, added: set<string>, dropped: set<string>, clean: bool) {
    && left + gone.Keys == was.Keys - want.Keys && left !! gone.Keys
    && src == was - gone.Keys && (forall n :: n in gone ==> gone[n] == was[n])
    && added == added0 - dropped && dropped <= Sources(gone) && (clean ==> dropped == Sources(gone))
  }

  lemma RemovingStarts(was: map<string, string>, want: map<string, string>, added: set<string>)
    ensures Removing(was, want, was, map[], was.Keys - want.Keys, added, added, {}, true)
  {
    var none: map<string, string> := map[];
    assert was - none.Keys == was;
  }

  lemma RemovingNext(was: map<string, string>, want: map<string, string>, src: map<string, string>, gone: map<string, string>,
                     left: set<string>, added0: set<string>, added: set<string>, dropped: set<string>, clean: bool, n: string)
    returns (ip: string)
    requires Removing(was, want, src, gone, left, added0, added, dropped, clean) && n in left
    ensures n in src && src[n] == was[n] == ip
  {
    ip := was[n];
  }

  lemma RemovingStep(was: map<string, string>, want: map<string, string>, src: map<string, string>, gone: map<string, string>,
                     left: set<string>, added0: set<string>, added: set<string>, dropped: set<string>, clean: bool, n: string, ok: bool)
    requires Removing(was, want, src, gone, left, added0, added, dropped, clean) && n in left && n in was
    ensures var ip := was[n] + "/32";
            Removing(was, want, src - {n}, gone[n := was[n]], left - {n}, added0, if ok then added - {ip} else added,
                     if ok then dropped + {ip} else dropped, clean && ok)
  {
    SourcesMore(gone, n, was[n]);
    hide Sources;
  }

  lemma RemovingEnds(was: map<string, string>, want: map<string, string>, src: map<string, string>, gone: map<string, string>,
                     added0: set<string>, added: set<string>, dropped: set<string>, clean: bool)
    requires Removing(was, want, src, gone, {}, added0, added, dropped, clean)
    ensures src == was - (was.Keys - want.Keys) && added == added0 - dropped
    ensures dropped <= Sources(was - want.Keys) && (clean ==> dropped == Sources(was - want.Keys))
  {
    assert gone == was - want.Keys;
  }

  lemma SourcesMore(arrived: map<string, string>, n: string, ip: string)
    requires n !in arrived
    ensures Sources(arrived[n := ip]) == Sources(arrived) + {ip + "/32"}
  {
    var more := arrived[n := ip];
    assert more == arrived + map[n := ip];
    SourcesUnion(arrived, map[n := ip]);
  }

  lemma SourcesUnion(a: map<string, string>, b: map<string, string>)
    requires a.Keys !! b.Keys
    ensures Sources(a + b) == Sources(a) + Sources(b)
  {
    forall n | n in a ensures (a + b)[n] == a[n] { }
  }

  lemma SyncAgree(was: map<string, string>, want: map<string, string>, kept: map<string, string>, arrived: map<string, string>)
    requires Agree(was, want) && kept == was - (was.Keys - want.Keys)
    requires Agree(arrived, want) && arrived.Keys <= want.Keys - kept.Keys
    ensures Agree(kept + arrived, want) && (kept + arrived).Keys <= want.Keys
    ensures arrived.Keys == want.Keys - kept.Keys ==> kept + arrived == want && arrived == want - was.Keys
  {
  }

  /** With distinct addresses, dropping the departed never drops a spoke that stays. */
  lemma KeptSourcesSurvive(was: map<string, string>, want: map<string, string>, dropped: set<string>)
    requires DistinctIPs(was + want) && Agree(was, want) && dropped <= Sources(was - want.Keys)
    ensures var kept := was - (was.Keys - want.Keys);
            && Sources(kept) !! dropped
            && Sources(was) == Sources(kept) + Sources(was - want.Keys)
  {
    var kept, gone := was - (was.Keys - want.Keys), was - want.Keys;
    forall a, b | a in kept && b in gone ensures kept[a] + "/32" != gone[b] + "/32" {
      assert (was + want)[a] == kept[a] && (was + want)[b] == gone[b];
      if kept[a] + "/32" == gone[b] + "/32" { SameSource(kept[a], gone[b]); }
    }
    assert kept + gone == was;
    SourcesUnion(kept, gone);
  }

  /**
    When addresses do collide, a failure-free sync that started in step stays
    in step exactly when no spoke that stays shares its address with one that
    departs, unless an arriving spoke brings that address back.
   */
  lemma CollisionLosesRule(was: map<string, string>, want: map<string, string>)
    requires Agree(was, want)
    ensures var after := Sources(was) - Sources(was - want.Keys) + Sources(want - was.Keys);
            Sources(want) == after <==>
            forall k, g :: k in was && k in want && g in was && g !in want && was[k] == was[g] ==>
              exists n :: n in want && n !in was && want[n] == was[k]
  {
    var kept, gone, come := was - (was.Keys - want.Keys), was - want.Keys, want - was.Keys;
    assert kept + gone == was && kept + come == want;
    SourcesUnion(kept, gone);
    SourcesUnion(kept, come);
    var after := Sources(was) - Sources(gone) + Sources(come);
    if Sources(want) == after {
      forall k, g | k in was && k in want && g in was && g !in want && was[k] == was[g]
        ensures exists n :: n in want && n !in was && want[n] == was[k]
      {
        assert kept[k] + "/32" in Sources(kept) && gone[g] + "/32" in Sources(gone);
        var n :| n in come && come[n] + "/32" == was[k] + "/32";
        SameSource(come[n], was[k]);
      }
    } else {
      var s :| s in Sources(kept) && s in Sources(gone) && s !in Sources(come);
      var k :| k in kept && s == kept[k] + "/32";
      var g :| g in gone && s == gone[g] + "/32";
      SameSource(kept[k], gone[g]);
      assert forall n :: n in want && n !in was ==> n in come && come[n] + "/32" in Sources(come);
    }
  }
}
