/**
  The firewall reconciler (internal/mesh/router.go): in-memory tracking kept in
  step with the kernel's NAT POSTROUTING and filter INPUT lists.
 */
module Routers {
  import opened Wrappers

  datatype Rule =
    | SpokeMasq(src: string, iface: string)
    | AnnounceMasq(src: string, dst: string)
    | PortAccept(port: int)
    | OtherRule(text: string)

  /** Which code path ran an iptables command; only some forget a rule they fail to delete. */
  datatype Purpose = AddSpoke | DropSpoke | AddAnnounce | DropAnnounce | OnClose | OpenPort(v6: bool) | ClosePort(v6: bool)

  /** The list a command works on: NAT POSTROUTING, or filter INPUT of one address family. */
  datatype Chain = Nat | Input(v6: bool)

  datatype Command = Command(purpose: Purpose, rule: Rule, ok: bool)

  datatype Subnet = Subnet(text: string, isV4: bool)

  // ----- Rule lists -----

  /** `iptables -D`: deletes the first rule that matches. */
  function RemoveFirst(rules: seq<Rule>, r: Rule): seq<Rule> {
    if rules == [] then []
    else if rules[0] == r then rules[1..]
    else [rules[0]] + RemoveFirst(rules[1..], r)
  }

  lemma {:induction false} RemoveFirstOwn(own: seq<Rule>, rest: seq<Rule>, r: Rule)
    requires r in own
    ensures RemoveFirst(own + rest, r) == RemoveFirst(own, r) + rest
    ensures multiset(RemoveFirst(own, r)) == multiset(own) - multiset{r}
  {
    assert (own + rest)[1..] == own[1..] + rest;
    assert multiset(own) == multiset{own[0]} + multiset(own[1..]) by { assert own == [own[0]] + own[1..]; }
    if own[0] != r {
      RemoveFirstOwn(own[1..], rest, r);
      assert multiset(RemoveFirst(own, r)) == multiset{own[0]} + multiset(RemoveFirst(own[1..], r));
    }
  }

  /** Rules a delete failed to remove although their tracking was dropped. */
  function Leaks(log: seq<Command>): multiset<Rule> {
    if log == [] then multiset{}
    else
      var c := log[|log| - 1];
      var before := Leaks(log[..|log| - 1]);
      if (c.purpose.DropAnnounce? || c.purpose.OnClose?) && !c.ok then before + multiset{c.rule} else before
  }

  lemma LeaksSnoc(log: seq<Command>, c: Command)
    ensures Leaks(log + [c]) ==
            if (c.purpose.DropAnnounce? || c.purpose.OnClose?) && !c.ok then Leaks(log) + multiset{c.rule} else Leaks(log)
  {
    assert (log + [c])[..|log|] == log;
  }

  /** No announcement or closing delete failed. */
  predicate DeletesSucceeded(log: seq<Command>) {
    forall c :: c in log && (c.purpose.DropAnnounce? || c.purpose.OnClose?) ==> c.ok
  }

  /** From command number `from` on, no removal of a spoke's rule was made to fail. */
  ghost predicate RemovalsHeld(fails: nat -> bool, log: seq<Command>, from: nat) {
    forall i :: from <= i < |log| && log[i].purpose.DropSpoke? ==> !fails(i)
  }

  /** No closing delete from command number `from` on failed. */
  ghost predicate ClosedCleanly(log: seq<Command>, from: nat) {
    forall i :: from <= i < |log| && (log[i].purpose.DropAnnounce? || log[i].purpose.OnClose?) ==> log[i].ok
  }

  /** Command number `k` failed exactly when the world made it fail. */
  ghost predicate Answered(log: seq<Command>, fails: nat -> bool) {
    forall k :: 0 <= k < |log| ==> log[k].ok == !fails(k)
  }

  function ChainOf(p: Purpose): Chain {
    match p
    case OpenPort(v6) => Input(v6)
    case ClosePort(v6) => Input(v6)
    case _ => Nat
  }

  predicate Inserts(p: Purpose) {
    p.AddSpoke? || p.AddAnnounce? || p.OpenPort?
  }

  /** What a list has become after the commands: accepted inserts go on top, accepted deletes take the first match. */
  function Replay(chain: Chain, initial: seq<Rule>, log: seq<Command>): seq<Rule> {
    if log == [] then initial
    else
      var c, rules := log[|log| - 1], Replay(chain, initial, log[..|log| - 1]);
      if !c.ok || ChainOf(c.purpose) != chain then rules
      else if Inserts(c.purpose) then [c.rule] + rules
      else RemoveFirst(rules, c.rule)
  }

  lemma ReplaySnoc(chain: Chain, initial: seq<Rule>, log: seq<Command>, c: Command)
    ensures var rules := Replay(chain, initial, log);
            Replay(chain, initial, log + [c]) ==
            if !c.ok || ChainOf(c.purpose) != chain then rules
            else if Inserts(c.purpose) then [c.rule] + rules
            else RemoveFirst(rules, c.rule)
  {
    assert (log + [c])[..|log|] == log;
  }

  /** The spoke sources the accepted commands leave to be tracked; closing gives one up whatever came of its delete. */
  function SourcesOf(log: seq<Command>): set<string> {
    if log == [] then {}
    else
      var c, before := log[|log| - 1], SourcesOf(log[..|log| - 1]);
      if !c.rule.SpokeMasq? then before
      else if c.purpose.AddSpoke? && c.ok then before + {c.rule.src}
      else if c.purpose.OnClose? || (c.purpose.DropSpoke? && c.ok) then before - {c.rule.src}
      else before
  }

  /** The announcements the commands leave to be tracked: an accepted insert starts it, a delete ends it whatever came of it. */
  function AnnouncedOf(log: seq<Command>): map<string, string> {
    if log == [] then map[]
    else
      var c, before := log[|log| - 1], AnnouncedOf(log[..|log| - 1]);
      if !c.rule.AnnounceMasq? then before
      else if c.purpose.AddAnnounce? && c.ok then before[AnnounceKey(c.rule.src, c.rule.dst) := c.rule.dst]
      else if c.purpose.DropAnnounce? then before - {AnnounceKey(c.rule.src, c.rule.dst)}
      else before
  }

  lemma TrackingSnoc(log: seq<Command>, c: Command)
    ensures SourcesOf(log + [c]) ==
            if !c.rule.SpokeMasq? then SourcesOf(log)
            else if c.purpose.AddSpoke? && c.ok then SourcesOf(log) + {c.rule.src}
            else if c.purpose.OnClose? || (c.purpose.DropSpoke? && c.ok) then SourcesOf(log) - {c.rule.src}
            else SourcesOf(log)
    ensures AnnouncedOf(log + [c]) ==
            if !c.rule.AnnounceMasq? then AnnouncedOf(log)
            else if c.purpose.AddAnnounce? && c.ok then AnnouncedOf(log)[AnnounceKey(c.rule.src, c.rule.dst) := c.rule.dst]
            else if c.purpose.DropAnnounce? then AnnouncedOf(log) - {AnnounceKey(c.rule.src, c.rule.dst)}
            else AnnouncedOf(log)
  {
    assert (log + [c])[..|log|] == log;
  }

  /** From `before` to `after` exactly one command was issued for each of the rules. */
  ghost predicate Issued(before: seq<Command>, after: seq<Command>, purpose: Purpose, rules: map<string, Rule>) {
    && before <= after && |after| == |before| + |rules|
    && forall key :: key in rules ==> exists k :: |before| <= k < |after| && after[k].purpose == purpose && after[k].rule == rules[key]
  }

  lemma NoneIssued(log: seq<Command>, purpose: Purpose)
    ensures Issued(log, log, purpose, map[])
  {
  }

  lemma IssuedSnoc(before: seq<Command>, after: seq<Command>, rules: map<string, Rule>, key: string, c: Command)
    requires Issued(before, after, c.purpose, rules) && key !in rules
    ensures Issued(before, after + [c], c.purpose, rules[key := c.rule])
  {
    var after' := after + [c];
    assert after'[|after|] == c;
    forall q | q in rules ensures exists k :: |before| <= k < |after'| && after'[k].purpose == c.purpose && after'[k].rule == rules[q] {
      var k :| |before| <= k < |after| && after[k].purpose == c.purpose && after[k].rule == rules[q];
      assert after'[k] == after[k];
    }
  }

  lemma {:induction false} NoLeaksIffDeletesSucceeded(log: seq<Command>)
    ensures Leaks(log) == multiset{} <==> DeletesSucceeded(log)
  {
    if log != [] {
      var front, c := log[..|log| - 1], log[|log| - 1];
      assert log == front + [c];
      NoLeaksIffDeletesSucceeded(front);
      if (c.purpose.DropAnnounce? || c.purpose.OnClose?) && !c.ok {
        assert c.rule in Leaks(log);
      } else {
        assert Leaks(log) == Leaks(front);
      }
    }
  }

  // ----- Announcement keys -----

  /** `strings.SplitN(key, "|", 2)[0]` */
  function BeforeBar(key: string): string {
    if key == "" || key[0] == '|' then "" else [key[0]] + BeforeBar(key[1..])
  }

  function AnnounceKey(overlay: string, dst: string): string {
    overlay + "|" + dst
  }

  lemma {:induction false} KeyGivesOverlay(overlay: string, dst: string)
    requires '|' !in overlay
    ensures BeforeBar(AnnounceKey(overlay, dst)) == overlay
  {
    if overlay == "" {
      assert AnnounceKey(overlay, dst)[0] == '|';
    } else {
      assert AnnounceKey(overlay, dst)[1..] == AnnounceKey(overlay[1..], dst);
      KeyGivesOverlay(overlay[1..], dst);
    }
  }

  /** Every tracked key spells out the rule it stands for. */
  ghost predicate KeysSpellRules(announce: map<string, string>) {
    forall k :: k in announce ==> k == AnnounceKey(BeforeBar(k), announce[k])
  }

  lemma KeySpelled(announce: map<string, string>, key: string)
    requires KeysSpellRules(announce) && key in announce
    ensures AnnounceKey(BeforeBar(key), announce[key]) == key
  {
  }

  function AnnounceRule(key: string, dst: string): Rule {
    AnnounceMasq(BeforeBar(key), dst)
  }

  ghost predicate DropsIssued(was: map<string, string>, keys: set<string>, before: seq<Command>, after: seq<Command>) {
    keys <= was.Keys && Issued(before, after, DropAnnounce, map k | k in keys :: AnnounceRule(k, was[k]))
  }

  ghost predicate AddsIssued(want: map<string, string>, keys: set<string>, before: seq<Command>, after: seq<Command>) {
    keys <= want.Keys && Issued(before, after, AddAnnounce, map k | k in keys :: AnnounceRule(k, want[k]))
  }

  ghost predicate ClosesIssued(iface: string, sources: set<string>, before: seq<Command>, after: seq<Command>) {
    Issued(before, after, OnClose, map src | src in sources :: SpokeMasq(src, iface))
  }

  lemma DropsStart(was: map<string, string>, log: seq<Command>)
    ensures DropsIssued(was, {}, log, log)
  {
  }

  lemma AddsStart(want: map<string, string>, log: seq<Command>)
    ensures AddsIssued(want, {}, log, log)
  {
  }

  lemma ClosesStart(iface: string, log: seq<Command>)
    ensures ClosesIssued(iface, {}, log, log)
  {
  }

  lemma ClosesSnoc(iface: string, all: set<string>, left: set<string>, src: string, start: seq<Command>, before: seq<Command>, after: seq<Command>)
    requires ClosesIssued(iface, all - left, start, before) && src in left && left <= all
    requires |after| == |before| + 1 && after == before + [Command(OnClose, SpokeMasq(src, iface), after[|before|].ok)]
    ensures ClosesIssued(iface, all - (left - {src}), start, after)
  {
    var rules := map s | s in all - left :: SpokeMasq(s, iface);
    IssuedSnoc(start, before, rules, src, after[|before|]);
    assert rules[src := SpokeMasq(src, iface)] == map s | s in all - (left - {src}) :: SpokeMasq(s, iface);
  }

  lemma ClosesMany(iface: string, sources: set<string>, before: seq<Command>, after: seq<Command>)
    requires ClosesIssued(iface, sources, before, after)
    ensures before <= after && |after| == |before| + |sources|
  {
    var rules := map s | s in sources :: SpokeMasq(s, iface);
    assert rules.Keys == sources && |rules| == |rules.Keys|;
  }

  lemma DropsSnoc(was: map<string, string>, all: set<string>, left: set<string>, key: string, start: seq<Command>, before: seq<Command>, after: seq<Command>)
    requires DropsIssued(was, all - left, start, before) && key in left && left <= all <= was.Keys
    requires |after| == |before| + 1 && after == before + [Command(DropAnnounce, AnnounceRule(key, was[key]), after[|before|].ok)]
    ensures DropsIssued(was, all - (left - {key}), start, after)
  {
    var rules := map k | k in all - left :: AnnounceRule(k, was[k]);
    IssuedSnoc(start, before, rules, key, after[|before|]);
    assert rules[key := AnnounceRule(key, was[key])] == map k | k in all - (left - {key}) :: AnnounceRule(k, was[k]);
  }

  lemma AddsSnoc(want: map<string, string>, all: set<string>, left: set<string>, key: string, start: seq<Command>, before: seq<Command>, after: seq<Command>)
    requires AddsIssued(want, all - left, start, before) && key in left && left <= all <= want.Keys
    requires |after| == |before| + 1 && after == before + [Command(AddAnnounce, AnnounceRule(key, want[key]), after[|before|].ok)]
    ensures AddsIssued(want, all - (left - {key}), start, after)
  {
    var rules := map k | k in all - left :: AnnounceRule(k, want[k]);
    IssuedSnoc(start, before, rules, key, after[|before|]);
    assert rules[key := AnnounceRule(key, want[key])] == map k | k in all - (left - {key}) :: AnnounceRule(k, want[k]);
  }

  lemma AnnouncedAll(was: map<string, string>, want: map<string, string>, kept: map<string, string>, before: seq<Command>, mid: seq<Command>, after: seq<Command>)
    requires DropsIssued(was, was.Keys - want.Keys, before, mid) && kept == was - (was.Keys - want.Keys)
    requires AddsIssued(want, want.Keys - kept.Keys, mid, after)
    ensures Announced(was, want, before, after) && before <= after
    ensures was == want ==> after == before
  {
    hide DropsIssued, AddsIssued, CommandsOf;
    SameMissing(was, want, kept);
    CommandsOfBoth(was, was.Keys - want.Keys, want, want.Keys - was.Keys, before, mid, after);
  }

  lemma CommandsOfBoth(was: map<string, string>, drop: set<string>, want: map<string, string>, add: set<string>,
                       before: seq<Command>, mid: seq<Command>, after: seq<Command>)
    requires DropsIssued(was, drop, before, mid) && AddsIssued(want, add, mid, after)
    ensures CommandsOf(was, drop, want, add, before, after)
    ensures before <= after && (drop == {} && add == {} ==> after == before)
  {
    hide DropsIssued, AddsIssued;
    DropsMany(was, drop, before, mid);
    AddsMany(want, add, mid, after);
    Prefixes(before, mid, after);
  }

  /** The commands of Close on the NAT list: a delete for every announcement, then one for every source. */
  ghost predicate ClosedDown(iface: string, announce: map<string, string>, added: set<string>, before: seq<Command>, after: seq<Command>) {
    && |before| + |announce.Keys| <= |after|
    && DropsIssued(announce, announce.Keys, before, after[..|before| + |announce.Keys|])
    && ClosesIssued(iface, added, after[..|before| + |announce.Keys|], after)
  }

  lemma ClosedDownBoth(iface: string, announce: map<string, string>, keys: set<string>, added: set<string>,
                       before: seq<Command>, mid: seq<Command>, after: seq<Command>)
    requires DropsIssued(announce, keys, before, mid) && ClosesIssued(iface, added, mid, after) && keys == announce.Keys
    ensures ClosedDown(iface, announce, added, before, after) && before <= after
  {
    hide DropsIssued, ClosesIssued;
    DropsMany(announce, keys, before, mid);
    ClosesMany(iface, added, mid, after);
    Prefixes(before, mid, after);
  }

  lemma Prefixes(before: seq<Command>, mid: seq<Command>, after: seq<Command>)
    requires before <= mid <= after
    ensures before <= after && after[..|mid|] == mid
    ensures |before| == |after| ==> before == after
  {
  }

  lemma SameMissing(was: map<string, string>, want: map<string, string>, kept: map<string, string>)
    requires kept == was - (was.Keys - want.Keys)
    ensures want.Keys - kept.Keys == want.Keys - was.Keys
    ensures was == want ==> was.Keys - want.Keys == {} && want.Keys - was.Keys == {}
  {
  }

  lemma DropsMany(was: map<string, string>, keys: set<string>, before: seq<Command>, after: seq<Command>)
    requires DropsIssued(was, keys, before, after)
    ensures before <= after && |after| == |before| + |keys|
  {
    var rules := map k | k in keys :: AnnounceRule(k, was[k]);
    assert rules.Keys == keys && |rules| == |rules.Keys|;
  }

  lemma AddsMany(want: map<string, string>, keys: set<string>, before: seq<Command>, after: seq<Command>)
    requires AddsIssued(want, keys, before, after)
    ensures before <= after && |after| == |before| + |keys|
  {
    var rules := map k | k in keys :: AnnounceRule(k, want[k]);
    assert rules.Keys == keys && |rules| == |rules.Keys|;
  }

  /** The commands of one announcement request: a delete for every key no longer wanted, then an insert for every missing one. */
  ghost predicate Announced(was: map<string, string>, want: map<string, string>, before: seq<Command>, after: seq<Command>) {
    CommandsOf(was, was.Keys - want.Keys, want, want.Keys - was.Keys, before, after)
  }

  ghost predicate CommandsOf(was: map<string, string>, drop: set<string>, want: map<string, string>, add: set<string>,
                             before: seq<Command>, after: seq<Command>) {
    && |before| + |drop| <= |after|
    && DropsIssued(was, drop, before, after[..|before| + |drop|])
    && AddsIssued(want, add, after[..|before| + |drop|], after)
  }

  /** The keys `AnnounceNAT` asks for: the IPv4 announcements paired with the overlay. */
  function Wanted(overlay: string, subnets: seq<Subnet>): map<string, string> {
    if subnets == [] then map[]
    else
      var w := Wanted(overlay, subnets[..|subnets| - 1]);
      var sub := subnets[|subnets| - 1];
      if sub.isV4 then w[AnnounceKey(overlay, sub.text) := sub.text] else w
  }

  lemma {:induction false} WantedSpells(overlay: string, subnets: seq<Subnet>)
    requires '|' !in overlay
    ensures KeysSpellRules(Wanted(overlay, subnets))
    ensures Wanted(overlay, subnets).Keys == set s | s in subnets && s.isV4 :: AnnounceKey(overlay, s.text)
  {
    if subnets != [] {
      var front, sub := subnets[..|subnets| - 1], subnets[|subnets| - 1];
      WantedSpells(overlay, front);
      KeyGivesOverlay(overlay, sub.text);
      assert subnets == front + [sub];
    }
  }

  /** One rule per tracked key. */
  ghost function Tracked(iface: string, added: set<string>, announce: map<string, string>): set<Rule> {
    (set src | src in added :: SpokeMasq(src, iface)) + (set k | k in announce :: AnnounceRule(k, announce[k]))
  }

  lemma TrackedSpoke(iface: string, added: set<string>, announce: map<string, string>, src: string)
    requires src !in added
    ensures SpokeMasq(src, iface) !in Tracked(iface, added, announce)
    ensures Tracked(iface, added + {src}, announce) == Tracked(iface, added, announce) + {SpokeMasq(src, iface)}
  {
  }

  lemma TrackedAnnounce(iface: string, added: set<string>, announce: map<string, string>, k: string, dst: string)
    requires k !in announce && KeysSpellRules(announce[k := dst])
    ensures AnnounceRule(k, dst) !in Tracked(iface, added, announce)
    ensures Tracked(iface, added, announce[k := dst]) == Tracked(iface, added, announce) + {AnnounceRule(k, dst)}
  {
    var now := announce[k := dst];
    forall j | j in announce ensures AnnounceRule(j, announce[j]) != AnnounceRule(k, dst) {
      assert j == AnnounceKey(BeforeBar(j), now[j]) && k == AnnounceKey(BeforeBar(k), now[k]);
    }
  }

  lemma TrackedSpokeLess(iface: string, added: set<string>, announce: map<string, string>, src: string)
    requires src in added
    ensures SpokeMasq(src, iface) in Tracked(iface, added, announce)
    ensures Tracked(iface, added - {src}, announce) == Tracked(iface, added, announce) - {SpokeMasq(src, iface)}
  {
  }

  lemma TrackedAnnounceLess(iface: string, added: set<string>, announce: map<string, string>, k: string)
    requires k in announce && KeysSpellRules(announce)
    ensures AnnounceRule(k, announce[k]) in Tracked(iface, added, announce)
    ensures Tracked(iface, added, announce - {k}) == Tracked(iface, added, announce) - {AnnounceRule(k, announce[k])}
    ensures KeysSpellRules(announce - {k})
  {
    assert (announce - {k})[k := announce[k]] == announce;
    TrackedAnnounce(iface, added, announce - {k}, k, announce[k]);
  }

  // ----- The lists as tracking says they are -----

  /** Our rules sit on top of the list we found; they are the tracked ones plus what has leaked. */
  ghost predicate InStep(initial: seq<Rule>, rules: seq<Rule>, tracked: set<Rule>, leaks: multiset<Rule>) {
    && |initial| <= |rules|
    && rules[|rules| - |initial|..] == initial
    && multiset(rules[..|rules| - |initial|]) == multiset(tracked) + leaks
  }

  lemma InsertInStep(initial: seq<Rule>, rules: seq<Rule>, tracked: set<Rule>, leaks: multiset<Rule>, r: Rule)
    requires InStep(initial, rules, tracked, leaks) && r !in tracked
    ensures InStep(initial, [r] + rules, tracked + {r}, leaks)
  {
    var own := rules[..|rules| - |initial|];
    var rules' := [r] + rules;
    assert rules'[..|rules'| - |initial|] == [r] + own;
    assert rules'[|rules'| - |initial|..] == initial;
    assert multiset(tracked + {r}) == multiset(tracked) + multiset{r};
  }

  lemma DeleteInStep(initial: seq<Rule>, rules: seq<Rule>, tracked: set<Rule>, leaks: multiset<Rule>, r: Rule)
    requires InStep(initial, rules, tracked, leaks) && r in tracked
    ensures r in rules
    ensures InStep(initial, RemoveFirst(rules, r), tracked - {r}, leaks)
    ensures InStep(initial, rules, tracked - {r}, leaks + multiset{r})
  {
    var own := rules[..|rules| - |initial|];
    assert rules == own + initial;
    assert r in multiset(own);
    RemoveFirstOwn(own, initial, r);
    var own' := RemoveFirst(own, r);
    var rules' := RemoveFirst(rules, r);
    assert rules' == own' + initial;
    assert rules'[..|rules'| - |initial|] == own';
    assert rules'[|rules'| - |initial|..] == initial;
    assert multiset(tracked) == multiset(tracked - {r}) + multiset{r};
  }

  lemma InStepRestored(initial: seq<Rule>, rules: seq<Rule>, leaks: multiset<Rule>)
    requires InStep(initial, rules, {}, leaks)
    ensures rules == initial <==> leaks == multiset{}
  {
    var own := rules[..|rules| - |initial|];
    assert rules == own + initial;
    assert multiset(own) == leaks;
    assert |own| == |leaks|;
  }

  /** The INPUT list as it was found, or with our port rule on top where there was none. */
  ghost predicate InputOf(initial: seq<Rule>, rules: seq<Rule>, port: int) {
    rules == initial || (PortAccept(port) !in initial && rules == [PortAccept(port)] + initial)
  }

  // ----- The router -----

  class LinuxRouter {
    const iface: string
    const port: int
    const hasIP6: bool
    const fails: nat -> bool
    var added: set<string>
    var announceNAT: map<string, string>
    var postrouting: seq<Rule>
    var input: seq<Rule>
    var input6: seq<Rule>
    var log: seq<Command>
    ghost const initial: seq<Rule>
    ghost const initialInput: seq<Rule>
    ghost const initialInput6: seq<Rule>

    /** Tracking and the kernel's NAT list agree, up to leaked rules, and the log tells how the lists came about. */
    ghost predicate Valid()
      reads this
    {
      && KeysSpellRules(announceNAT) && added == SourcesOf(log) && announceNAT == AnnouncedOf(log)
      && InStep(initial, postrouting, Tracked(iface, added, announceNAT), Leaks(log))
      && Logged()
      && InputOf(initialInput, input, port) && InputOf(initialInput6, input6, port)
    }

    ghost predicate Logged()
      reads this`log, this`postrouting, this`input, this`input6
    {
      && Answered(log, fails)
      && postrouting == Replay(Nat, initial, log)
      && input == Replay(Input(false), initialInput, log)
      && input6 == Replay(Input(true), initialInput6, log)
    }

    constructor (iface: string, port: int, hasIP6: bool, postrouting: seq<Rule>, input: seq<Rule>, input6: seq<Rule>, fails: nat -> bool)
      ensures Valid() && this.iface == iface && this.port == port && this.hasIP6 == hasIP6 && this.fails == fails
      ensures initial == this.postrouting == postrouting && initialInput == this.input == input && initialInput6 == this.input6 == input6
      ensures added == {} && announceNAT == map[] && log == []
    {
      this.iface, this.port, this.hasIP6, this.fails := iface, port, hasIP6, fails;
      this.postrouting, this.input, this.input6 := postrouting, input, input6;
      initial, initialInput, initialInput6 := postrouting, input, input6;
      added, announceNAT, log := {}, map[], [];
      new;
      assert postrouting[|postrouting| - |initial|..] == initial;
      assert postrouting[..|postrouting| - |initial|] == [];
    }

    /** `iptables -t nat -I POSTROUTING 1 ...` */
    method Insert(purpose: Purpose, rule: Rule) returns (ok: bool)
      requires Logged() && ChainOf(purpose) == Nat && Inserts(purpose)
      modifies this`postrouting, this`log
      ensures Logged() && log == old(log) + [Command(purpose, rule, ok)] && ok == !fails(|old(log)|)
      ensures postrouting == if ok then [rule] + old(postrouting) else old(postrouting)
    {
      hide Replay;
      ok := !fails(|log|);
      LogMore(Command(purpose, rule, ok));
      if ok { postrouting := [rule] + postrouting; }
      log := log + [Command(purpose, rule, ok)];
    }

    /** `iptables -t nat -D POSTROUTING ...` for a rule that is there. */
    method Delete(purpose: Purpose, rule: Rule) returns (ok: bool)
      requires Logged() && ChainOf(purpose) == Nat && !Inserts(purpose) && rule in postrouting
      modifies this`postrouting, this`log
      ensures Logged() && log == old(log) + [Command(purpose, rule, ok)] && ok == !fails(|old(log)|)
      ensures postrouting == if ok then RemoveFirst(old(postrouting), rule) else old(postrouting)
    {
      hide Replay;
      ok := !fails(|log|) && rule in postrouting;
      LogMore(Command(purpose, rule, ok));
      if ok { postrouting := RemoveFirst(postrouting, rule); }
      log := log + [Command(purpose, rule, ok)];
    }

    lemma LogMore(c: Command)
      requires Logged() && c.ok == !fails(|log|)
      ensures Answered(log + [c], fails)
      ensures forall chain, start :: Replay(chain, start, log + [c]) ==
                (var rules := Replay(chain, start, log);
                 if !c.ok || ChainOf(c.purpose) != chain then rules
                 else if Inserts(c.purpose) then [c.rule] + rules
                 else RemoveFirst(rules, c.rule))
    {
      forall chain, start ensures Replay(chain, start, log + [c]) ==
                (var rules := Replay(chain, start, log);
                 if !c.ok || ChainOf(c.purpose) != chain then rules
                 else if Inserts(c.purpose) then [c.rule] + rules
                 else RemoveFirst(rules, c.rule))
      {
        ReplaySnoc(chain, start, log, c);
      }
    }

    /** Masquerades one spoke, given its IPv4 text if it has one. */
    method AddSource(ip4: Option<string>) returns (ok: bool)
      requires Valid()
      modifies this`added, this`postrouting, this`log
      ensures Valid() && old(log) <= log
      ensures ok ==> ip4.Some? && added == old(added) + {ip4.value + "/32"}
      ensures !ok ==> added == old(added)
      ensures ip4.None? ==> !ok && log == old(log)
      ensures ip4.Some? && ip4.value + "/32" in old(added) ==> ok && log == old(log)
      ensures ip4.Some? && ip4.value + "/32" !in old(added) ==>
                ok == !fails(|old(log)|) && log == old(log) + [Command(AddSpoke, SpokeMasq(ip4.value + "/32", iface), ok)]
    {
      hide InStep, Tracked, Leaks, KeysSpellRules, Logged, InputOf, SourcesOf, AnnouncedOf;
      if ip4.None? { return false; }
      var src := ip4.value + "/32";
      if src in added { return true; }
      TrackedSpoke(iface, added, announceNAT, src);
      InsertInStep(initial, postrouting, Tracked(iface, added, announceNAT), Leaks(log), SpokeMasq(src, iface));
      ok := Insert(AddSpoke, SpokeMasq(src, iface));
      LeaksSnoc(old(log), log[|old(log)|]);
      TrackingSnoc(old(log), log[|old(log)|]);
      if ok { added := added + {src}; }
    }

    method RemoveSource(ip4: Option<string>) returns (ok: bool)
      requires Valid()
      modifies this`added, this`postrouting, this`log
      ensures Valid() && old(log) <= log
      ensures ok && ip4.Some? ==> added == old(added) - {ip4.value + "/32"}
      ensures !ok || ip4.None? ==> added == old(added)
      ensures ip4.None? || ip4.value + "/32" !in old(added) ==> ok && log == old(log)
      ensures ip4.Some? && ip4.value + "/32" in old(added) ==>
                ok == !fails(|old(log)|) && log == old(log) + [Command(DropSpoke, SpokeMasq(ip4.value + "/32", iface), ok)]
    {
      hide InStep, Tracked, Leaks, KeysSpellRules, Logged, InputOf, SourcesOf, AnnouncedOf;
      if ip4.None? { return true; }
      var src := ip4.value + "/32";
      if src !in added { return true; }
      TrackedSpokeLess(iface, added, announceNAT, src);
      DeleteInStep(initial, postrouting, Tracked(iface, added, announceNAT), Leaks(log), SpokeMasq(src, iface));
      ok := Delete(DropSpoke, SpokeMasq(src, iface));
      LeaksSnoc(old(log), log[|old(log)|]);
      TrackingSnoc(old(log), log[|old(log)|]);
      if ok { added := added - {src}; }
    }

    /** Stops tracking one announcement whether or not its rule could be deleted. */
    method DropAnnounceKey(key: string) returns (ok: bool)
      requires Valid() && key in announceNAT
      modifies this`announceNAT, this`postrouting, this`log
      ensures Valid() && announceNAT == old(announceNAT) - {key}
      ensures log == old(log) + [Command(DropAnnounce, AnnounceRule(key, old(announceNAT)[key]), ok)] && ok == !fails(|old(log)|)
    {
      hide InStep, Tracked, Leaks, KeysSpellRules, Logged, InputOf, SourcesOf, AnnouncedOf;
      var dst := announceNAT[key];
      var rule := AnnounceRule(key, dst);
      KeySpelled(announceNAT, key);
      TrackedAnnounceLess(iface, added, announceNAT, key);
      DeleteInStep(initial, postrouting, Tracked(iface, added, announceNAT), Leaks(log), rule);
      ok := Delete(DropAnnounce, rule);
      LeaksSnoc(old(log), log[|old(log)|]);
      TrackingSnoc(old(log), log[|old(log)|]);
      announceNAT := announceNAT - {key};
    }

    method AddAnnounceKey(key: string, dst: string)
      requires Valid() && key !in announceNAT && KeysSpellRules(announceNAT[key := dst])
      modifies this`announceNAT, this`postrouting, this`log
      ensures Valid()
      ensures log == old(log) + [Command(AddAnnounce, AnnounceRule(key, dst), !fails(|old(log)|))]
      ensures announceNAT == if fails(|old(log)|) then old(announceNAT) else old(announceNAT)[key := dst]
    {
      hide InStep, Tracked, Leaks, KeysSpellRules, Logged, InputOf, SourcesOf, AnnouncedOf;
      var rule := AnnounceRule(key, dst);
      KeySpelled(announceNAT[key := dst], key);
      TrackedAnnounce(iface, added, announceNAT, key, dst);
      InsertInStep(initial, postrouting, Tracked(iface, added, announceNAT), Leaks(log), rule);
      var ok := Insert(AddAnnounce, rule);
      LeaksSnoc(old(log), log[|old(log)|]);
      TrackingSnoc(old(log), log[|old(log)|]);
      if ok { announceNAT := announceNAT[key := dst]; }
    }

    /**
      Reconciles the announcement rules, from any prior tracking. If no command
      fails the tracking is exactly what is wanted; when it already was, no
      command is issued at all.
     */
    method AnnounceNAT(overlay: string, subnets: seq<Subnet>)
      requires Valid() && '|' !in overlay
      modifies this`announceNAT, this`postrouting, this`log
      ensures Valid() && old(log) <= log
      ensures announceNAT.Keys <= Wanted(overlay, subnets).Keys
      ensures forall k :: k in announceNAT ==> announceNAT[k] == Wanted(overlay, subnets)[k]
      ensures NoneFailed(|old(log)|, |log|) ==> announceNAT == Wanted(overlay, subnets)
      ensures Announced(old(announceNAT), Wanted(overlay, subnets), old(log), log)
      ensures old(announceNAT) == Wanted(overlay, subnets) ==> log == old(log)
    {
      hide InStep, Tracked, Leaks, KeysSpellRules, Logged, InputOf, SourcesOf, AnnouncedOf;
      var want: map<string, string> := map[];
      for i := 0 to |subnets|
        invariant want == Wanted(overlay, subnets[..i])
        modifies {}
      {
        assert subnets[..i + 1][..i] == subnets[..i];
        if subnets[i].isV4 {
          want := want[AnnounceKey(overlay, subnets[i].text) := subnets[i].text];
        }
      }
      assert subnets[..|subnets|] == subnets;
      WantedSpells(overlay, subnets);
      RemoveUnwanted(want);
      ghost var kept, mid := announceNAT, log;
      AddMissing(want);
      AnnouncedAll(old(announceNAT), want, kept, old(log), mid, log);
    }

    method RemoveUnwanted(want: map<string, string>)
      requires Valid() && KeysSpellRules(announceNAT) && KeysSpellRules(want)
      modifies this`announceNAT, this`postrouting, this`log
      ensures Valid() && announceNAT == old(announceNAT) - (old(announceNAT).Keys - want.Keys)
      ensures forall k :: k in announceNAT ==> announceNAT[k] == want[k]
      ensures DropsIssued(old(announceNAT), old(announceNAT).Keys - want.Keys, old(log), log)
    {
      hide Valid, KeysSpellRules, DropsIssued;
      DropKeys(announceNAT.Keys - want.Keys);
      KeptAreWanted(old(announceNAT), want);
    }

    method DropKeys(drop: set<string>)
      requires Valid() && drop <= announceNAT.Keys
      modifies this`announceNAT, this`postrouting, this`log
      ensures Valid() && announceNAT == old(announceNAT) - drop
      ensures DropsIssued(old(announceNAT), drop, old(log), log)
    {
      hide Valid, DropsIssued;
      var left := drop;
      DropsStart(announceNAT, log);
      assert drop - left == {};
      while left != {}
        invariant Valid() && left <= drop
        invariant announceNAT == old(announceNAT) - (drop - left)
        invariant DropsIssued(old(announceNAT), drop - left, old(log), log)
        decreases left
      {
        var key :| key in left;
        MapLess(old(announceNAT), drop, left, key);
        ghost var before := log;
        var _ := DropAnnounceKey(key);
        DropsSnoc(old(announceNAT), drop, left, key, old(log), before, log);
        left := left - {key};
      }
      assert drop - left == drop;
    }

    method AddMissing(want: map<string, string>)
      requires Valid() && KeysSpellRules(want) && announceNAT.Keys <= want.Keys
      requires forall k :: k in announceNAT ==> announceNAT[k] == want[k]
      modifies this`announceNAT, this`postrouting, this`log
      ensures Valid() && old(log) <= log
      ensures announceNAT.Keys <= want.Keys && forall k :: k in announceNAT ==> announceNAT[k] == want[k]
      ensures NoneFailed(|old(log)|, |log|) ==> announceNAT == want
      ensures AddsIssued(want, want.Keys - old(announceNAT).Keys, old(log), log)
    {
      hide Valid, KeysSpellRules, AddsIssued, NoneFailed, Adding;
      var left := want.Keys - announceNAT.Keys;
      ghost var all := left;
      AddsStart(want, log);
      assert all - left == {};
      AddingStarts(want, announceNAT);
      while left != {}
        invariant Valid() && old(log) <= log && left <= all && Adding(want, announceNAT, left, NoneFailed(|old(log)|, |log|))
        invariant AddsIssued(want, all - left, old(log), log)
        decreases left
      {
        var key :| key in left;
        ghost var before := log;
        AddWanted(want, left, key, |old(log)|);
        AddsSnoc(want, all, left, key, old(log), before, log);
        left := left - {key};
      }
      AddingEnds(want, announceNAT, NoneFailed(|old(log)|, |log|));
      assert all - left == all;
    }

    method AddWanted(want: map<string, string>, ghost left: set<string>, key: string, ghost since: nat)
      requires Valid() && KeysSpellRules(want) && key in left && since <= |log|
      requires Adding(want, announceNAT, left, NoneFailed(since, |log|))
      modifies this`announceNAT, this`postrouting, this`log
      ensures Valid() && key in want && log == old(log) + [Command(AddAnnounce, AnnounceRule(key, want[key]), !fails(|old(log)|))]
      ensures Adding(want, announceNAT, left - {key}, NoneFailed(since, |log|))
    {
      hide Valid;
      ghost var was := announceNAT.Keys;
      AddAnnounceKey(key, want[key]);
      KeysLess(want.Keys, was, announceNAT.Keys, left, key);
    }

    ghost function Setup(): (h: Host) {
      Host(iface, port, initialInput, initialInput6, fails)
    }

    /** Tracking and the INPUT lists are what the log says. */
    lemma Follows()
      requires Valid()
      ensures added == SourcesOf(log) && announceNAT == AnnouncedOf(log)
      ensures input == Replay(Input(false), initialInput, log) && input6 == Replay(Input(true), initialInput6, log)
    {
    }

    /** Commands number `from` up to `to` were not made to fail. */
    ghost predicate NoneFailed(from: nat, to: nat) {
      forall i :: from <= i < to ==> !fails(i)
    }

    /** The transport port is open in both address families. */
    ghost predicate PortOpen()
      reads this
    {
      PortAccept(port) in input && PortAccept(port) in input6
    }

    /** Deletes every rule still tracked and forgets it, whatever the outcome, and then the port rules. */
    method Close() returns (ok: bool, ghost mid: nat)
      requires Valid()
      modifies this`added, this`announceNAT, this`postrouting, this`log, this`input, this`input6
      ensures added == {} && announceNAT == map[] && old(log) <= log && |old(log)| <= mid <= |log| && Logged()
      ensures ClosedDown(iface, old(announceNAT), old(added), old(log), log[..mid])
      ensures InStep(initial, postrouting, {}, Leaks(log))
      ensures ok <==> ClosedCleanly(log, |old(log)|)
      ensures input == Closed(old(input), port, fails(mid))
      ensures input6 == if hasIP6 then Closed(old(input6), port, fails(if PortAccept(port) in old(input) then mid + 1 else mid)) else old(input6)
    {
      hide InStep, Tracked, Leaks, Logged, ClosedDown;
      ok := CloseNat();
      NothingTracked(iface);
      ghost var natLog := log;
      mid := |log|;
      CloseInput(false);
      if hasIP6 { CloseInput(true); }
      StillClosedCleanly(natLog, log, |old(log)|);
      assert log[..mid] == natLog;
    }

    method CloseNat() returns (ok: bool)
      requires Valid()
      modifies this`added, this`announceNAT, this`postrouting, this`log
      ensures Valid() && Logged() && added == {} && announceNAT == map[] && old(log) <= log
      ensures InStep(initial, postrouting, Tracked(iface, added, announceNAT), Leaks(log))
      ensures ClosedDown(iface, old(announceNAT), old(added), old(log), log)
      ensures ok <==> ClosedCleanly(log, |old(log)|)
    {
      hide InStep, Tracked, Leaks, KeysSpellRules, Logged, InputOf, SourcesOf, AnnouncedOf, ClosedCleanly, DropsIssued, ClosesIssued, ClosedDown;
      var unannounced := CloseAnnounced();
      ghost var mid := log;
      DropsMany(old(announceNAT), old(announceNAT).Keys, old(log), log);
      ok := CloseAdded(|old(log)|, unannounced);
      ClosedDownBoth(iface, old(announceNAT), old(announceNAT).Keys, old(added), old(log), mid, log);
    }

    method CloseAnnounced() returns (ok: bool)
      requires Valid()
      modifies this`announceNAT, this`postrouting, this`log
      ensures Valid() && announceNAT == map[] && old(log) <= log
      ensures DropsIssued(old(announceNAT), old(announceNAT).Keys, old(log), log)
      ensures ok <==> ClosedCleanly(log, |old(log)|)
    {
      hide Valid, DropsIssued, ClosedCleanly;
      ok := true;
      ghost var all := announceNAT.Keys;
      DropsStart(announceNAT, log);
      ClosedSoFar(log);
      assert all - announceNAT.Keys == {};
      while announceNAT != map[]
        invariant Valid() && old(log) <= log && announceNAT.Keys <= all
        invariant announceNAT == old(announceNAT) - (all - announceNAT.Keys)
        invariant DropsIssued(old(announceNAT), all - announceNAT.Keys, old(log), log)
        invariant ok <==> ClosedCleanly(log, |old(log)|)
        decreases announceNAT.Keys
      {
        var key :| key in announceNAT;
        ghost var before, left := log, announceNAT.Keys;
        MapLess(old(announceNAT), all, left, key);
        var dropped := DropAnnounceKey(key);
        assert announceNAT.Keys == left - {key};
        ClosedOneMore(before, log, |old(log)|);
        DropsSnoc(old(announceNAT), all, left, key, old(log), before, log);
        ok := ok && dropped;
      }
      assert all - announceNAT.Keys == all;
    }

    /** Carries on from a close that began at command number `from`. */
    method CloseAdded(ghost from: nat, soFar: bool) returns (ok: bool)
      requires Valid() && from <= |log| && (soFar <==> ClosedCleanly(log, from))
      modifies this`added, this`postrouting, this`log
      ensures Valid() && added == {} && old(log) <= log
      ensures ClosesIssued(iface, old(added), old(log), log)
      ensures ok <==> ClosedCleanly(log, from)
    {
      hide Valid, ClosesIssued, ClosedCleanly;
      ok := soFar;
      ghost var all := added;
      ClosesStart(iface, log);
      assert all - added == {};
      while added != {}
        invariant Valid() && old(log) <= log && added <= all
        invariant ClosesIssued(iface, all - added, old(log), log)
        invariant ok <==> ClosedCleanly(log, from)
        decreases added
      {
        var src :| src in added;
        ghost var before, left := log, added;
        var closed := CloseSource(src);
        ClosedOneMore(before, log, from);
        ClosesSnoc(iface, all, left, src, old(log), before, log);
        ok := ok && closed;
      }
      assert all - added == all;
    }

    method CloseSource(src: string) returns (ok: bool)
      requires Valid() && src in added
      modifies this`added, this`postrouting, this`log
      ensures Valid() && added == old(added) - {src}
      ensures log == old(log) + [Command(OnClose, SpokeMasq(src, iface), ok)]
    {
      hide InStep, Tracked, Leaks, KeysSpellRules, Logged, InputOf, SourcesOf, AnnouncedOf;
      TrackedSpokeLess(iface, added, announceNAT, src);
      DeleteInStep(initial, postrouting, Tracked(iface, added, announceNAT), Leaks(log), SpokeMasq(src, iface));
      ok := Delete(OnClose, SpokeMasq(src, iface));
      LeaksSnoc(old(log), log[|old(log)|]);
      TrackingSnoc(old(log), log[|old(log)|]);
      added := added - {src};
    }

    /**
      Opens the transport port in both address families, each unless a probe
      finds the rule there already. A failure is only logged.
     */
    method EnsurePort()
      requires Valid()
      modifies this`input, this`input6, this`log
      ensures Valid() && old(log) <= log
      ensures input == Opened(old(input), port, fails(|old(log)|))
      ensures input6 == Opened(old(input6), port, fails(if PortAccept(port) in old(input) then |old(log)| else |old(log)| + 1))
      ensures log == Opening(Opening(old(log), old(input), false, port, fails), old(input6), true, port, fails)
      ensures NoneFailed(|old(log)|, |log|) ==> PortOpen()
    {
      hide InStep, Tracked, Leaks, KeysSpellRules, Logged, InputOf, SourcesOf, AnnouncedOf;
      EnsureFamily(false);
      EnsureFamily(true);
    }

    method EnsureFamily(v6: bool)
      requires Valid()
      modifies this`input, this`input6, this`log
      ensures Valid() && old(log) <= log
      ensures log == Opening(old(log), old(if v6 then input6 else input), v6, port, fails)
      ensures input == if v6 then old(input) else Opened(old(input), port, fails(|old(log)|))
      ensures input6 == if v6 then Opened(old(input6), port, fails(|old(log)|)) else old(input6)
    {
      hide InStep, Tracked, Leaks, KeysSpellRules, Replay, SourcesOf, AnnouncedOf;
      var rule := PortAccept(port);
      if rule in (if v6 then input6 else input) { return; }
      var c := Command(OpenPort(v6), rule, !fails(|log|));
      LogMore(c);
      LeaksSnoc(log, c);
      TrackingSnoc(log, c);
      if c.ok && v6 { input6 := [rule] + input6; }
      if c.ok && !v6 { input := [rule] + input; }
      log := log + [c];
    }

    /** Deletes a matching port rule, whoever put it there. */
    method CloseInput(v6: bool)
      requires Logged() && InStep(initial, postrouting, Tracked(iface, added, announceNAT), Leaks(log))
      modifies this`input, this`input6, this`log
      ensures Logged() && InStep(initial, postrouting, Tracked(iface, added, announceNAT), Leaks(log)) && old(log) <= log
      ensures forall i :: |old(log)| <= i < |log| ==> log[i].purpose.ClosePort?
      ensures |log| == |old(log)| + if PortAccept(port) in old(if v6 then input6 else input) then 1 else 0
      ensures input == if v6 then old(input) else Closed(old(input), port, fails(|old(log)|))
      ensures input6 == if v6 then Closed(old(input6), port, fails(|old(log)|)) else old(input6)
    {
      hide InStep, Tracked, Leaks, Replay;
      var rule := PortAccept(port);
      if rule !in (if v6 then input6 else input) { return; }
      var c := Command(ClosePort(v6), rule, !fails(|log|));
      LogMore(c);
      LeaksSnoc(log, c);
      if c.ok && v6 { input6 := RemoveFirst(input6, rule); }
      if c.ok && !v6 { input := RemoveFirst(input, rule); }
      log := log + [c];
    }
  }

  /** One insert of the port rule, if a probe does not find it. */
  function Opening(log: seq<Command>, rules: seq<Rule>, v6: bool, port: int, fails: nat -> bool): seq<Command> {
    if PortAccept(port) in rules then log else log + [Command(OpenPort(v6), PortAccept(port), !fails(|log|))]
  }

  /** The list after an attempt to open the port. */
  function Opened(rules: seq<Rule>, port: int, failed: bool): seq<Rule> {
    if PortAccept(port) in rules || failed then rules else [PortAccept(port)] + rules
  }

  /** The list after an attempt to close the port. */
  function Closed(rules: seq<Rule>, port: int, failed: bool): seq<Rule> {
    if PortAccept(port) in rules && !failed then RemoveFirst(rules, PortAccept(port)) else rules
  }

  lemma NothingTracked(iface: string)
    ensures Tracked(iface, {}, map[]) == {}
  {
  }

  /** Commands on other lists do not matter. */
  lemma StillClosedCleanly(before: seq<Command>, log: seq<Command>, from: nat)
    requires before <= log && forall i :: |before| <= i < |log| ==> log[i].purpose.ClosePort?
    ensures ClosedCleanly(log, from) <==> ClosedCleanly(before, from)
  {
    assert forall i :: 0 <= i < |before| ==> log[i] == before[i];
  }

  lemma ClosedSoFar(log: seq<Command>)
    ensures ClosedCleanly(log, |log|)
  {
  }

  lemma ClosedOneMore(before: seq<Command>, log: seq<Command>, from: nat)
    requires from <= |before| && |log| == |before| + 1 && before <= log
    requires log[|before|].purpose.DropAnnounce? || log[|before|].purpose.OnClose?
    ensures ClosedCleanly(log, from) <==> ClosedCleanly(before, from) && log[|before|].ok
  {
    assert forall i :: 0 <= i < |before| ==> log[i] == before[i];
  }

  /**
    Closing restores an INPUT list exactly when the port rule was ours, or not
    there, and its delete did not fail; a rule found at the start is deleted too.
   */
  lemma InputRestoredIff(initial: seq<Rule>, rules: seq<Rule>, port: int, failed: bool)
    requires InputOf(initial, rules, port)
    ensures Closed(rules, port, failed) == initial <==>
            if PortAccept(port) in initial then failed else PortAccept(port) in rules ==> !failed
  {
    if PortAccept(port) in initial {
      RemoveFirstOwn(initial, [], PortAccept(port));
      assert |multiset(RemoveFirst(initial, PortAccept(port)))| == |multiset(initial)| - 1;
    } else if rules != initial {
      assert rules[1..] == initial;
    }
  }

  /** `left` are still to be tried; what is tracked is wanted, and all of it that was tried if nothing failed. */
  ghost predicate Adding(want: map<string, string>, announce: map<string, string>, left: set<string>, clean: bool) {
    && left <= want.Keys && announce.Keys <= want.Keys - left
    && (forall k :: k in announce ==> announce[k] == want[k])
    && (clean ==> announce.Keys == want.Keys - left)
  }

  lemma AddingStarts(want: map<string, string>, announce: map<string, string>)
    requires announce.Keys <= want.Keys && forall k :: k in announce ==> announce[k] == want[k]
    ensures forall clean :: Adding(want, announce, want.Keys - announce.Keys, clean)
  {
  }

  lemma AddingEnds(want: map<string, string>, announce: map<string, string>, clean: bool)
    requires Adding(want, announce, {}, clean)
    ensures announce.Keys <= want.Keys && forall k :: k in announce ==> announce[k] == want[k]
    ensures clean ==> announce == want
  {
  }

  lemma MapLess(m: map<string, string>, all: set<string>, left: set<string>, key: string)
    requires key in left && left <= all <= m.Keys
    ensures key in m - (all - left)
    ensures (m - (all - left)) - {key} == m - (all - (left - {key}))
    ensures |left - {key}| == |left| - 1
  {
  }

  lemma KeysLess(want: set<string>, was: set<string>, now: set<string>, left: set<string>, key: string)
    requires key in left && left <= want && was <= want - left && now <= was + {key}
    ensures now <= want - (left - {key})
    ensures now == was + {key} && was == want - left ==> now == want - (left - {key})
  {
  }

  lemma SameKeySameDst(a: map<string, string>, b: map<string, string>, k: string)
    requires KeysSpellRules(a) && KeysSpellRules(b) && k in a && k in b
    ensures a[k] == b[k]
  {
    var n := |BeforeBar(k)| + 1;
    assert a[k] == k[n..] == b[k];
  }

  lemma KeptAreWanted(was: map<string, string>, want: map<string, string>)
    requires KeysSpellRules(was) && KeysSpellRules(want)
    ensures forall k :: k in was - (was.Keys - want.Keys) ==> was[k] == want[k]
  {
    forall k | k in was - (was.Keys - want.Keys) ensures was[k] == want[k] {
      SameKeySameDst(was, want, k);
    }
  }

  // ----- Whole runs -----

  datatype Request =
    | Add(ip4: Option<string>)
    | Remove(ip4: Option<string>)
    | Announce(overlay: string, subnets: seq<Subnet>)
    | Ensure

  function SourcesAfter(added: set<string>, r: Request): set<string> {
    match r
    case Add(Some(ip)) => added + {ip + "/32"}
    case Remove(Some(ip)) => added - {ip + "/32"}
    case _ => added
  }

  function AnnouncementsAfter(announced: map<string, string>, r: Request): map<string, string> {
    if r.Announce? then Wanted(r.overlay, r.subnets) else announced
  }

  /** The sources that a run of requests asks for in the end. */
  function SourcesAsked(requests: seq<Request>): set<string> {
    if requests == [] then {} else SourcesAfter(SourcesAsked(requests[..|requests| - 1]), requests[|requests| - 1])
  }

  /** The announcements that a run of requests asks for in the end: those of the last request for any. */
  function AnnouncementsAsked(requests: seq<Request>): map<string, string> {
    if requests == [] then map[] else AnnouncementsAfter(AnnouncementsAsked(requests[..|requests| - 1]), requests[|requests| - 1])
  }

  /** What a router is set up with: its interface and port, the INPUT lists it found, and the commands the world fails. */
  datatype Host = Host(iface: string, port: int, input: seq<Rule>, input6: seq<Rule>, fails: nat -> bool)

  /** The commands one request issues, given all those before it. */
  ghost predicate ServedAs(h: Host, r: Request, before: seq<Command>, after: seq<Command>) {
    match r
    case Add(Some(ip)) =>
      after == if ip + "/32" in SourcesOf(before) then before else before + [Command(AddSpoke, SpokeMasq(ip + "/32", h.iface), !h.fails(|before|))]
    case Remove(Some(ip)) =>
      after == if ip + "/32" in SourcesOf(before) then before + [Command(DropSpoke, SpokeMasq(ip + "/32", h.iface), !h.fails(|before|))] else before
    case Announce(overlay, subnets) => Announced(AnnouncedOf(before), Wanted(overlay, subnets), before, after)
    case Ensure =>
      after == Opening(Opening(before, Replay(Input(false), h.input, before), false, h.port, h.fails),
                       Replay(Input(true), h.input6, before), true, h.port, h.fails)
    case _ => after == before
  }

  /** `stages[i]` is the log when the first `i` requests have been served, each with its own commands. */
  ghost predicate Served(h: Host, requests: seq<Request>, stages: seq<seq<Command>>) {
    && |stages| == |requests| + 1 && stages[0] == []
    && forall i :: 0 <= i < |requests| ==> ServedAs(h, requests[i], stages[i], stages[i + 1])
  }

  lemma ServedSnoc(h: Host, requests: seq<Request>, stages: seq<seq<Command>>, r: Request, after: seq<Command>)
    requires Served(h, requests, stages) && ServedAs(h, r, stages[|requests|], after)
    ensures Served(h, requests + [r], stages + [after])
  {
    hide ServedAs;
    var requests', stages' := requests + [r], stages + [after];
    forall i | 0 <= i < |requests'| ensures ServedAs(h, requests'[i], stages'[i], stages'[i + 1]) {
      if i < |requests| { assert ServedAs(h, requests[i], stages[i], stages[i + 1]); }
    }
  }

  /**
    Serves the requests in turn. Each issues the commands that the ones so far
    call for, whether or not they failed; if none failed, what is tracked is
    what was asked for.
   */
  method Serve(router: LinuxRouter, requests: seq<Request>) returns (ghost stages: seq<seq<Command>>)
    requires router.Valid() && router.log == [] && router.added == {} && router.announceNAT == map[]
    requires forall r :: r in requests && r.Announce? ==> '|' !in r.overlay
    modifies router
    ensures router.Valid()
    ensures Served(router.Setup(), requests, stages) && router.log == stages[|requests|]
    ensures router.NoneFailed(0, |router.log|) ==>
              router.added == SourcesAsked(requests) && router.announceNAT == AnnouncementsAsked(requests)
  {
    hide LinuxRouter.Valid, SourcesAfter, AnnouncementsAfter, ServedAs;
    stages := [router.log];
    for i := 0 to |requests|
      invariant router.Valid() && Served(router.Setup(), requests[..i], stages) && router.log == stages[i]
      invariant router.NoneFailed(0, |router.log|) ==>
                  router.added == SourcesAsked(requests[..i]) && router.announceNAT == AnnouncementsAsked(requests[..i])
    {
      assert requests[..i + 1] == requests[..i] + [requests[i]] && requests[..i + 1][..i] == requests[..i];
      ServeOne(router, requests[i]);
      ServedSnoc(router.Setup(), requests[..i], stages, requests[i], router.log);
      stages := stages + [router.log];
    }
    assert requests[..|requests|] == requests;
  }

  method ServeOne(router: LinuxRouter, r: Request)
    requires router.Valid() && (r.Announce? ==> '|' !in r.overlay)
    modifies router
    ensures router.Valid() && old(router.log) <= router.log
    ensures ServedAs(router.Setup(), r, old(router.log), router.log)
    ensures router.NoneFailed(|old(router.log)|, |router.log|) ==>
              router.added == SourcesAfter(old(router.added), r) && router.announceNAT == AnnouncementsAfter(old(router.announceNAT), r)
  {
    hide LinuxRouter.Valid, Wanted, Announced, Opening, Replay, SourcesOf, AnnouncedOf;
    router.Follows();
    match r
    case Add(ip4) => var _ := router.AddSource(ip4);
    case Remove(ip4) => var _ := router.RemoveSource(ip4);
    case Announce(overlay, subnets) => router.AnnounceNAT(overlay, subnets);
    case Ensure => router.EnsurePort();
  }

  /**
    Any sequence of requests, with any commands failing, then Close. The log
    tells which commands each request issued, which of them failed, and how the
    NAT list came about. Just before Close the list is one rule per key that
    the accepted commands leave tracked, and what has leaked, on top of the list
    found at the start; in a run without failures those keys are the ones asked
    for. Close deletes each of them once, and afterwards the list is restored
    exactly when the world let every announcement and closing delete through.
   */
  method RunAndClose(iface: string, port: int, hasIP6: bool, initial: seq<Rule>, input: seq<Rule>, input6: seq<Rule>, fails: nat -> bool,
                     requests: seq<Request>)
    returns (before: seq<Rule>, final: seq<Rule>, log: seq<Command>, ghost stages: seq<seq<Command>>, ghost mid: nat, ok: bool)
    requires forall r :: r in requests && r.Announce? ==> '|' !in r.overlay
    ensures Answered(log, fails) && Served(Host(iface, port, input, input6, fails), requests, stages)
    ensures var served := stages[|requests|];
            && |served| <= mid <= |log| && log[..|served|] == served
            && before == Replay(Nat, initial, served) && final == Replay(Nat, initial, log)
            && InStep(initial, before, Tracked(iface, SourcesOf(served), AnnouncedOf(served)), Leaks(served))
            && ((forall k :: 0 <= k < |served| ==> !fails(k)) ==>
                  SourcesOf(served) == SourcesAsked(requests) && AnnouncedOf(served) == AnnouncementsAsked(requests) && Leaks(served) == multiset{})
            && ClosedDown(iface, AnnouncedOf(served), SourcesOf(served), served, log[..mid])
            && (ok <==> forall k :: |served| <= k < |log| && (log[k].purpose.DropAnnounce? || log[k].purpose.OnClose?) ==> !fails(k))
    ensures InStep(initial, final, {}, Leaks(log))
    ensures final == initial <==> forall k :: 0 <= k < |log| && (log[k].purpose.DropAnnounce? || log[k].purpose.OnClose?) ==> !fails(k)
  {
    var router := new LinuxRouter(iface, port, hasIP6, initial, input, input6, fails);
    stages := Serve(router, requests);
    hide LinuxRouter.Valid, LinuxRouter.Logged, InStep, Tracked, Leaks, Replay, Answered, SourcesAsked, AnnouncementsAsked, ClosedCleanly, LinuxRouter.NoneFailed, Closed, Served, SourcesOf, AnnouncedOf, ClosedDown;
    StagesEnd(router.Setup(), requests, stages);
    ServedSays(router, requests);
    before := router.postrouting;
    ghost var served := router.log;
    ok, mid := router.Close();
    LoggedSays(router);
    final, log := router.postrouting, router.log;
    ClosedSays(initial, final, log, fails, |served|);
    PrefixOf(served, log);
  }

  lemma StagesEnd(h: Host, requests: seq<Request>, stages: seq<seq<Command>>)
    requires Served(h, requests, stages)
    ensures |requests| < |stages|
  {
  }

  lemma PrefixOf(before: seq<Command>, log: seq<Command>)
    requires before <= log
    ensures log[..|before|] == before
  {
  }

  lemma ServedSays(router: LinuxRouter, requests: seq<Request>)
    requires router.Valid()
    requires router.NoneFailed(0, |router.log|) ==> router.added == SourcesAsked(requests) && router.announceNAT == AnnouncementsAsked(requests)
    ensures router.added == SourcesOf(router.log) && router.announceNAT == AnnouncedOf(router.log)
    ensures router.postrouting == Replay(Nat, router.initial, router.log)
    ensures InStep(router.initial, router.postrouting, Tracked(router.iface, SourcesOf(router.log), AnnouncedOf(router.log)), Leaks(router.log))
    ensures (forall k :: 0 <= k < |router.log| ==> !router.fails(k)) ==>
              SourcesOf(router.log) == SourcesAsked(requests) && AnnouncedOf(router.log) == AnnouncementsAsked(requests) && Leaks(router.log) == multiset{}
  {
    hide SourcesAsked, AnnouncementsAsked, Replay, Tracked, Leaks, InStep, SourcesOf, AnnouncedOf;
    if router.NoneFailed(0, |router.log|) { NothingLeaks(router.log, router.fails); }
  }

  lemma ClosedSays(initial: seq<Rule>, final: seq<Rule>, log: seq<Command>, fails: nat -> bool, closing: nat)
    requires InStep(initial, final, {}, Leaks(log)) && Answered(log, fails)
    ensures final == initial <==> forall k :: 0 <= k < |log| && (log[k].purpose.DropAnnounce? || log[k].purpose.OnClose?) ==> !fails(k)
    ensures ClosedCleanly(log, closing) <==>
            forall k :: closing <= k < |log| && (log[k].purpose.DropAnnounce? || log[k].purpose.OnClose?) ==> !fails(k)
  {
    InStepRestored(initial, final, Leaks(log));
    NoLeaksIffDeletesSucceeded(log);
    DeletesSucceededIff(log, fails);
    ClosedCleanlyIff(log, fails, closing);
  }

  lemma LoggedSays(router: LinuxRouter)
    requires router.Logged()
    ensures Answered(router.log, router.fails) && router.postrouting == Replay(Nat, router.initial, router.log)
  {
  }

  lemma ClosedCleanlyIff(log: seq<Command>, fails: nat -> bool, from: nat)
    requires Answered(log, fails)
    ensures ClosedCleanly(log, from) <==>
            forall k :: from <= k < |log| && (log[k].purpose.DropAnnounce? || log[k].purpose.OnClose?) ==> !fails(k)
  {
  }

  lemma DeletesSucceededIff(log: seq<Command>, fails: nat -> bool)
    requires Answered(log, fails)
    ensures DeletesSucceeded(log) <==> forall k :: 0 <= k < |log| && (log[k].purpose.DropAnnounce? || log[k].purpose.OnClose?) ==> !fails(k)
  {
    forall k | 0 <= k < |log| ensures log[k] in log && log[k].ok == !fails(k) { }
  }

  lemma NothingLeaks(log: seq<Command>, fails: nat -> bool)
    requires Answered(log, fails) && forall k :: 0 <= k < |log| ==> !fails(k)
    ensures Leaks(log) == multiset{}
  {
    DeletesSucceededIff(log, fails);
    NoLeaksIffDeletesSucceeded(log);
  }
}
