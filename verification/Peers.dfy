/** The dial order of a peer's candidates (internal/mesh/peers.go and daemon.go's orderedFor). */
module Peers {
  import opened Wrappers
  import opened Records
  import opened StableSorting
  import Overlay

  /** A UDP address as the daemon uses it: its text, whether it has an IP, whether that is link-local. */
  datatype Udp = Udp(text: string, hasIP: bool, linkLocal: bool)

  /** The parts of Go's net package the daemon calls. */
  datatype NetLib = NetLib(
    hostOnly: string -> string,              // SplitHostPort, or the text itself on error
    parseIP: string -> Option<seq<bv8>>,
    resolve: string -> Option<Udp>)          // ResolveUDPAddr

  datatype NatMode = Unknown | SharedNAT | DifferentSites

  function SrflxIP(net: NetLib, cands: seq<Candidate>): string {
    if cands == [] then ""
    else if cands[0].kind.Srflx? then net.hostOnly(cands[0].addr)
    else SrflxIP(net, cands[1..])
  }

  function SameNAT(net: NetLib, mine: seq<Candidate>, theirs: seq<Candidate>): NatMode {
    var m, o := SrflxIP(net, mine), SrflxIP(net, theirs);
    if m == "" || o == "" then Unknown else if m == o then SharedNAT else DifferentSites
  }

  predicate IsPrivate(net: NetLib, c: Candidate) {
    var ip := net.parseIP(net.hostOnly(c.addr));
    ip.Some? && Overlay.IsPrivateIP(ip.value)
  }

  /** Across sites a private host address is ambiguous and is not dialled. */
  predicate Dialable(net: NetLib, mode: NatMode, c: Candidate) {
    !(mode.DifferentSites? && c.kind.Host? && IsPrivate(net, c))
  }

  function Filter<T>(keep: T -> bool, s: seq<T>): seq<T> {
    if s == [] then [] else (if keep(s[0]) then [s[0]] else []) + Filter(keep, s[1..])
  }

  predicate IsSrflx(c: Candidate) { c.kind.Srflx? }

  predicate NotSrflx(c: Candidate) { !c.kind.Srflx? }

  function DialableIn(net: NetLib, mode: NatMode): Candidate -> bool {
    c => Dialable(net, mode, c)
  }

  /** The order promised: the dialable candidates, reflexive ones first across sites and last otherwise. */
  function DialOrder(net: NetLib, mine: seq<Candidate>, theirs: seq<Candidate>): seq<Candidate> {
    var mode := SameNAT(net, mine, theirs);
    Ranked(mode, Filter(DialableIn(net, mode), theirs))
  }

  function Ranked(mode: NatMode, cands: seq<Candidate>): seq<Candidate> {
    if mode.DifferentSites? then Filter(IsSrflx, cands) + Filter(NotSrflx, cands)
    else Filter(NotSrflx, cands) + Filter(IsSrflx, cands)
  }

  // ----- Filters -----

  lemma {:induction false} FilterSnoc<T>(keep: T -> bool, s: seq<T>, x: T)
    ensures Filter(keep, s + [x]) == Filter(keep, s) + if keep(x) then [x] else []
  {
    if s != [] {
      assert (s + [x])[1..] == s[1..] + [x];
      FilterSnoc(keep, s[1..], x);
    }
  }

  lemma {:induction false} FilterMembers<T>(keep: T -> bool, s: seq<T>, x: T)
    ensures x in Filter(keep, s) <==> x in s && keep(x)
  {
    if s != [] {
      FilterMembers(keep, s[1..], x);
    }
  }

  lemma {:induction false} FilterAll<T>(keep: T -> bool, s: seq<T>)
    requires forall i :: 0 <= i < |s| ==> keep(s[i])
    ensures Filter(keep, s) == s
  {
    if s != [] {
      FilterAll(keep, s[1..]);
    }
  }

  lemma {:induction false} FilterSplits<T>(p: T -> bool, q: T -> bool, s: seq<T>)
    requires forall i :: 0 <= i < |s| ==> p(s[i]) != q(s[i])
    ensures multiset(Filter(p, s)) + multiset(Filter(q, s)) == multiset(s)
  {
    if s != [] {
      FilterSplits(p, q, s[1..]);
      assert s == [s[0]] + s[1..];
    }
  }

  // ----- Sorting by two scores is partitioning -----

  datatype Scored = Scored(cand: Candidate, score: int)

  predicate LowerScore(a: Scored, b: Scored) {
    a.score < b.score
  }

  function Cands(s: seq<Scored>): (r: seq<Candidate>)
    ensures |r| == |s| && forall i :: 0 <= i < |s| ==> r[i] == s[i].cand
  {
    if s == [] then [] else [s[0].cand] + Cands(s[1..])
  }

  function HostScore(mode: NatMode): int {
    if mode.DifferentSites? then 20 else 0
  }

  const SRFLX_SCORE := 10

  function ScoreOf(mode: NatMode, c: Candidate): int {
    if c.kind.Srflx? then SRFLX_SCORE else HostScore(mode)
  }

  function WithScores(mode: NatMode, cands: seq<Candidate>): (r: seq<Scored>)
    ensures |r| == |cands| && forall i :: 0 <= i < |cands| ==> r[i] == Scored(cands[i], ScoreOf(mode, cands[i]))
  {
    if cands == [] then [] else [Scored(cands[0], ScoreOf(mode, cands[0]))] + WithScores(mode, cands[1..])
  }

  function HasScore(k: int): Scored -> bool {
    (s: Scored) => s.score == k
  }

  ghost predicate AllScore(s: seq<Scored>, k: int) {
    forall i :: 0 <= i < |s| ==> s[i].score == k
  }

  lemma {:induction false} FilterScore(s: seq<Scored>, k: int)
    ensures AllScore(Filter(HasScore(k), s), k)
  {
    if s != [] {
      FilterScore(s[1..], k);
    }
  }

  lemma {:induction false} InsertPast(x: Scored, early: seq<Scored>, late: seq<Scored>)
    requires forall i :: 0 <= i < |early| ==> LowerScore(early[i], x)
    ensures InsertFirst(LowerScore, x, early + late) == early + InsertFirst(LowerScore, x, late)
  {
    if early == [] {
      assert early + late == late;
    } else {
      var all, rest := early + late, early[1..];
      InsertPast(x, rest, late);
      assert all[0] == early[0] && all[1..] == rest + late;
    }
  }

  lemma InsertFront(x: Scored, s: seq<Scored>)
    requires forall i :: 0 <= i < |s| ==> !LowerScore(s[i], x)
    ensures InsertFirst(LowerScore, x, s) == [x] + s
  {
  }

  lemma InsertByScore(x: Scored, early: seq<Scored>, late: seq<Scored>, lo: int, hi: int)
    requires lo < hi && AllScore(early, lo) && AllScore(late, hi) && (x.score == lo || x.score == hi)
    ensures InsertFirst(LowerScore, x, early + late) == if x.score == lo then [x] + early + late else early + [x] + late
  {
    hide InsertFirst;
    if x.score == lo {
      InsertFront(x, early + late);
      assert [x] + (early + late) == [x] + early + late;
    } else {
      InsertPast(x, early, late);
      InsertFront(x, late);
      assert early + ([x] + late) == early + [x] + late;
    }
  }

  lemma {:induction false} TwoScoreSort(s: seq<Scored>, lo: int, hi: int)
    requires lo < hi && forall i :: 0 <= i < |s| ==> s[i].score == lo || s[i].score == hi
    ensures StableSort(LowerScore, s) == Filter(HasScore(lo), s) + Filter(HasScore(hi), s)
  {
    hide InsertFirst, LowerScore;
    if s != [] {
      var early, late := Filter(HasScore(lo), s[1..]), Filter(HasScore(hi), s[1..]);
      TwoScoreSort(s[1..], lo, hi);
      FilterScore(s[1..], lo);
      FilterScore(s[1..], hi);
      InsertByScore(s[0], early, late, lo, hi);
      if s[0].score == lo {
        assert Filter(HasScore(hi), s) == late;
      } else {
        assert Filter(HasScore(lo), s) == early;
        assert early + [s[0]] + late == early + ([s[0]] + late);
      }
    }
  }

  lemma {:induction false} FilterScored(mode: NatMode, cands: seq<Candidate>, k: int, p: Candidate -> bool)
    requires forall i :: 0 <= i < |cands| ==> (ScoreOf(mode, cands[i]) == k <==> p(cands[i]))
    ensures Cands(Filter(HasScore(k), WithScores(mode, cands))) == Filter(p, cands)
  {
    if cands != [] {
      FilterScored(mode, cands[1..], k, p);
      assert WithScores(mode, cands)[1..] == WithScores(mode, cands[1..]);
    }
  }

  lemma CandsConcat(a: seq<Scored>, b: seq<Scored>)
    ensures Cands(a + b) == Cands(a) + Cands(b)
  {
  }

  lemma SortIsRanked(mode: NatMode, cands: seq<Candidate>)
    ensures Cands(StableSort(LowerScore, WithScores(mode, cands))) == Ranked(mode, cands)
  {
    var s, host := WithScores(mode, cands), HostScore(mode);
    FilterScored(mode, cands, SRFLX_SCORE, IsSrflx);
    FilterScored(mode, cands, host, NotSrflx);
    if mode.DifferentSites? {
      TwoScoreSort(s, SRFLX_SCORE, host);
      CandsConcat(Filter(HasScore(SRFLX_SCORE), s), Filter(HasScore(host), s));
    } else {
      TwoScoreSort(s, host, SRFLX_SCORE);
      CandsConcat(Filter(HasScore(host), s), Filter(HasScore(SRFLX_SCORE), s));
    }
  }

  // ----- The methods -----

  /** `kept := cands[:0]` then append, over the copy's own array. */
  method DropUndialable(net: NetLib, mode: NatMode, cands: array<Candidate>) returns (m: nat)
    modifies cands
    ensures m <= cands.Length
    ensures cands[..m] == Filter(DialableIn(net, mode), old(cands[..]))
  {
    ghost var was, keep := cands[..], DialableIn(net, mode);
    m := 0;
    for i := 0 to cands.Length
      invariant m <= i
      invariant cands[..m] == Filter(keep, was[..i])
      invariant forall k :: i <= k < cands.Length ==> cands[k] == was[k]
    {
      var c := cands[i];
      assert was[..i + 1] == was[..i] + [c];
      FilterSnoc(keep, was[..i], c);
      if !(mode.DifferentSites? && c.kind.Host? && IsPrivate(net, c)) {
        cands[m] := c;
        m := m + 1;
      }
    }
    assert was[..cands.Length] == was;
  }

  /** Ranks a peer's candidates for dialling. */
  method OrderEndpoints(net: NetLib, mine: seq<Candidate>, theirs: seq<Candidate>) returns (r: seq<Candidate>)
    ensures r == DialOrder(net, mine, theirs) && RightOrder(net, mine, theirs, r)
  {
    DialOrderIsRight(net, mine, theirs);
    var mode := SameNAT(net, mine, theirs);
    var copy := new Candidate[|theirs|](i requires 0 <= i < |theirs| => theirs[i]);
    assert copy[..] == theirs;
    var m := DropUndialable(net, mode, copy);
    r := RankByScore(mode, copy[..m]);
  }

  method RankByScore(mode: NatMode, kept: seq<Candidate>) returns (r: seq<Candidate>)
    ensures r == Ranked(mode, kept)
  {
    var scored := new Scored[|kept|](i requires 0 <= i < |kept| => Scored(kept[i], 0));
    for i := 0 to |kept|
      invariant forall k :: 0 <= k < i ==> scored[k] == Scored(kept[k], ScoreOf(mode, kept[k]))
      invariant forall k :: i <= k < |kept| ==> scored[k].cand == kept[k]
    {
      scored[i] := Scored(scored[i].cand, if scored[i].cand.kind.Srflx? then SRFLX_SCORE else HostScore(mode));
    }
    assert scored[..] == WithScores(mode, kept);
    SliceStable(scored, LowerScore);
    SortIsRanked(mode, kept);
    r := Cands(scored[..]);
  }

  lemma RankedMembers(mode: NatMode, cands: seq<Candidate>)
    ensures multiset(Ranked(mode, cands)) == multiset(cands) && |Ranked(mode, cands)| == |cands|
  {
    FilterSplits(IsSrflx, NotSrflx, cands);
    assert |Ranked(mode, cands)| == |multiset(Ranked(mode, cands))|;
  }

  // ----- What the order is, from the candidates -----

  /** The list's first reflexive candidate. */
  ghost predicate FirstSrflx(cands: seq<Candidate>, i: int) {
    0 <= i < |cands| && cands[i].kind.Srflx? && forall j :: 0 <= j < i ==> !cands[j].kind.Srflx?
  }

  /** The hosts of the two lists' first reflexive candidates are there and differ. */
  ghost predicate AcrossSites(net: NetLib, mine: seq<Candidate>, theirs: seq<Candidate>) {
    exists i, j :: FirstSrflx(mine, i) && FirstSrflx(theirs, j) &&
                   net.hostOnly(mine[i].addr) != "" && net.hostOnly(theirs[j].addr) != "" && net.hostOnly(mine[i].addr) != net.hostOnly(theirs[j].addr)
  }

  ghost predicate PrivateText(net: NetLib, addr: string) {
    net.parseIP(net.hostOnly(addr)).Some? && Overlay.IsPrivateIP(net.parseIP(net.hostOnly(addr)).value)
  }

  ghost predicate SrflxFirst(r: seq<Candidate>) {
    forall a, b :: 0 <= a < b < |r| && r[b].kind.Srflx? ==> r[a].kind.Srflx?
  }

  ghost predicate SrflxLast(r: seq<Candidate>) {
    forall a, b :: 0 <= a < b < |r| && r[a].kind.Srflx? ==> r[b].kind.Srflx?
  }

  /**
    Across sites the private host candidates are gone and the reflexive ones
    come first; otherwise all are there and the reflexive ones come last. Both
    kinds keep the order they were advertised in.
   */
  ghost predicate RightOrder(net: NetLib, mine: seq<Candidate>, theirs: seq<Candidate>, r: seq<Candidate>) {
    var across := AcrossSites(net, mine, theirs);
    && (forall c: Candidate :: multiset(r)[c] == if across && c.kind.Host? && PrivateText(net, c.addr) then 0 else multiset(theirs)[c])
    && (if across then SrflxFirst(r) else SrflxLast(r))
    && Filter(IsSrflx, r) == Filter(IsSrflx, theirs) && Filter(NotSrflx, r) == Filter(OtherKept(net, across), theirs)
  }

  ghost function OtherKept(net: NetLib, across: bool): Candidate -> bool {
    (c: Candidate) => !c.kind.Srflx? && !(across && c.kind.Host? && PrivateText(net, c.addr))
  }

  lemma {:induction false} SrflxIPIs(net: NetLib, cands: seq<Candidate>)
    ensures (forall i :: FirstSrflx(cands, i) ==> SrflxIP(net, cands) == net.hostOnly(cands[i].addr))
    ensures (forall i :: 0 <= i < |cands| ==> !cands[i].kind.Srflx?) ==> SrflxIP(net, cands) == ""
    ensures (exists i :: FirstSrflx(cands, i)) || SrflxIP(net, cands) == ""
  {
    if cands != [] && !cands[0].kind.Srflx? {
      SrflxIPIs(net, cands[1..]);
      assert forall i :: FirstSrflx(cands, i) ==> FirstSrflx(cands[1..], i - 1);
      if i :| FirstSrflx(cands[1..], i) { assert FirstSrflx(cands, i + 1); }
    } else if cands != [] {
      assert FirstSrflx(cands, 0);
    }
  }

  lemma AcrossSitesIs(net: NetLib, mine: seq<Candidate>, theirs: seq<Candidate>)
    ensures SameNAT(net, mine, theirs).DifferentSites? <==> AcrossSites(net, mine, theirs)
  {
    SrflxIPIs(net, mine);
    SrflxIPIs(net, theirs);
  }

  lemma {:induction false} FilterCounts<T>(keep: T -> bool, s: seq<T>, x: T)
    ensures multiset(Filter(keep, s))[x] == if keep(x) then multiset(s)[x] else 0
  {
    if s != [] {
      FilterCounts(keep, s[1..], x);
      assert s == [s[0]] + s[1..];
    }
  }

  lemma FilterCons<T>(keep: T -> bool, x: T, s: seq<T>)
    ensures Filter(keep, [x] + s) == (if keep(x) then [x] else []) + Filter(keep, s)
  {
    assert ([x] + s)[1..] == s;
  }

  /** Filtering twice is filtering by both. */
  lemma {:induction false} FilterTwice<T>(p: T -> bool, q: T -> bool, pq: T -> bool, s: seq<T>)
    requires forall x :: x in s ==> (pq(x) <==> p(x) && q(x))
    ensures Filter(p, Filter(q, s)) == Filter(pq, s)
  {
    if s != [] {
      FilterTwice(p, q, pq, s[1..]);
      FilterCons(p, s[0], Filter(q, s[1..]));
      FilterCons(q, s[0], s[1..]);
      FilterCons(pq, s[0], s[1..]);
      hide Filter;
      assert [s[0]] + s[1..] == s && s[0] in s;
      assert Filter(q, s) == if q(s[0]) then [s[0]] + Filter(q, s[1..]) else Filter(q, s[1..]);
    }
  }

  lemma {:induction false} FilterConcat<T>(p: T -> bool, a: seq<T>, b: seq<T>)
    ensures Filter(p, a + b) == Filter(p, a) + Filter(p, b)
  {
    if b == [] {
      assert a + b == a;
    } else {
      var front, x := b[..|b| - 1], b[|b| - 1];
      FilterConcat(p, a, front);
      FilterSnoc(p, a + front, x);
      FilterSnoc(p, front, x);
      hide Filter;
      assert front + [x] == b && (a + front) + [x] == a + b;
    }
  }

  lemma FilterKinds(s: seq<Candidate>)
    ensures forall i :: 0 <= i < |Filter(IsSrflx, s)| ==> Filter(IsSrflx, s)[i].kind.Srflx?
    ensures forall i :: 0 <= i < |Filter(NotSrflx, s)| ==> !Filter(NotSrflx, s)[i].kind.Srflx?
  {
    forall c | c in Filter(IsSrflx, s) ensures c.kind.Srflx? { FilterMembers(IsSrflx, s, c); }
    forall c | c in Filter(NotSrflx, s) ensures !c.kind.Srflx? { FilterMembers(NotSrflx, s, c); }
  }

  /** Ranking separates the two kinds and keeps the order within each. */
  lemma RankedKinds(mode: NatMode, cands: seq<Candidate>)
    ensures var r := Ranked(mode, cands);
            && (if mode.DifferentSites? then SrflxFirst(r) else SrflxLast(r))
            && Filter(IsSrflx, r) == Filter(IsSrflx, cands) && Filter(NotSrflx, r) == Filter(NotSrflx, cands)
  {
    hide Filter;
    var a, b := Filter(IsSrflx, cands), Filter(NotSrflx, cands);
    FilterKinds(cands);
    FilterConcat(IsSrflx, a, b);
    FilterConcat(NotSrflx, a, b);
    FilterConcat(IsSrflx, b, a);
    FilterConcat(NotSrflx, b, a);
    FilterAll(IsSrflx, a);
    FilterAll(NotSrflx, b);
    FilterNone(IsSrflx, b);
    FilterNone(NotSrflx, a);
    assert a + [] == a && [] + a == a && b + [] == b && [] + b == b;
  }

  lemma {:induction false} FilterNone<T>(keep: T -> bool, s: seq<T>)
    requires forall i :: 0 <= i < |s| ==> !keep(s[i])
    ensures Filter(keep, s) == []
  {
    if s != [] { FilterNone(keep, s[1..]); }
  }

  /** The order that is computed is the one promised. */
  lemma DialOrderIsRight(net: NetLib, mine: seq<Candidate>, theirs: seq<Candidate>)
    ensures RightOrder(net, mine, theirs, DialOrder(net, mine, theirs))
  {
    var mode, across := SameNAT(net, mine, theirs), AcrossSites(net, mine, theirs);
    AcrossSitesIs(net, mine, theirs);
    hide AcrossSites, SameNAT, Filter, Ranked;
    var kept := Filter(DialableIn(net, mode), theirs);
    var r := Ranked(mode, kept);
    RankedKinds(mode, kept);
    RankedMembers(mode, kept);
    forall c: Candidate ensures multiset(r)[c] == if across && c.kind.Host? && PrivateText(net, c.addr) then 0 else multiset(theirs)[c] {
      FilterCounts(DialableIn(net, mode), theirs, c);
    }
    FilterTwice(IsSrflx, DialableIn(net, mode), IsSrflx, theirs);
    FilterTwice(NotSrflx, DialableIn(net, mode), OtherKept(net, across), theirs);
  }

  /** Across sites nothing private and local is dialled; otherwise everything advertised is. */
  lemma DialOrderMembers(net: NetLib, mine: seq<Candidate>, theirs: seq<Candidate>, c: Candidate)
    ensures c in DialOrder(net, mine, theirs) <==> c in theirs && !(AcrossSites(net, mine, theirs) && c.kind.Host? && PrivateText(net, c.addr))
    ensures !AcrossSites(net, mine, theirs) ==> multiset(DialOrder(net, mine, theirs)) == multiset(theirs)
  {
    var order := DialOrder(net, mine, theirs);
    DialOrderIsRight(net, mine, theirs);
    hide DialOrder, AcrossSites;
    assert c in order <==> multiset(order)[c] > 0;
    assert c in theirs <==> multiset(theirs)[c] > 0;
  }

  predicate ContainsAddr(cands: seq<Candidate>, addr: string) {
    exists i :: 0 <= i < |cands| && cands[i].addr == addr
  }

  /** The dial order, preceded by the endpoint the kernel observed when that adds something usable. */
  function OrderedFor(net: NetLib, obs: Option<Udp>, mine: seq<Candidate>, theirs: seq<Candidate>): seq<Candidate> {
    var order := DialOrder(net, mine, theirs);
    if obs.None? || !obs.value.hasIP || obs.value.linkLocal then order
    else
      var cand := Candidate(Prflx, obs.value.text);
      if ContainsAddr(order, cand.addr) then order
      else if SameNAT(net, mine, theirs).DifferentSites? && IsPrivate(net, cand) then order
      else [cand] + order
  }

  /** `orderedFor`: the dial order with the kernel's observation put before it. */
  method DialList(net: NetLib, obs: Option<Udp>, mine: seq<Candidate>, theirs: seq<Candidate>) returns (r: seq<Candidate>)
    ensures r == OrderedFor(net, obs, mine, theirs)
  {
    hide RightOrder, DialOrder, SameNAT, IsPrivate;
    r := OrderEndpoints(net, mine, theirs);
    if obs.None? || !obs.value.hasIP || obs.value.linkLocal { return; }
    var cand := Candidate(Prflx, obs.value.text);
    for i := 0 to |r|
      invariant forall k :: 0 <= k < i ==> r[k].addr != cand.addr
    {
      if r[i].addr == cand.addr { return; }
    }
    if SameNAT(net, mine, theirs).DifferentSites? && IsPrivate(net, cand) { return; }
    r := [cand] + r;
  }

  /**
    At most one address is added, at the front and new; across sites no
    private address is dialled that was not advertised, or only as a host
    address. It is added exactly when the kernel observed a usable address that
    is not in the order already and, across sites, is not private.
   */
  lemma OrderedForIsSafe(net: NetLib, obs: Option<Udp>, mine: seq<Candidate>, theirs: seq<Candidate>)
    ensures var order, full := DialOrder(net, mine, theirs), OrderedFor(net, obs, mine, theirs);
            if && obs.Some? && obs.value.hasIP && !obs.value.linkLocal
               && (forall c :: c in order ==> c.addr != obs.value.text)
               && !(AcrossSites(net, mine, theirs) && PrivateText(net, obs.value.text))
            then |full| == |order| + 1 && full[1..] == order && full[0].addr == obs.value.text && full[0].kind.Prflx?
            else full == order
    ensures AcrossSites(net, mine, theirs) ==>
              forall c :: c in OrderedFor(net, obs, mine, theirs) && PrivateText(net, c.addr) ==> c in theirs && !c.kind.Host?
  {
    AcrossSitesIs(net, mine, theirs);
    hide AcrossSites, SameNAT, DialOrder;
    var order := DialOrder(net, mine, theirs);
    assert obs.Some? && ContainsAddr(order, obs.value.text) ==> exists i :: 0 <= i < |order| && order[i] in order && order[i].addr == obs.value.text;
    forall c | c in OrderedFor(net, obs, mine, theirs) && PrivateText(net, c.addr) && AcrossSites(net, mine, theirs)
      ensures c in theirs && !c.kind.Host?
    {
      DialOrderMembers(net, mine, theirs, c);
    }
  }
}
