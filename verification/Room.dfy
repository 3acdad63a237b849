/**
  The chat room's poll (internal/engine/engine.go): read, rebuild the window,
  deliver what is new once, and refresh the window so it outlives the TTL.
 */
module Rooms {
  import opened Wrappers
  import opened MockStores
  import opened ReliableStores
  import opened Envelopes
  import opened Windows
  import Rosters

  datatype Contact = Contact(pk: nat, name: string)

  function Decoder(key: string): RoomValue -> Option<Msg> {
    v => DecodeEnvelope(key, v)
  }

  function Decoded(key: string, vals: seq<RoomValue>): seq<Msg> {
    Rosters.Chosen(Decoder(key), vals)
  }

  function NewMessages(top: seq<Msg>, seen: set<string>): seq<Msg> {
    if top == [] then []
    else NewMessages(top[..|top| - 1], seen) + if ID(top[|top| - 1]) in seen then [] else [top[|top| - 1]]
  }

  function NewContacts(top: seq<Msg>, known: set<nat>, senderOf: string -> Option<nat>): seq<Contact> {
    if top == [] then []
    else
      var e := top[|top| - 1];
      NewContacts(top[..|top| - 1], known, senderOf) +
      match senderOf(e.pk) { case Some(pk) => if pk in known then [] else [Contact(pk, e.name)] case None => [] }
  }

  function Opened(msgs: seq<Msg>, opens: Msg -> bool): seq<Msg> {
    if msgs == [] then []
    else Opened(msgs[..|msgs| - 1], opens) + if opens(msgs[|msgs| - 1]) then [msgs[|msgs| - 1]] else []
  }

  ghost function IDs(msgs: seq<Msg>): set<string> {
    set m | m in msgs :: ID(m)
  }

  // ----- Delivery -----

  lemma {:induction false} NewMessagesMembers(top: seq<Msg>, seen: set<string>, m: Msg)
    ensures m in NewMessages(top, seen) <==> m in top && ID(m) !in seen
  {
    hide ID;
    if top != [] {
      NewMessagesMembers(top[..|top| - 1], seen, m);
      assert top == top[..|top| - 1] + [top[|top| - 1]];
    }
  }

  lemma {:induction false} NewMessagesDistinct(top: seq<Msg>, seen: set<string>)
    requires DistinctIDs(top)
    ensures DistinctIDs(NewMessages(top, seen))
  {
    hide ID;
    if top != [] {
      var front, e := top[..|top| - 1], top[|top| - 1];
      NewMessagesDistinct(front, seen);
      forall i | 0 <= i < |NewMessages(front, seen)| ensures ID(NewMessages(front, seen)[i]) != ID(e) {
        var m := NewMessages(front, seen)[i];
        NewMessagesMembers(front, seen, m);
        var j :| 0 <= j < |front| && front[j] == m;
        assert top[j] == m;
      }
    }
  }

  lemma {:induction false} OpenedMembers(msgs: seq<Msg>, opens: Msg -> bool, m: Msg)
    ensures m in Opened(msgs, opens) <==> m in msgs && opens(m)
  {
    if msgs != [] {
      OpenedMembers(msgs[..|msgs| - 1], opens, m);
      assert msgs == msgs[..|msgs| - 1] + [msgs[|msgs| - 1]];
    }
  }

  lemma {:induction false} OpenedDistinct(msgs: seq<Msg>, opens: Msg -> bool)
    requires DistinctIDs(msgs)
    ensures DistinctIDs(Opened(msgs, opens))
  {
    hide ID;
    if msgs != [] {
      var front, e := msgs[..|msgs| - 1], msgs[|msgs| - 1];
      OpenedDistinct(front, opens);
      forall i | 0 <= i < |Opened(front, opens)| ensures ID(Opened(front, opens)[i]) != ID(e) {
        var m := Opened(front, opens)[i];
        OpenedMembers(front, opens, m);
        var j :| 0 <= j < |front| && front[j] == m;
        assert msgs[j] == m;
      }
    }
  }

  /** Appending what is new and openable keeps every delivery a first one. */
  lemma DeliveriesStayUnique(delivered: seq<Msg>, seen: set<string>, top: seq<Msg>, opens: Msg -> bool)
    requires DistinctIDs(delivered) && IDs(delivered) <= seen && DistinctIDs(top)
    ensures var after := delivered + Opened(NewMessages(top, seen), opens);
            DistinctIDs(after) && IDs(after) <= seen + IDs(top)
  {
    hide ID;
    var added := Opened(NewMessages(top, seen), opens);
    NewMessagesDistinct(top, seen);
    OpenedDistinct(NewMessages(top, seen), opens);
    forall m | m in added ensures m in top && ID(m) !in seen {
      OpenedMembers(NewMessages(top, seen), opens, m);
      NewMessagesMembers(top, seen, m);
    }
    forall i, j | 0 <= i < |delivered| && 0 <= j < |added| ensures ID(delivered[i]) != ID(added[j]) {
      assert delivered[i] in delivered && ID(delivered[i]) in IDs(delivered);
      assert added[j] in added;
    }
    forall m | m in delivered + added ensures ID(m) in seen + IDs(top) {
      if m in delivered { assert ID(m) in IDs(delivered); } else { assert m in top; }
    }
  }

  lemma {:induction false} NewContactsAreNew(top: seq<Msg>, known: set<nat>, senderOf: string -> Option<nat>, c: Contact)
    ensures c in NewContacts(top, known, senderOf) <==>
            c.pk !in known && exists m :: m in top && senderOf(m.pk) == Some(c.pk) && m.name == c.name
  {
    if top != [] {
      var front, e := top[..|top| - 1], top[|top| - 1];
      NewContactsAreNew(front, known, senderOf, c);
      assert top == front + [e];
      if m :| m in top && senderOf(m.pk) == Some(c.pk) && m.name == c.name {
        assert m in front || m == e;
      }
      if m :| m in front && senderOf(m.pk) == Some(c.pk) && m.name == c.name {
        assert m in top;
      }
    }
  }

  // ----- The room -----

  const TWO_64: nat := 0x1_0000_0000_0000_0000

  /** The calls are those of publishing the message, which succeeded or not. */
  ghost predicate SentAs(calls: seq<Call<RoomValue>>, key: string, m: Msg, retries: nat, ok: bool) {
    exists r: Outcome :: PublishRan(calls, key, Marshal(key, m), retries, r) && r.Published? == ok
  }

  /** What a room remembers: IDs seen, messages delivered, contacts known and contacts announced. */
  datatype Memory = Memory(seen: set<string>, delivered: seq<Msg>, known: set<nat>, contacts: seq<Contact>)

  ghost function MemoryOf(room: Room): Memory
    reads room
  {
    Memory(room.seen.Keys, room.delivered, room.contactSeen, room.contacts)
  }

  /** After a poll that showed this window: what was new in it has been delivered and announced, and all of it is seen. */
  ghost function Shown(senderOf: string -> Option<nat>, opens: Msg -> bool, before: Memory, window: seq<Msg>): Memory {
    var said := NewContacts(window, before.known, senderOf);
    Memory(before.seen + IDs(window), before.delivered + Opened(NewMessages(window, before.seen), opens),
           before.known + (set c | c in said :: c.pk), before.contacts + said)
  }

  /** The one comes before the other in the window. */
  ghost predicate Before(window: seq<Msg>, m: Msg, m': Msg) {
    exists a, b :: 0 <= a < b < |window| && window[a] == m && window[b] == m'
  }

  /**
    What a poll that showed this window does to the memory. It delivers the
    windowed messages that open and whose IDs were not seen, in window order;
    it announces the windowed senders that were not known; and the IDs and
    senders in the window are all that it adds to those seen and known.
   */
  ghost predicate Emitted(senderOf: string -> Option<nat>, opens: Msg -> bool, before: Memory, after: Memory, window: seq<Msg>) {
    && before.delivered <= after.delivered && before.contacts <= after.contacts
    && (forall m :: m in after.delivered[|before.delivered|..] <==> m in window && ID(m) !in before.seen && opens(m))
    && (forall i, j :: |before.delivered| <= i < j < |after.delivered| ==> Before(window, after.delivered[i], after.delivered[j]))
    && (forall id :: id in after.seen <==> id in before.seen || exists m :: m in window && ID(m) == id)
    && (forall c :: c in after.contacts[|before.contacts|..] <==>
          c.pk !in before.known && exists m :: m in window && senderOf(m.pk) == Some(c.pk) && m.name == c.name)
    && (forall pk :: pk in after.known <==> pk in before.known || exists m :: m in window && senderOf(m.pk) == Some(pk))
  }

  lemma BeforeSnoc(window: seq<Msg>, e: Msg, m: Msg, m': Msg)
    requires Before(window, m, m') || (m in window && m' == e)
    ensures Before(window + [e], m, m')
  {
    var all := window + [e];
    if Before(window, m, m') {
      var a, b :| 0 <= a < b < |window| && window[a] == m && window[b] == m';
      assert all[a] == m && all[b] == m';
    } else {
      var a :| 0 <= a < |window| && window[a] == m;
      assert all[a] == m && all[|window|] == m';
    }
  }

  /** What is new and opens keeps the window's order. */
  lemma {:induction false} NewInOrder(window: seq<Msg>, seen: set<string>, opens: Msg -> bool, i: nat, j: nat)
    requires i < j < |Opened(NewMessages(window, seen), opens)|
    ensures Before(window, Opened(NewMessages(window, seen), opens)[i], Opened(NewMessages(window, seen), opens)[j])
  {
    hide ID;
    var added := Opened(NewMessages(window, seen), opens);
    var front, e := window[..|window| - 1], window[|window| - 1];
    var earlier := Opened(NewMessages(front, seen), opens);
    OpenedSnoc(NewMessages(front, seen), opens, e);
    assert window == front + [e];
    assert NewMessages(front, seen) + [] == NewMessages(front, seen);
    assert added == earlier + if ID(e) !in seen && opens(e) then [e] else [];
    hide Opened, NewMessages, Before;
    if j < |earlier| {
      NewInOrder(front, seen, opens, i, j);
      BeforeSnoc(front, e, added[i], added[j]);
    } else {
      OpenedMembers(NewMessages(front, seen), opens, earlier[i]);
      NewMessagesMembers(front, seen, earlier[i]);
      BeforeSnoc(front, e, added[i], added[j]);
    }
  }

  lemma OpenedSnoc(msgs: seq<Msg>, opens: Msg -> bool, e: Msg)
    ensures Opened(msgs + [e], opens) == Opened(msgs, opens) + if opens(e) then [e] else []
  {
    assert (msgs + [e])[..|msgs|] == msgs;
  }

  lemma NewlyDelivered(window: seq<Msg>, seen: set<string>, opens: Msg -> bool)
    ensures var added := Opened(NewMessages(window, seen), opens);
            && (forall m :: m in added <==> m in window && ID(m) !in seen && opens(m))
            && (forall i, j :: 0 <= i < j < |added| ==> Before(window, added[i], added[j]))
  {
    hide ID, Opened, NewMessages, Before;
    var added := Opened(NewMessages(window, seen), opens);
    forall m ensures m in added <==> m in window && ID(m) !in seen && opens(m) {
      OpenedMembers(NewMessages(window, seen), opens, m);
      NewMessagesMembers(window, seen, m);
    }
    forall i, j | 0 <= i < j < |added| ensures Before(window, added[i], added[j]) {
      NewInOrder(window, seen, opens, i, j);
    }
  }

  lemma NewlyAnnounced(window: seq<Msg>, known: set<nat>, senderOf: string -> Option<nat>)
    ensures var said := NewContacts(window, known, senderOf);
            && (forall c :: c in said <==> c.pk !in known && exists m :: m in window && senderOf(m.pk) == Some(c.pk) && m.name == c.name)
            && (forall pk :: pk in known + (set c | c in said :: c.pk) <==> pk in known || exists m :: m in window && senderOf(m.pk) == Some(pk))
  {
    hide NewContacts;
    var said := NewContacts(window, known, senderOf);
    forall c ensures c in said <==> c.pk !in known && exists m :: m in window && senderOf(m.pk) == Some(c.pk) && m.name == c.name {
      NewContactsAreNew(window, known, senderOf, c);
    }
    forall pk ensures pk in known + (set c | c in said :: c.pk) <==> pk in known || exists m :: m in window && senderOf(m.pk) == Some(pk) {
      if m :| m in window && senderOf(m.pk) == Some(pk) && pk !in known {
        assert Contact(pk, m.name) in said;
      }
    }
  }

  lemma ShownIsEmitted(senderOf: string -> Option<nat>, opens: Msg -> bool, before: Memory, window: seq<Msg>)
    ensures Emitted(senderOf, opens, before, Shown(senderOf, opens, before, window), window)
  {
    hide ID, Opened, NewMessages, NewContacts, Before;
    NewlyDelivered(window, before.seen, opens);
    NewlyAnnounced(window, before.known, senderOf);
    var after, added, said := Shown(senderOf, opens, before, window), Opened(NewMessages(window, before.seen), opens), NewContacts(window, before.known, senderOf);
    assert after.delivered[|before.delivered|..] == added && after.contacts[|before.contacts|..] == said;
    forall i, j | |before.delivered| <= i < j < |after.delivered| ensures Before(window, after.delivered[i], after.delivered[j]) {
      assert Before(window, added[i - |before.delivered|], added[j - |before.delivered|]);
    }
  }

  /** What Commit leaves in the memory. */
  lemma CommitIsShown(senderOf: string -> Option<nat>, opens: Msg -> bool, before: Memory, window: seq<Msg>, said: seq<Contact>, after: Memory)
    requires DistinctIDs(before.delivered) && IDs(before.delivered) <= before.seen && DistinctIDs(window)
    requires forall c :: c in before.contacts ==> c.pk in before.known
    requires said == NewContacts(window, before.known, senderOf)
    requires after == Memory(before.seen + IDs(window), before.delivered + Opened(NewMessages(window, before.seen), opens),
                             before.known + (set c | c in said :: c.pk), before.contacts + said)
    ensures after == Shown(senderOf, opens, before, window) && Emitted(senderOf, opens, before, after, window)
    ensures DistinctIDs(after.delivered) && IDs(after.delivered) <= after.seen
    ensures forall c :: c in after.contacts ==> c.pk in after.known
  {
    hide ID, Opened, NewMessages, NewContacts, DistinctIDs, IDs, Emitted;
    DeliveriesStayUnique(before.delivered, before.seen, window, opens);
    ShownIsEmitted(senderOf, opens, before, window);
  }

  /** Where the window has a message that this contact may come from. */
  ghost function Mentions(top: seq<Msg>, senderOf: string -> Option<nat>, c: Contact): set<nat> {
    set i: nat | i < |top| && senderOf(top[i].pk) == Some(c.pk) && top[i].name == c.name
  }

  lemma MentionsSnoc(top: seq<Msg>, senderOf: string -> Option<nat>, c: Contact, e: Msg)
    ensures |Mentions(top + [e], senderOf, c)| ==
            |Mentions(top, senderOf, c)| + if senderOf(e.pk) == Some(c.pk) && e.name == c.name then 1 else 0
  {
    var more: set<nat> := if senderOf(e.pk) == Some(c.pk) && e.name == c.name then {|top|} else {};
    assert Mentions(top + [e], senderOf, c) == Mentions(top, senderOf, c) + more;
  }

  /** A sender who is new is announced once for every windowed message of his under that name. */
  lemma {:induction false} ContactPerMessage(top: seq<Msg>, known: set<nat>, senderOf: string -> Option<nat>, c: Contact)
    ensures multiset(NewContacts(top, known, senderOf))[c] == if c.pk in known then 0 else |Mentions(top, senderOf, c)|
  {
    if top == [] {
      assert Mentions(top, senderOf, c) == {};
    } else {
      var front, e := top[..|top| - 1], top[|top| - 1];
      ContactPerMessage(front, known, senderOf, c);
      MentionsSnoc(front, senderOf, c, e);
      NewContactsSnoc(front, known, senderOf, e);
      hide Mentions, NewContacts;
      assert top == front + [e];
    }
  }

  lemma NewContactsSnoc(front: seq<Msg>, known: set<nat>, senderOf: string -> Option<nat>, e: Msg)
    ensures NewContacts(front + [e], known, senderOf) == NewContacts(front, known, senderOf) +
              if senderOf(e.pk).None? || senderOf(e.pk).value in known then [] else [Contact(senderOf(e.pk).value, e.name)]
  {
    assert (front + [e])[..|front|] == front;
  }

  /** What one Reconcile read, and the store calls of its refresh. */
  datatype Round = Round(vals: seq<RoomValue>, envs: seq<Msg>, at: int, calls: seq<Call<RoomValue>>)

  function OwnOf(top: seq<Msg>, me: string): seq<Msg> {
    if top == [] then []
    else OwnOf(top[..|top| - 1], me) + if top[|top| - 1].pk == me then [top[|top| - 1]] else []
  }

  /** The part of the window that a poll refreshes: all of it, or only our own messages. */
  function ToRefresh(top: seq<Msg>, anyMember: bool, me: string): seq<Msg> {
    if anyMember then top else OwnOf(top, me)
  }

  lemma {:induction false} ToRefreshMembers(top: seq<Msg>, anyMember: bool, me: string, m: Msg)
    ensures m in ToRefresh(top, anyMember, me) <==> m in top && (anyMember || m.pk == me)
  {
    if !anyMember && top != [] {
      ToRefreshMembers(top[..|top| - 1], anyMember, me, m);
      assert top == top[..|top| - 1] + [top[|top| - 1]];
    }
  }

  class Room {
    const key: string
    const me: string
    const windowN: nat
    const anyMember: bool
    const senderOf: string -> Option<nat>
    const opens: Msg -> bool
    const store: ReliableStore<RoomValue>
    var seqno: nat                // the 64 bits of the sequence counter
    var seen: map<string, Msg>
    var window: seq<Msg>
    var contactSeen: set<nat>
    var delivered: seq<Msg>
    var contacts: seq<Contact>

    ghost predicate Valid()
      reads this
    {
      && DistinctIDs(delivered) && IDs(delivered) <= seen.Keys
      && (forall c :: c in contacts ==> c.pk in contactSeen)
    }

    constructor (key: string, me: string, windowN: nat, anyMember: bool, senderOf: string -> Option<nat>,
                 opens: Msg -> bool, store: ReliableStore<RoomValue>, nanos: nat)
      ensures Valid() && this.key == key && this.windowN == windowN && this.anyMember == anyMember && this.store == store
      ensures seen == map[] && window == [] && delivered == [] && contacts == [] && contactSeen == {}
      ensures this.me == me && this.senderOf == senderOf && this.opens == opens
      ensures seqno == nanos % 0x1_0000_0000_0000_0000
    {
      seqno := nanos % TWO_64;
      this.key, this.me, this.windowN, this.anyMember := key, me, windowN, anyMember;
      this.senderOf, this.opens, this.store := senderOf, opens, store;
      seen, window, contactSeen, delivered, contacts := map[], [], {}, [], [];
    }

    /** What the window shows now: its messages that open, oldest first. */
    method Current() returns (shown: seq<Msg>)
      ensures shown == Opened(window, opens)
    {
      shown := EmitOpened(window);
    }

    /** Posts the next message of ours. Its ID is returned exactly when a read confirmed it, and then it was stored. */
    method Send(draft: Msg) returns (id: Option<string>, ghost m: Msg, ghost sent: nat, ghost made: seq<Call<RoomValue>>)
      requires store.raw.Valid()
      modifies this`seqno, store.raw`step, store.raw`now, store.raw`calls, store.raw.mock
      ensures store.raw.Valid() && store.raw.now >= old(store.raw.now)
      ensures seqno == (old(seqno) + 1) % 0x1_0000_0000_0000_0000 && m == draft.(pk := me, seqno := seqno)
      ensures OnlyPublishes(old(store.raw.mock.history), store.raw.mock.history, key, Marshal(key, m), old(store.raw.now), store.raw.now)
      ensures store.raw.calls == old(store.raw.calls) + made && SentAs(made, key, m, Retries(store.maxRetries), id.Some?)
      ensures id.Some? <==> !NoneConfirms(made, Marshal(key, m))
      ensures id.Some? ==> id.value == ID(m) && PutAt(store.raw.mock.history, key, m, sent) &&
                           store.raw.mock.history[sent].at >= old(store.raw.now)
    {
      hide RawStore.Valid, Puts, PublishRan, NoneConfirms, Marshal, PutAccepted;
      seqno := (seqno + 1) % TWO_64;
      var env := draft.(pk := me, seqno := seqno);
      m, sent := env, 0;
      var r;
      r, made := store.Publish(key, Marshal(key, env));
      if r.Published? { PublishedWasAccepted(made, key, Marshal(key, env), Retries(store.maxRetries)); }
      if !r.Published? { return None, m, sent, made; }
      ghost var h, h' := old(store.raw.mock.history), store.raw.mock.history;
      sent :| |h| <= sent < |h'| && h'[sent].Put?;
      id := Some(ID(env));
    }

    method DecodeAll(vals: seq<RoomValue>) returns (envs: seq<Msg>)
      ensures envs == Decoded(key, vals)
    {
      envs := [];
      for i := 0 to |vals|
        invariant envs == Decoded(key, vals[..i])
      {
        assert vals[..i + 1] == vals[..i] + [vals[i]];
        Rosters.ChosenSnoc(Decoder(key), vals[..i], vals[i]);
        var e := DecodeEnvelope(key, vals[i]);
        if e.Some? { envs := envs + [e.value]; }
      }
      assert vals[..|vals|] == vals;
    }

    /** The window to show, from one listing of the deduplicated envelopes. */
    method BuildWindow(vals: seq<RoomValue>) returns (top: seq<Msg>, envs: seq<Msg>)
      ensures Deduped(Decoded(key, vals), envs) && top == WindowOf(envs, windowN)
    {
      var decoded := DecodeAll(vals);
      envs := DedupeByID(decoded);
      var kept := KeepTop(envs, windowN);
      AgeIsOrdered();
      top := SortedCopy(kept, Older);
    }

    /** Finds what is new, commits the window, then emits. */
    method Commit(top: seq<Msg>)
      requires Valid() && DistinctIDs(top)
      modifies this`seen, this`window, this`contactSeen, this`contacts, this`delivered
      ensures Valid() && window == top
      ensures MemoryOf(this) == Shown(senderOf, opens, old(MemoryOf(this)), top)
      ensures Emitted(senderOf, opens, old(MemoryOf(this)), MemoryOf(this), top)
    {
      hide ID, DistinctIDs, Newer, Older, NewMessages, NewContacts, Opened, IDs, Emitted, Shown;
      ghost var before := MemoryOf(this);
      var newContacts, newMsg := FindNew(top);
      MarkSeen(top);
      window := top;
      contactSeen := contactSeen + set c | c in newContacts :: c.pk;
      contacts := contacts + newContacts;
      var shown := EmitOpened(newMsg);
      delivered := delivered + shown;
      CommitIsShown(senderOf, opens, before, top, newContacts, MemoryOf(this));
    }

    method MarkSeen(top: seq<Msg>)
      modifies this`seen
      ensures seen.Keys == old(seen).Keys + IDs(top)
    {
      hide ID;
      for i := 0 to |top|
        invariant seen.Keys == old(seen).Keys + IDs(top[..i])
      {
        assert top[..i + 1] == top[..i] + [top[i]];
        IDsSnoc(top[..i], top[i]);
        seen := seen[ID(top[i]) := top[i]];
      }
      assert top[..|top|] == top;
    }

    method FindNew(top: seq<Msg>) returns (newContacts: seq<Contact>, newMsg: seq<Msg>)
      ensures newContacts == NewContacts(top, contactSeen, senderOf)
      ensures newMsg == NewMessages(top, seen.Keys)
    {
      newContacts, newMsg := [], [];
      for i := 0 to |top|
        invariant newContacts == NewContacts(top[..i], contactSeen, senderOf)
        invariant newMsg == NewMessages(top[..i], seen.Keys)
      {
        var e := top[i];
        assert top[..i + 1][..i] == top[..i];
        var pk := senderOf(e.pk);
        if pk.Some? && pk.value !in contactSeen {
          newContacts := newContacts + [Contact(pk.value, e.name)];
        }
        if ID(e) !in seen { newMsg := newMsg + [e]; }
      }
      assert top[..|top|] == top;
    }

    method EmitOpened(msgs: seq<Msg>) returns (shown: seq<Msg>)
      ensures shown == Opened(msgs, opens)
    {
      shown := [];
      for i := 0 to |msgs|
        invariant shown == Opened(msgs[..i], opens)
      {
        assert msgs[..i + 1][..i] == msgs[..i];
        if opens(msgs[i]) { shown := shown + [msgs[i]]; }
      }
      assert msgs[..|msgs|] == msgs;
    }

    method Own(top: seq<Msg>) returns (own: seq<Msg>)
      ensures own == OwnOf(top, me)
    {
      own := [];
      for i := 0 to |top|
        invariant own == OwnOf(top[..i], me)
      {
        assert top[..i + 1][..i] == top[..i];
        if top[i].pk == me { own := own + [top[i]]; }
      }
      assert top[..|top|] == top;
    }

    /** Publishes every message of the list, in order and each with its retries. */
    method Refresh(list: seq<Msg>) returns (ghost calls: seq<Call<RoomValue>>)
      requires store.raw.Valid()
      modifies store.raw`step, store.raw`now, store.raw`calls, store.raw.mock
      ensures store.raw.Valid() && store.raw.now >= old(store.raw.now) && store.raw.calls == old(store.raw.calls) + calls
      ensures Refreshed(key, list, Retries(store.maxRetries), calls, old(store.raw.mock.history), store.raw.mock.history, old(store.raw.now), store.raw.now)
    {
      hide RawStore.Valid, Puts, PublishRan, NoneConfirms, Marshal, PutAccepted, RefreshRan, AcceptedAreStored, OnlyRefreshes, OnlyPublishes, PutSince;
      ghost var h0, t0, retries := store.raw.mock.history, store.raw.now, Retries(store.maxRetries);
      calls := [];
      RefreshNothing(key, list, retries, h0, t0);
      for i := 0 to |list|
        invariant store.raw.Valid() && store.raw.now >= t0 && store.raw.calls == old(store.raw.calls) + calls
        invariant RefreshRan(calls, key, list[..i], retries)
        invariant OnlyRefreshes(key, list, h0, store.raw.mock.history, t0, store.raw.now)
        invariant AcceptedAreStored(calls, key, h0, store.raw.mock.history, t0)
      {
        ghost var h1, t1 := store.raw.mock.history, store.raw.now;
        var r, made := store.Publish(key, Marshal(key, list[i]));
        RefreshStep(key, list, i, h0, h1, store.raw.mock.history, t0, t1, store.raw.now);
        AcceptedStep(key, list[i], calls, made, retries, r, h0, h1, store.raw.mock.history, t0, t1, store.raw.now);
        RefreshRanStep(calls, made, key, list, i, retries, r);
        calls := calls + made;
      }
      assert list[..|list|] == list;
    }

    /**
      One poll. A read error changes nothing. Otherwise the window is rebuilt
      from what was read, new messages and contacts are emitted once, and every
      windowed message that is ours to refresh is published again, and nothing
      else is written.
     */
    method Reconcile() returns (ok: bool, ghost round: Round)
      requires Valid() && store.raw.Valid()
      modifies this`seen, this`window, this`contactSeen, this`contacts, this`delivered, store.raw`step, store.raw`now, store.raw`calls, store.raw.mock
      ensures Valid() && store.raw.Valid() && store.raw.now >= old(store.raw.now)
      ensures ok <==> !store.raw.world(old(store.raw.step)).failed
      ensures !ok ==> seen == old(seen) && window == old(window) && store.raw.mock.history == old(store.raw.mock.history)
      ensures store.raw.calls == old(store.raw.calls) + ([GetCall(key, if ok then Some(round.vals) else None, round.at)] + round.calls)
      ensures round.at == old(store.raw.now) + store.raw.world(old(store.raw.step)).elapsed && round.at <= store.raw.now
      ensures !ok ==> store.raw.now == round.at && round.calls == []
      ensures ok ==> Shows(round.vals, old(store.raw.mock.history), store.raw.mock.ttl, key, round.at, store.raw.world(old(store.raw.step)).visible)
      ensures ok ==> Deduped(Decoded(key, round.vals), round.envs) && window == WindowOf(round.envs, windowN)
      ensures MemoryOf(this) == if ok then Shown(senderOf, opens, old(MemoryOf(this)), window) else old(MemoryOf(this))
      ensures ok ==> Emitted(senderOf, opens, old(MemoryOf(this)), MemoryOf(this), window)
      ensures ok ==> Refreshed(key, ToRefresh(window, anyMember, me), Retries(store.maxRetries), round.calls,
                               old(store.raw.mock.history) + [Got(key, round.at)], store.raw.mock.history, round.at, store.raw.now)
    {
      hide RawStore.Valid, Shows, Deduped, WindowOf, Refreshed, Shown, Emitted, DistinctIDs, Decoded, OwnOf;
      var answer := store.raw.Get(key);
      round := Round([], [], store.raw.now, []);
      if answer.None? {
        assert [GetCall(key, answer, round.at)] + [] == [GetCall(key, answer, round.at)];
        return false, round;
      }
      ghost var asked := store.raw.calls;
      var top, envs := BuildWindow(answer.value);
      WindowIDsOk(Decoded(key, answer.value), envs, windowN);
      round := Round(answer.value, envs, store.raw.now, []);
      Commit(top);
      var list := top;
      if !anyMember { list := Own(top); }
      ghost var calls := Refresh(list);
      round := round.(calls := calls);
      assert asked + calls == old(store.raw.calls) + ([GetCall(key, answer, round.at)] + calls);
      ok := true;
    }
  }

  lemma IDsSnoc(msgs: seq<Msg>, m: Msg)
    ensures IDs(msgs + [m]) == IDs(msgs) + {ID(m)}
  {
    hide ID;
    forall x | x in msgs ensures x in msgs + [m] { }
    assert m in msgs + [m];
  }

  lemma WindowIDsOk(decoded: seq<Msg>, envs: seq<Msg>, n: nat)
    requires Deduped(decoded, envs)
    ensures DistinctIDs(WindowOf(envs, n))
  {
    WindowIDsDistinct(envs, n);
  }

  // ----- What a refresh does to the store -----

  /** After `before`, only windowed envelopes are put and only this key is read. */
  ghost predicate OnlyRefreshes(key: string, top: seq<Msg>, before: seq<Op<RoomValue>>, after: seq<Op<RoomValue>>, since: int, until: int) {
    && before <= after
    && forall i :: |before| <= i < |after| ==>
         && after[i].key == key && !after[i].Deleted? && since <= after[i].at <= until
         && (after[i].Put? ==> exists m :: m in top && after[i].v == Marshal(key, m))
  }

  /** The envelope was put again, no earlier than `since`. */
  ghost predicate RefreshedIn(key: string, m: Msg, before: seq<Op<RoomValue>>, after: seq<Op<RoomValue>>, since: int) {
    exists i :: |before| <= i < |after| && after[i].Put? && after[i].key == key && after[i].v == Marshal(key, m) && after[i].at >= since
  }

  /** Every accepted put is in the store's history. */
  ghost predicate AcceptedAreStored(calls: seq<Call<RoomValue>>, key: string, before: seq<Op<RoomValue>>, after: seq<Op<RoomValue>>, since: int) {
    forall m :: PutAccepted(calls, key, Marshal(key, m)) ==> RefreshedIn(key, m, before, after, since)
  }

  ghost predicate PublishTried(calls: seq<Call<RoomValue>>, key: string, v: RoomValue, retries: nat) {
    exists r :: PublishRan(calls, key, v, retries, r)
  }

  /** The calls are those of publishing every message of the list, in order. */
  ghost predicate RefreshRan(calls: seq<Call<RoomValue>>, key: string, list: seq<Msg>, retries: nat)
    decreases |list|
  {
    if list == [] then calls == []
    else exists cut :: 0 <= cut <= |calls| && RefreshRan(calls[..cut], key, list[..|list| - 1], retries) &&
                       PublishTried(calls[cut..], key, Marshal(key, list[|list| - 1]), retries)
  }

  /** A refresh of the list: it is published, nothing else is written, and what was accepted is stored. */
  ghost predicate Refreshed(key: string, list: seq<Msg>, retries: nat, calls: seq<Call<RoomValue>>,
                            before: seq<Op<RoomValue>>, after: seq<Op<RoomValue>>, since: int, until: int) {
    && RefreshRan(calls, key, list, retries)
    && OnlyRefreshes(key, list, before, after, since, until)
    && AcceptedAreStored(calls, key, before, after, since)
  }

  ghost predicate PutsMsg(c: Call<RoomValue>, key: string, m: Msg) {
    c.PutCall? && c.key == key && c.v == Marshal(key, m)
  }

  lemma RefreshNothing(key: string, list: seq<Msg>, retries: nat, h: seq<Op<RoomValue>>, t: int)
    ensures RefreshRan([], key, [], retries) && OnlyRefreshes(key, list, h, h, t, t) && AcceptedAreStored([], key, h, h, t)
  {
  }

  lemma RefreshStep(key: string, list: seq<Msg>, k: nat, h0: seq<Op<RoomValue>>, h1: seq<Op<RoomValue>>, h2: seq<Op<RoomValue>>,
                    t0: int, t1: int, t2: int)
    requires k < |list| && t0 <= t1 <= t2 && OnlyRefreshes(key, list, h0, h1, t0, t1)
    requires OnlyPublishes(h1, h2, key, Marshal(key, list[k]), t1, t2)
    ensures OnlyRefreshes(key, list, h0, h2, t0, t2) && h0 <= h1
  {
    hide Marshal;
    assert list[k] in list;
    assert forall i :: 0 <= i < |h1| ==> h2[i] == h1[i];
  }

  lemma RefreshRanStep(calls: seq<Call<RoomValue>>, made: seq<Call<RoomValue>>, key: string, list: seq<Msg>, i: nat, retries: nat, r: Outcome)
    requires i < |list| && RefreshRan(calls, key, list[..i], retries) && PublishRan(made, key, Marshal(key, list[i]), retries, r)
    ensures RefreshRan(calls + made, key, list[..i + 1], retries)
  {
    hide PublishRan, Marshal;
    var all, upTo := calls + made, list[..i + 1];
    assert upTo[..|upTo| - 1] == list[..i];
    assert all[..|calls|] == calls && all[|calls|..] == made;
    assert PublishTried(made, key, Marshal(key, list[i]), retries);
  }

  lemma AcceptedStep(key: string, last: Msg, calls: seq<Call<RoomValue>>, made: seq<Call<RoomValue>>, retries: nat, r: Outcome,
                     h0: seq<Op<RoomValue>>, h1: seq<Op<RoomValue>>, h2: seq<Op<RoomValue>>, t0: int, t1: int, t2: int)
    requires AcceptedAreStored(calls, key, h0, h1, t0) && h0 <= h1 && t0 <= t1
    requires PublishRan(made, key, Marshal(key, last), retries, r) && OnlyPublishes(h1, h2, key, Marshal(key, last), t1, t2)
    requires PutAccepted(made, key, Marshal(key, last)) ==> PutSince(h1, h2)
    ensures AcceptedAreStored(calls + made, key, h0, h2, t0)
  {
    PublishPutsOnly(made, key, Marshal(key, last), retries, r);
    hide Marshal, PublishRan;
    var all := calls + made;
    forall m | PutAccepted(all, key, Marshal(key, m)) ensures RefreshedIn(key, m, h0, h2, t0) {
      var i :| 0 <= i < |all| && all[i].PutCall? && all[i].key == key && all[i].v == Marshal(key, m) && all[i].ok;
      if i < |calls| {
        assert all[i] == calls[i];
        RefreshedLater(key, m, h0, h1, h2, t0);
      } else {
        assert all[i] == made[i - |calls|];
        var k :| |h1| <= k < |h2| && h2[k].Put?;
      }
    }
  }

  /** Every message of the list was put at least once. */
  lemma {:induction false} RefreshPutsAll(calls: seq<Call<RoomValue>>, key: string, list: seq<Msg>, retries: nat, m: Msg) returns (k: nat)
    requires RefreshRan(calls, key, list, retries) && m in list
    ensures k < |calls| && PutsMsg(calls[k], key, m)
    decreases |list|
  {
    hide Marshal, PublishRan;
    var front, last := list[..|list| - 1], list[|list| - 1];
    assert list == front + [last];
    var cut :| 0 <= cut <= |calls| && RefreshRan(calls[..cut], key, front, retries) && PublishTried(calls[cut..], key, Marshal(key, last), retries);
    if m in front {
      k := RefreshPutsAll(calls[..cut], key, front, retries, m);
    } else {
      var r :| PublishRan(calls[cut..], key, Marshal(key, last), retries, r);
      PublishPutsOnly(calls[cut..], key, Marshal(key, last), retries, r);
      k := cut;
    }
  }

  lemma RefreshedLater(key: string, m: Msg, h0: seq<Op<RoomValue>>, h1: seq<Op<RoomValue>>, h2: seq<Op<RoomValue>>, since: int)
    requires RefreshedIn(key, m, h0, h1, since) && h1 <= h2
    ensures RefreshedIn(key, m, h0, h2, since)
  {
    hide Marshal;
    var i :| |h0| <= i < |h1| && h1[i].Put? && h1[i].key == key && h1[i].v == Marshal(key, m) && h1[i].at >= since;
    assert h2[i] == h1[i];
  }

  // ----- Many messages -----

  function Counter(start: nat, k: nat): nat {
    (start + k) % TWO_64
  }

  lemma CounterNext(seqno: nat, start: nat, k: nat)
    requires Counter(seqno, 0) == Counter(start, k)
    ensures (seqno + 1) % TWO_64 == Counter(start, k + 1) == Counter((seqno + 1) % TWO_64, 0)
  {
    ModSuccessor(seqno);
    ModSuccessor(start + k);
  }

  lemma ModSuccessor(x: nat)
    ensures (x + 1) % TWO_64 == (x % TWO_64 + 1) % TWO_64 == ((x + 1) % TWO_64) % TWO_64
  {
  }

  lemma CounterDistinct(start: nat, i: nat, j: nat)
    requires i < j < i + TWO_64
    ensures Counter(start, i) != Counter(start, j)
  {
  }

  /** The calls are those of publishing the messages in turn; an ID came back exactly for those a read confirmed. */
  ghost predicate SendsRan(calls: seq<Call<RoomValue>>, key: string, msgs: seq<Msg>, ids: seq<Option<string>>, retries: nat)
    requires |msgs| == |ids|
    decreases |msgs|
  {
    if msgs == [] then calls == []
    else
      var n := |msgs| - 1;
      && (ids[n].Some? ==> ids[n].value == ID(msgs[n]))
      && exists cut :: 0 <= cut <= |calls| && SendsRan(calls[..cut], key, msgs[..n], ids[..n], retries) &&
                       SentAs(calls[cut..], key, msgs[n], retries, ids[n].Some?)
  }

  lemma SendsRanSnoc(calls: seq<Call<RoomValue>>, made: seq<Call<RoomValue>>, key: string, msgs: seq<Msg>, m: Msg,
                     ids: seq<Option<string>>, id: Option<string>, retries: nat)
    requires |msgs| == |ids| && SendsRan(calls, key, msgs, ids, retries)
    requires SentAs(made, key, m, retries, id.Some?) && (id.Some? ==> id.value == ID(m))
    ensures SendsRan(calls + made, key, msgs + [m], ids + [id], retries)
  {
    hide SentAs, ID;
    var all := calls + made;
    assert all[..|calls|] == calls && all[|calls|..] == made;
    assert (msgs + [m])[..|msgs|] == msgs && (ids + [id])[..|ids|] == ids;
  }

  /**
    A session sends its drafts in turn, each with its retries. Each message
    gets its ID exactly if a read confirmed it, and all those IDs are
    different, until the counter comes round after 2^64 messages.
   */
  method SendMany(room: Room, drafts: seq<Msg>) returns (ids: seq<Option<string>>, ghost msgs: seq<Msg>, ghost calls: seq<Call<RoomValue>>)
    requires room.store.raw.Valid() && |drafts| <= TWO_64
    modifies room`seqno, room.store.raw`step, room.store.raw`now, room.store.raw`calls, room.store.raw.mock
    ensures room.store.raw.Valid() && |ids| == |msgs| == |drafts| && room.store.raw.calls == old(room.store.raw.calls) + calls
    ensures SendsRan(calls, room.key, msgs, ids, Retries(room.store.maxRetries))
    ensures forall i :: 0 <= i < |ids| ==> msgs[i] == drafts[i].(pk := room.me, seqno := Counter(old(room.seqno), i + 1)) && (ids[i].Some? ==> ids[i].value == ID(msgs[i]))
    ensures forall i, j :: 0 <= i < j < |ids| && ids[i].Some? && ids[j].Some? ==> ids[i].value != ids[j].value
  {
    hide RawStore.Valid, OnlyPublishes, PutAt, ID, Counter, SentAs, SendsRan, NoneConfirms;
    ids, msgs, calls := [], [], [];
    ghost var start := room.seqno;
    assert SendsRan([], room.key, [], [], Retries(room.store.maxRetries)) by { NothingSent(room.key, Retries(room.store.maxRetries)); }
    for k := 0 to |drafts|
      invariant room.store.raw.Valid() && |ids| == |msgs| == k && Counter(room.seqno, 0) == Counter(start, k)
      invariant room.store.raw.calls == old(room.store.raw.calls) + calls && SendsRan(calls, room.key, msgs, ids, Retries(room.store.maxRetries))
      invariant forall i :: 0 <= i < k ==> msgs[i] == drafts[i].(pk := room.me, seqno := Counter(start, i + 1)) && (ids[i].Some? ==> ids[i].value == ID(msgs[i]))
    {
      CounterNext(room.seqno, start, k);
      var id, m, _, made := room.Send(drafts[k]);
      SendsRanSnoc(calls, made, room.key, msgs, m, ids, id, Retries(room.store.maxRetries));
      ids, msgs, calls := ids + [id], msgs + [m], calls + made;
    }
    forall i, j | 0 <= i < j < |ids| && ids[i].Some? && ids[j].Some? ensures ids[i].value != ids[j].value {
      CounterDistinct(start, i + 1, j + 1);
      IDIdentifies(msgs[i], msgs[j]);
    }
  }

  lemma NothingSent(key: string, retries: nat)
    ensures SendsRan([], key, [], [], retries)
  {
  }

  // ----- Many polls -----

  /** The contacts announced by one poll share nobody with those of another. */
  ghost predicate Disjoint(a: seq<Contact>, b: seq<Contact>) {
    forall c, c' :: c in a && c' in b ==> c.pk != c'.pk
  }

  /** Where a run of polls stands: our next store call, the time, and the store's history. */
  datatype Spot = Spot(step: nat, now: int, history: seq<Op<RoomValue>>)

  /** One poll: where it began, the store at its read, what it read and did, and the window it showed. */
  datatype Poll = Poll(from: Spot, before: seq<Op<RoomValue>>, round: Round, window: seq<Msg>)

  ghost predicate ReadFails(room: Room, p: Poll) {
    room.store.raw.world(p.from.step).failed
  }

  /** The store calls of a poll. */
  ghost function CallsOf(room: Room, p: Poll): seq<Call<RoomValue>> {
    [GetCall(room.key, if ReadFails(room, p) then None else Some(p.round.vals), p.round.at)] + p.round.calls
  }

  /** The calls, of which the first met weather number `first`, were answered by it and what followed. */
  ghost predicate AnsweredFrom(world: nat -> Weather<RoomValue>, first: nat, calls: seq<Call<RoomValue>>) {
    forall k :: 0 <= k < |calls| ==> Answered(calls[k], world(first + k))
  }

  /**
    The record is of a real poll, after others had been at work on the store.
    The time of the read and of the end, the calls made and the history left
    are those of the world. Unless the read failed, it listed the visible live
    values, windowed them and refreshed the window; otherwise nothing happened.
   */
  ghost predicate PollRan(room: Room, others: seq<Foreign<RoomValue>>, p: Poll, to: Spot) {
    var world, w := room.store.raw.world, room.store.raw.world(p.from.step);
    && p.before == p.from.history + ForeignOps(others, p.from.now) && Monotone(p.before, p.round.at)
    && p.round.at == p.from.now + Waits(others) + w.elapsed
    && to.step == p.from.step + 1 + |p.round.calls|
    && to.now == p.from.now + Waits(others) + Elapsed(world, to.step) - Elapsed(world, p.from.step)
    && AnsweredFrom(world, p.from.step + 1, p.round.calls)
    && if w.failed then p.round.calls == [] && to.history == p.before
       else
         && Shows(p.round.vals, p.before, room.store.raw.mock.ttl, room.key, p.round.at, w.visible)
         && Deduped(Decoded(room.key, p.round.vals), p.round.envs)
         && p.window == WindowOf(p.round.envs, room.windowN)
         && Refreshed(room.key, ToRefresh(p.window, room.anyMember, room.me), Retries(room.store.maxRetries), p.round.calls,
                      p.before + [Got(room.key, p.round.at)], to.history, p.round.at, to.now)
  }

  /** The records are of real polls, one after another, from one spot to another; `calls` are all the store calls they made. */
  ghost predicate PollsRan(room: Room, start: Spot, others: seq<seq<Foreign<RoomValue>>>, polls: seq<Poll>, calls: seq<Call<RoomValue>>, end: Spot)
    decreases |polls|
  {
    && |polls| == |others|
    && if polls == [] then calls == [] && end == start
       else
         var n := |polls| - 1;
         var last := CallsOf(room, polls[n]);
         && PollRan(room, others[n], polls[n], end)
         && |last| <= |calls| && calls[|calls| - |last|..] == last
         && PollsRan(room, start, others[..n], polls[..n], calls[..|calls| - |last|], polls[n].from)
  }

  lemma PollsRanSnoc(room: Room, start: Spot, others: seq<seq<Foreign<RoomValue>>>, k: nat, polls: seq<Poll>, calls: seq<Call<RoomValue>>, p: Poll, end: Spot)
    requires k < |others| && PollsRan(room, start, others[..k], polls, calls, p.from) && PollRan(room, others[k], p, end)
    ensures PollsRan(room, start, others[..k + 1], polls + [p], calls + CallsOf(room, p), end)
  {
    hide PollRan, CallsOf;
    var last, all := CallsOf(room, p), calls + CallsOf(room, p);
    assert all[|all| - |last|..] == last && all[..|all| - |last|] == calls;
    assert (polls + [p])[..k] == polls && others[..k + 1][..k] == others[..k];
  }

  /** Whom a poll announces. */
  ghost function AnnouncedBy(room: Room, before: Memory, p: Poll): seq<Contact> {
    if ReadFails(room, p) then [] else NewContacts(p.window, before.known, room.senderOf)
  }

  ghost function AfterPoll(room: Room, before: Memory, p: Poll): Memory {
    if ReadFails(room, p) then before else Shown(room.senderOf, room.opens, before, p.window)
  }

  ghost function AfterPolls(room: Room, before: Memory, polls: seq<Poll>): Memory {
    if polls == [] then before else AfterPoll(room, AfterPolls(room, before, polls[..|polls| - 1]), polls[|polls| - 1])
  }

  /** Poll by poll, whom they announce. */
  ghost function Announcements(room: Room, before: Memory, polls: seq<Poll>): seq<seq<Contact>> {
    if polls == [] then []
    else
      var front := polls[..|polls| - 1];
      Announcements(room, before, front) + [AnnouncedBy(room, AfterPolls(room, before, front), polls[|polls| - 1])]
  }

  /** Every message was delivered once and is seen. */
  ghost predicate Once(m: Memory) {
    DistinctIDs(m.delivered) && IDs(m.delivered) <= m.seen
  }

  lemma PollKeepsOnce(room: Room, before: Memory, p: Poll)
    requires Once(before) && (!ReadFails(room, p) ==> DistinctIDs(p.window))
    ensures var after := AfterPoll(room, before, p);
            Once(after) && before.delivered <= after.delivered && before.seen <= after.seen
  {
    if !ReadFails(room, p) { DeliveriesStayUnique(before.delivered, before.seen, p.window, room.opens); }
    hide ID, Opened, NewMessages, NewContacts, DistinctIDs, IDs;
  }

  /**
    Over any number of polls no message is delivered twice, what has been
    seen stays seen, and all announcements of one contact come from a single
    poll.
   */
  lemma {:induction false} PollsKeepOnce(room: Room, before: Memory, polls: seq<Poll>)
    requires Once(before) && forall k :: 0 <= k < |polls| && !ReadFails(room, polls[k]) ==> DistinctIDs(polls[k].window)
    ensures var after, said := AfterPolls(room, before, polls), Announcements(room, before, polls);
            && Once(after) && before.delivered <= after.delivered && before.seen <= after.seen
            && |said| == |polls| && after.contacts == before.contacts + Joined(said) && Apart(said, after.known)
  {
    hide ReadFails, DistinctIDs, IDs, ID, AnnouncedBy, Apart, AfterPoll, Shown;
    if polls == [] {
      ApartAtFirst(before.known);
    } else {
      var front, p := polls[..|polls| - 1], polls[|polls| - 1];
      PollsKeepOnce(room, before, front);
      var mid, said := AfterPolls(room, before, front), Announcements(room, before, front);
      PollKeepsOnce(room, mid, p);
      AnnouncedApart(room, said, mid, p);
      JoinedSnoc(said, AnnouncedBy(room, mid, p));
      AfterPollContacts(room, mid, p);
      assert before.contacts + Joined(said) + AnnouncedBy(room, mid, p) == before.contacts + (Joined(said) + AnnouncedBy(room, mid, p));
    }
  }

  // ----- What a run of polls delivers -----

  /** Poll number `k` showed the message, and its ID was not seen at the start nor shown by an earlier poll. */
  ghost predicate FirstShown(room: Room, seen: set<string>, polls: seq<Poll>, k: nat, m: Msg) {
    && k < |polls| && !ReadFails(room, polls[k]) && m in polls[k].window && ID(m) !in seen
    && forall j, e :: 0 <= j < k && !ReadFails(room, polls[j]) && e in polls[j].window ==> ID(e) != ID(m)
  }

  /** The one was first shown by an earlier poll, or comes before the other in the window of the same. */
  ghost predicate Sooner(room: Room, seen: set<string>, polls: seq<Poll>, m: Msg, m': Msg) {
    exists k: nat, l: nat :: k < |polls| && FirstShown(room, seen, polls, k, m) && FirstShown(room, seen, polls, l, m') &&
                             (k < l || (k == l && Before(polls[k].window, m, m')))
  }

  /** `added` are the messages first shown by these polls that open, in the order they were shown. */
  ghost predicate DeliveredBy(room: Room, seen: set<string>, polls: seq<Poll>, added: seq<Msg>) {
    && (forall m :: m in added <==> room.opens(m) && exists k :: FirstShown(room, seen, polls, k, m))
    && (forall i, j :: 0 <= i < j < |added| ==> Sooner(room, seen, polls, added[i], added[j]))
  }

  /** A sender unknown at the start is announced under a name in the window of the first poll that shows him. */
  ghost predicate FirstMet(room: Room, known: set<nat>, polls: seq<Poll>, k: nat, c: Contact) {
    && k < |polls| && !ReadFails(room, polls[k]) && c.pk !in known
    && (exists m :: m in polls[k].window && room.senderOf(m.pk) == Some(c.pk) && m.name == c.name)
    && forall j, e :: 0 <= j < k && !ReadFails(room, polls[j]) && e in polls[j].window ==> room.senderOf(e.pk) != Some(c.pk)
  }

  ghost predicate AnnouncedIn(room: Room, known: set<nat>, polls: seq<Poll>, added: seq<Contact>) {
    forall c :: c in added <==> exists k :: FirstMet(room, known, polls, k, c)
  }

  /** Some poll showed a message with this ID. */
  ghost predicate HasID(room: Room, polls: seq<Poll>, id: string) {
    exists j, e :: 0 <= j < |polls| && !ReadFails(room, polls[j]) && e in polls[j].window && ID(e) == id
  }

  ghost predicate HasSender(room: Room, polls: seq<Poll>, pk: nat) {
    exists j, e :: 0 <= j < |polls| && !ReadFails(room, polls[j]) && e in polls[j].window && room.senderOf(e.pk) == Some(pk)
  }

  lemma HasSnoc(room: Room, front: seq<Poll>, p: Poll, id: string, pk: nat)
    ensures HasID(room, front + [p], id) <==> HasID(room, front, id) || (!ReadFails(room, p) && exists e :: e in p.window && ID(e) == id)
    ensures HasSender(room, front + [p], pk) <==>
            HasSender(room, front, pk) || (!ReadFails(room, p) && exists e :: e in p.window && room.senderOf(e.pk) == Some(pk))
  {
    hide ID, ReadFails;
    var polls := front + [p];
    assert polls[|front|] == p && forall j :: 0 <= j < |front| ==> front[j] == polls[j];
  }

  /** Seen are the IDs seen before and those shown; known are the senders likewise. */
  lemma {:induction false} SeenAfter(room: Room, before: Memory, polls: seq<Poll>, id: string, pk: nat)
    ensures id in AfterPolls(room, before, polls).seen <==> id in before.seen || HasID(room, polls, id)
    ensures pk in AfterPolls(room, before, polls).known <==> pk in before.known || HasSender(room, polls, pk)
  {
    if polls != [] {
      var front, p := polls[..|polls| - 1], polls[|polls| - 1];
      SeenAfter(room, before, front, id, pk);
      HasSnoc(room, front, p, id, pk);
      ShownIsEmitted(room.senderOf, room.opens, AfterPolls(room, before, front), p.window);
      assert front + [p] == polls;
      hide ID, Shown, ReadFails, HasID, HasSender;
    }
  }

  lemma FirstShownSnoc(room: Room, before: Memory, front: seq<Poll>, p: Poll, k: nat, m: Msg)
    ensures FirstShown(room, before.seen, front + [p], k, m) <==>
            if k == |front| then !ReadFails(room, p) && m in p.window && ID(m) !in AfterPolls(room, before, front).seen
            else FirstShown(room, before.seen, front, k, m)
  {
    SeenAfter(room, before, front, ID(m), 0);
    var polls := front + [p];
    assert forall j :: 0 <= j < |front| ==> front[j] == polls[j];
    hide ID, ReadFails, AfterPolls;
  }

  lemma FirstMetSnoc(room: Room, before: Memory, front: seq<Poll>, p: Poll, k: nat, c: Contact)
    ensures FirstMet(room, before.known, front + [p], k, c) <==>
            if k == |front| then
              && !ReadFails(room, p) && c.pk !in AfterPolls(room, before, front).known
              && exists m :: m in p.window && room.senderOf(m.pk) == Some(c.pk) && m.name == c.name
            else FirstMet(room, before.known, front, k, c)
  {
    SeenAfter(room, before, front, "", c.pk);
    var polls := front + [p];
    assert forall j :: 0 <= j < |front| ==> front[j] == polls[j];
    hide ID, ReadFails, AfterPolls;
  }

  lemma SoonerSnoc(room: Room, before: Memory, front: seq<Poll>, p: Poll, m: Msg, m': Msg)
    requires Sooner(room, before.seen, front, m, m')
    ensures Sooner(room, before.seen, front + [p], m, m')
  {
    hide FirstShown, Before;
    var k: nat, l: nat :| k < |front| && FirstShown(room, before.seen, front, k, m) && FirstShown(room, before.seen, front, l, m') &&
                          (k < l || (k == l && Before(front[k].window, m, m')));
    FirstShownKnown(room, before.seen, front, l, m');
    FirstShownSnoc(room, before, front, p, k, m);
    FirstShownSnoc(room, before, front, p, l, m');
    assert (front + [p])[k] == front[k];
  }

  lemma FirstShownKnown(room: Room, seen: set<string>, polls: seq<Poll>, k: nat, m: Msg)
    requires FirstShown(room, seen, polls, k, m)
    ensures k < |polls|
  {
  }

  /** One more poll, whose effect on the memory is `Emitted`. */
  lemma DeliveredMore(room: Room, before: Memory, front: seq<Poll>, p: Poll, mid: Memory, after: Memory, was: seq<Msg>)
    requires !ReadFails(room, p) && mid == AfterPolls(room, before, front) && Emitted(room.senderOf, room.opens, mid, after, p.window)
    requires DeliveredBy(room, before.seen, front, was)
    ensures DeliveredBy(room, before.seen, front + [p], was + after.delivered[|mid.delivered|..])
  {
    hide ID, AfterPolls, ReadFails;
    var polls, more := front + [p], after.delivered[|mid.delivered|..];
    var added := was + more;
    forall m ensures m in added <==> room.opens(m) && exists k :: FirstShown(room, before.seen, polls, k, m) {
      forall k: nat ensures FirstShown(room, before.seen, polls, k, m) <==>
        if k == |front| then m in p.window && ID(m) !in mid.seen else FirstShown(room, before.seen, front, k, m) { FirstShownSnoc(room, before, front, p, k, m); }
      hide FirstShown;
      assert m in more <==> m in p.window && ID(m) !in mid.seen && room.opens(m);
      assert (m in p.window && ID(m) !in mid.seen) ==> FirstShown(room, before.seen, polls, |front|, m);
      if k :| FirstShown(room, before.seen, front, k, m) {
        FirstShownKnown(room, before.seen, front, k, m);
        assert FirstShown(room, before.seen, polls, k, m);
      }
    }
    forall i, j | 0 <= i < j < |added| ensures Sooner(room, before.seen, polls, added[i], added[j]) {
      DeliveredSooner(room, before, front, p, mid, after, was, i, j);
    }
  }

  lemma DeliveredSooner(room: Room, before: Memory, front: seq<Poll>, p: Poll, mid: Memory, after: Memory, was: seq<Msg>, i: nat, j: nat)
    requires !ReadFails(room, p) && mid == AfterPolls(room, before, front) && Emitted(room.senderOf, room.opens, mid, after, p.window)
    requires DeliveredBy(room, before.seen, front, was) && i < j < |was + after.delivered[|mid.delivered|..]|
    ensures var added := was + after.delivered[|mid.delivered|..];
            Sooner(room, before.seen, front + [p], added[i], added[j])
  {
    hide ID, AfterPolls, ReadFails, Before;
    var n, more := |front|, after.delivered[|mid.delivered|..];
    var polls, added := front + [p], was + more;
    var m, m' := added[i], added[j];
    hide FirstShown;
    if j < |was| {
      SoonerSnoc(room, before, front, p, m, m');
    } else {
      assert m' in more;
      FirstShownSnoc(room, before, front, p, n, m');
      if i < |was| {
        assert m in was;
        var k :| FirstShown(room, before.seen, front, k, m);
        FirstShownKnown(room, before.seen, front, k, m);
        FirstShownSnoc(room, before, front, p, k, m);
      } else {
        assert m in more;
        FirstShownSnoc(room, before, front, p, n, m);
        assert Before(p.window, m, m') && polls[n] == p;
      }
    }
  }

  lemma AnnouncedMore(room: Room, before: Memory, front: seq<Poll>, p: Poll, mid: Memory, after: Memory, was: seq<Contact>)
    requires !ReadFails(room, p) && mid == AfterPolls(room, before, front) && Emitted(room.senderOf, room.opens, mid, after, p.window)
    requires AnnouncedIn(room, before.known, front, was)
    ensures AnnouncedIn(room, before.known, front + [p], was + after.contacts[|mid.contacts|..])
  {
    hide ID, AfterPolls, ReadFails, Before;
    var polls, more := front + [p], after.contacts[|mid.contacts|..];
    var added := was + more;
    forall c ensures c in added <==> exists k :: FirstMet(room, before.known, polls, k, c) {
      var here := c.pk !in mid.known && exists m :: m in p.window && room.senderOf(m.pk) == Some(c.pk) && m.name == c.name;
      assert c in more <==> here;
      forall k: nat ensures FirstMet(room, before.known, polls, k, c) <==> if k == |front| then here else FirstMet(room, before.known, front, k, c) {
        FirstMetSnoc(room, before, front, p, k, c);
      }
      assert forall k: nat :: FirstMet(room, before.known, front, k, c) ==> k < |front|;
      hide FirstMet;
      assert here ==> FirstMet(room, before.known, polls, |front|, c);
      if k :| FirstMet(room, before.known, front, k, c) { assert FirstMet(room, before.known, polls, k, c); }
    }
  }

  /** A poll that reads nothing changes nothing of this. */
  lemma NothingMore(room: Room, before: Memory, front: seq<Poll>, p: Poll, was: seq<Msg>, said: seq<Contact>)
    requires ReadFails(room, p) && DeliveredBy(room, before.seen, front, was) && AnnouncedIn(room, before.known, front, said)
    ensures DeliveredBy(room, before.seen, front + [p], was) && AnnouncedIn(room, before.known, front + [p], said)
  {
    hide ID, AfterPolls, ReadFails, Before;
    var polls := front + [p];
    forall m, k: nat ensures FirstShown(room, before.seen, polls, k, m) <==> FirstShown(room, before.seen, front, k, m) {
      FirstShownSnoc(room, before, front, p, k, m);
    }
    forall c, k: nat ensures FirstMet(room, before.known, polls, k, c) <==> FirstMet(room, before.known, front, k, c) {
      FirstMetSnoc(room, before, front, p, k, c);
    }
    forall i, j | 0 <= i < j < |was| ensures Sooner(room, before.seen, polls, was[i], was[j]) {
      SoonerSnoc(room, before, front, p, was[i], was[j]);
    }
    hide FirstShown, FirstMet, Sooner;
  }

  /**
    A run of polls delivers exactly the messages that open and are in the
    window of some poll, unless their ID was seen before; each from the first
    poll that shows it, poll by poll and in window order. It announces exactly
    the senders in those windows that were not known, in the same way.
   */
  lemma {:induction false} PollsDeliver(room: Room, before: Memory, polls: seq<Poll>)
    ensures var after := AfterPolls(room, before, polls);
            && before.delivered <= after.delivered && DeliveredBy(room, before.seen, polls, after.delivered[|before.delivered|..])
            && before.contacts <= after.contacts && AnnouncedIn(room, before.known, polls, after.contacts[|before.contacts|..])
  {
    var after := AfterPolls(room, before, polls);
    if polls != [] {
      var front, p := polls[..|polls| - 1], polls[|polls| - 1];
      PollsDeliver(room, before, front);
      var mid := AfterPolls(room, before, front);
      var was, said := mid.delivered[|before.delivered|..], mid.contacts[|before.contacts|..];
      assert front + [p] == polls;
      if ReadFails(room, p) {
        NothingMore(room, before, front, p, was, said);
      } else {
        ShownIsEmitted(room.senderOf, room.opens, mid, p.window);
        assert after == Shown(room.senderOf, room.opens, mid, p.window);
        PollExtends(room, before, front, p, mid, after);
      }
    }
  }

  lemma PollExtends(room: Room, before: Memory, front: seq<Poll>, p: Poll, mid: Memory, after: Memory)
    requires !ReadFails(room, p) && mid == AfterPolls(room, before, front) && Emitted(room.senderOf, room.opens, mid, after, p.window)
    requires before.delivered <= mid.delivered && DeliveredBy(room, before.seen, front, mid.delivered[|before.delivered|..])
    requires before.contacts <= mid.contacts && AnnouncedIn(room, before.known, front, mid.contacts[|before.contacts|..])
    ensures before.delivered <= after.delivered && DeliveredBy(room, before.seen, front + [p], after.delivered[|before.delivered|..])
    ensures before.contacts <= after.contacts && AnnouncedIn(room, before.known, front + [p], after.contacts[|before.contacts|..])
  {
    hide AfterPolls, Shown, ReadFails, DeliveredBy, AnnouncedIn;
    var was, said := mid.delivered[|before.delivered|..], mid.contacts[|before.contacts|..];
    DeliveredMore(room, before, front, p, mid, after, was);
    AnnouncedMore(room, before, front, p, mid, after, said);
    assert mid.delivered <= after.delivered && mid.contacts <= after.contacts;
    assert after.delivered[|before.delivered|..] == was + after.delivered[|mid.delivered|..];
    assert after.contacts[|before.contacts|..] == said + after.contacts[|mid.contacts|..];
  }

  lemma AfterPollContacts(room: Room, before: Memory, p: Poll)
    ensures AfterPoll(room, before, p).contacts == before.contacts + AnnouncedBy(room, before, p)
  {
  }

  lemma AnnouncedApart(room: Room, said: seq<seq<Contact>>, before: Memory, p: Poll)
    requires Apart(said, before.known)
    ensures Apart(said + [AnnouncedBy(room, before, p)], AfterPoll(room, before, p).known)
  {
    if ReadFails(room, p) { NobodyApart(said, before.known); } else { NewContactsApart(said, p.window, before.known, room.senderOf); }
  }

  /**
    A run of polls, with others at work on the store in between. The records
    account for every store call made and for the store's whole history, and
    what the room has seen, delivered and announced is what they say.
   */
  method PollMany(room: Room, others: seq<seq<Foreign<RoomValue>>>) returns (ghost polls: seq<Poll>, ghost calls: seq<Call<RoomValue>>)
    requires room.Valid() && room.store.raw.Valid()
    modifies room, room.store.raw`step, room.store.raw`now, room.store.raw`calls, room.store.raw`idle, room.store.raw.mock
    ensures room.Valid() && room.store.raw.Valid() && room.store.raw.calls == old(room.store.raw.calls) + calls
    ensures PollsRan(room, old(Here(room)), others, polls, calls, Here(room))
    ensures MemoryOf(room) == AfterPolls(room, old(MemoryOf(room)), polls)
    ensures polls != [] ==> polls[|polls| - 1].window == room.window
    ensures Once(old(MemoryOf(room))) && Once(MemoryOf(room))
    ensures old(room.delivered) <= room.delivered && DeliveredBy(room, old(room.seen).Keys, polls, room.delivered[|old(room.delivered)|..])
    ensures old(room.contacts) <= room.contacts && AnnouncedIn(room, old(room.contactSeen), polls, room.contacts[|old(room.contacts)|..])
    ensures old(room.seen).Keys <= room.seen.Keys
    ensures var said := Announcements(room, old(MemoryOf(room)), polls);
            && |said| == |others| && room.contacts == old(room.contacts) + Joined(said)
            && forall i, j :: 0 <= i < j < |said| ==> Disjoint(said[i], said[j])
  {
    ghost var before := MemoryOf(room);
    ValidMeansOnce(room);
    hide Room.Valid, RawStore.Valid, PollsRan, Here, AfterPolls, Announcements, Disjoint, Once, ReadFails, DistinctIDs, DeliveredBy, AnnouncedIn;
    polls, calls := RunPolls(room, others);
    PollsKeepOnce(room, before, polls);
    PollsDeliver(room, before, polls);
    hide MemoryOf;
    ApartMeans(Announcements(room, before, polls), AfterPolls(room, before, polls).known);
  }

  method RunPolls(room: Room, others: seq<seq<Foreign<RoomValue>>>) returns (ghost polls: seq<Poll>, ghost calls: seq<Call<RoomValue>>)
    requires room.Valid() && room.store.raw.Valid()
    modifies room, room.store.raw`step, room.store.raw`now, room.store.raw`calls, room.store.raw`idle, room.store.raw.mock
    ensures room.Valid() && room.store.raw.Valid() && room.store.raw.calls == old(room.store.raw.calls) + calls && |polls| == |others|
    ensures PollsRan(room, old(Here(room)), others, polls, calls, Here(room))
    ensures MemoryOf(room) == AfterPolls(room, old(MemoryOf(room)), polls)
    ensures polls != [] ==> polls[|polls| - 1].window == room.window
    ensures forall k :: 0 <= k < |polls| && !ReadFails(room, polls[k]) ==> DistinctIDs(polls[k].window)
  {
    polls, calls := [], [];
    ghost var start, before := Here(room), MemoryOf(room);
    hide Room.Valid, RawStore.Valid, PollsRan, PollRan, Here, AfterPolls, CallsOf, ReadFails, DistinctIDs, MemoryOf, AfterPoll;
    assert others[..0] == [];
    NoPolls(room, start, before);
    for k := 0 to |others|
      invariant room.Valid() && room.store.raw.Valid() && room.store.raw.calls == old(room.store.raw.calls) + calls && |polls| == k
      invariant PollsRan(room, start, others[..k], polls, calls, Here(room)) && MemoryOf(room) == AfterPolls(room, before, polls)
      invariant polls != [] ==> polls[|polls| - 1].window == room.window
      invariant forall j :: 0 <= j < k && !ReadFails(room, polls[j]) ==> DistinctIDs(polls[j].window)
    {
      ghost var p := PollAfter(room, others[k]);
      PollsRanSnoc(room, start, others, k, polls, calls, p, Here(room));
      AfterPollsSnoc(room, before, polls, p);
      polls, calls := polls + [p], calls + CallsOf(room, p);
    }
    assert others[..|others|] == others;
  }

  ghost function Here(room: Room): Spot
    reads room.store.raw, room.store.raw.mock
  {
    Spot(room.store.raw.step, room.store.raw.now, room.store.raw.mock.history)
  }

  lemma NoPolls(room: Room, start: Spot, before: Memory)
    ensures PollsRan(room, start, [], [], [], start) && AfterPolls(room, before, []) == before
  {
  }

  lemma AfterPollsSnoc(room: Room, before: Memory, polls: seq<Poll>, p: Poll)
    ensures AfterPolls(room, before, polls + [p]) == AfterPoll(room, AfterPolls(room, before, polls), p)
  {
    assert (polls + [p])[..|polls|] == polls;
  }

  /** One poll of a run, after others have been at work. */
  method PollAfter(room: Room, others: seq<Foreign<RoomValue>>) returns (ghost p: Poll)
    requires room.Valid() && room.store.raw.Valid()
    modifies room, room.store.raw`step, room.store.raw`now, room.store.raw`calls, room.store.raw`idle, room.store.raw.mock
    ensures room.Valid() && room.store.raw.Valid()
    ensures p.from == old(Here(room)) && p.window == room.window && PollRan(room, others, p, Here(room))
    ensures room.store.raw.calls == old(room.store.raw.calls) + CallsOf(room, p)
    ensures MemoryOf(room) == AfterPoll(room, old(MemoryOf(room)), p)
    ensures !ReadFails(room, p) ==> DistinctIDs(p.window)
  {
    ghost var from := Here(room);
    hide RawStore.Valid, Room.Valid, PollRan, ForeignOps, Waits, Elapsed, MemoryOf, AfterPoll, ReadFails, CallsOf, DistinctIDs;
    room.store.raw.Meanwhile(others);
    p := PollNow(room, others, from);
  }

  /** The poll itself. */
  method PollNow(room: Room, others: seq<Foreign<RoomValue>>, ghost from: Spot) returns (ghost p: Poll)
    requires room.Valid() && room.store.raw.Valid()
    requires room.store.raw.step == from.step && room.store.raw.now == from.now + Waits(others)
    requires room.store.raw.mock.history == from.history + ForeignOps(others, from.now)
    modifies room, room.store.raw`step, room.store.raw`now, room.store.raw`calls, room.store.raw.mock
    ensures room.Valid() && room.store.raw.Valid()
    ensures p.from == from && p.window == room.window && PollRan(room, others, p, Here(room))
    ensures room.store.raw.calls == old(room.store.raw.calls) + CallsOf(room, p)
    ensures MemoryOf(room) == AfterPoll(room, old(MemoryOf(room)), p)
    ensures !ReadFails(room, p) ==> DistinctIDs(p.window)
  {
    ghost var h, t, calls, was := room.store.raw.mock.history, room.store.raw.now, room.store.raw.calls, MemoryOf(room);
    TimeKnown(room.store.raw);
    hide Monotone, RawStore.Valid, Room.Valid, Shows, Deduped, WindowOf, Decoded, Refreshed, ToRefresh, Shown, MemoryOf,
         ForeignOps, Waits, Elapsed, DistinctIDs, PollRan, AnsweredFrom, CallsOf, AfterPoll, ReadFails, Here;
    var ok, round := room.Reconcile();
    p := Poll(from, h, round, room.window);
    RoundIsPoll(room, others, p, ok, t, calls, was);
  }

  /** What Reconcile promises is a poll of a run. */
  lemma RoundIsPoll(room: Room, others: seq<Foreign<RoomValue>>, p: Poll, ok: bool, t: int, calls: seq<Call<RoomValue>>, was: Memory)
    requires room.store.raw.Valid() && p.from.step == |calls| && t == p.from.now + Waits(others) && p.before == p.from.history + ForeignOps(others, p.from.now)
    requires Monotone(p.before, t) && t == room.store.raw.start + Elapsed(room.store.raw.world, |calls|) + room.store.raw.idle
    requires ok == !room.store.raw.world(|calls|).failed && p.round.at == t + room.store.raw.world(|calls|).elapsed
    requires room.store.raw.calls == calls + ([GetCall(room.key, if ok then Some(p.round.vals) else None, p.round.at)] + p.round.calls)
    requires !ok ==> p.round.calls == [] && room.store.raw.mock.history == p.before
    requires MemoryOf(room) == if ok then Shown(room.senderOf, room.opens, was, p.window) else was
    requires ok ==>
               && Shows(p.round.vals, p.before, room.store.raw.mock.ttl, room.key, p.round.at, room.store.raw.world(|calls|).visible)
               && Deduped(Decoded(room.key, p.round.vals), p.round.envs)
               && p.window == WindowOf(p.round.envs, room.windowN)
               && Refreshed(room.key, ToRefresh(p.window, room.anyMember, room.me), Retries(room.store.maxRetries), p.round.calls,
                            p.before + [Got(room.key, p.round.at)], room.store.raw.mock.history, p.round.at, room.store.raw.now)
    ensures PollRan(room, others, p, Here(room)) && room.store.raw.calls == calls + CallsOf(room, p)
    ensures MemoryOf(room) == AfterPoll(room, was, p) && (!ReadFails(room, p) ==> DistinctIDs(p.window))
  {
    hide Monotone, RawStore.Valid, Shows, Deduped, WindowOf, Decoded, Refreshed, ToRefresh, Shown, MemoryOf, ForeignOps, Waits, Elapsed, DistinctIDs,
         AnsweredFrom, CallsOf;
    MonotoneLater(p.before, t, p.round.at);
    CallsSay(room, calls, p, ok);
    if ok { WindowIDsOk(Decoded(room.key, p.round.vals), p.round.envs, room.windowN); }
  }

  lemma CallsSay(room: Room, calls: seq<Call<RoomValue>>, p: Poll, ok: bool)
    requires room.store.raw.Valid() && p.from.step == |calls| && ok == !room.store.raw.world(p.from.step).failed
    requires room.store.raw.calls == calls + ([GetCall(room.key, if ok then Some(p.round.vals) else None, p.round.at)] + p.round.calls)
    ensures room.store.raw.calls == calls + CallsOf(room, p) && room.store.raw.step == |calls| + 1 + |p.round.calls|
    ensures AnsweredFrom(room.store.raw.world, |calls| + 1, p.round.calls)
    ensures room.store.raw.now == room.store.raw.start + Elapsed(room.store.raw.world, room.store.raw.step) + room.store.raw.idle
  {
    assert room.store.raw.calls[|calls| + 1..] == p.round.calls;
    AnsweredSince(room.store.raw, |calls| + 1, p.round.calls);
  }

  lemma TimeKnown(raw: RawStore<RoomValue>)
    requires raw.Valid()
    ensures raw.step == |raw.calls| && raw.now == raw.start + Elapsed(raw.world, raw.step) + raw.idle
    ensures Monotone(raw.mock.history, raw.now)
  {
  }

  lemma AnsweredSince(raw: RawStore<RoomValue>, first: nat, calls: seq<Call<RoomValue>>)
    requires raw.Valid() && first <= |raw.calls| && raw.calls[first..] == calls
    ensures AnsweredFrom(raw.world, first, calls)
  {
    hide MockStore.Valid, Monotone;
    forall k | 0 <= k < |calls| ensures Answered(calls[k], raw.world(first + k)) {
      assert raw.calls[first + k] == calls[k];
    }
  }

  lemma ValidMeansOnce(room: Room)
    requires room.Valid()
    ensures Once(MemoryOf(room))
  {
  }

  lemma ApartAtFirst(known: set<nat>)
    ensures Apart([], known)
  {
  }

  lemma ApartMeans(announced: seq<seq<Contact>>, known: set<nat>)
    requires Apart(announced, known)
    ensures forall i, j :: 0 <= i < j < |announced| ==> Disjoint(announced[i], announced[j])
  {
  }

  /** Everybody announced is known by now, and each in one poll only. */
  ghost predicate Apart(announced: seq<seq<Contact>>, known: set<nat>) {
    && (forall i :: 0 <= i < |announced| ==> forall c :: c in announced[i] ==> c.pk in known)
    && (forall i, j :: 0 <= i < j < |announced| ==> Disjoint(announced[i], announced[j]))
  }

  lemma NewContactsApart(announced: seq<seq<Contact>>, top: seq<Msg>, known: set<nat>, senderOf: string -> Option<nat>)
    requires Apart(announced, known)
    ensures var more := NewContacts(top, known, senderOf);
            Apart(announced + [more], known + set c | c in more :: c.pk)
  {
    var more := NewContacts(top, known, senderOf);
    forall c | c in more ensures c.pk !in known {
      NewContactsAreNew(top, known, senderOf, c);
    }
    hide NewContacts;
    forall i | 0 <= i < |announced| ensures Disjoint(announced[i], more) { }
  }

  lemma NobodyApart(announced: seq<seq<Contact>>, known: set<nat>)
    requires Apart(announced, known)
    ensures Apart(announced + [[]], known)
  {
  }

  ghost function Joined(cs: seq<seq<Contact>>): seq<Contact> {
    if cs == [] then [] else Joined(cs[..|cs| - 1]) + cs[|cs| - 1]
  }

  lemma JoinedSnoc(cs: seq<seq<Contact>>, c: seq<Contact>)
    ensures Joined(cs + [c]) == Joined(cs) + c
  {
    assert (cs + [c])[..|cs|] == cs;
  }

  // ----- Refreshing adds nothing -----

  /** With only canonical values in what was read, every refreshed value was already there. */
  lemma RefreshAddsNothing(key: string, vals: seq<RoomValue>, envs: seq<Msg>, n: nat, m: Msg)
    requires Deduped(Decoded(key, vals), envs) && m in WindowOf(envs, n)
    requires forall v :: v in vals && DecodeEnvelope(key, v).Some? ==> IsCanonical(v)
    ensures Marshal(key, m) in vals
  {
    WindowMembers(envs, n, m);
    DedupedMember(Decoded(key, vals), envs, m);
    Rosters.ChosenMembers(Decoder(key), vals, m);
    var v :| v in vals && Decoder(key)(v) == Some(m);
    RemarshalReproducesIffCanonical(key, v, m);
  }

  /** What the messages of a list are stored as. */
  ghost function Stored(key: string, list: seq<Msg>): set<RoomValue> {
    set m | m in list :: Marshal(key, m)
  }

  lemma SurvivesEarlier(h: seq<Op<RoomValue>>, ttl: int, k: string, v: RoomValue, at: int, now: int)
    requires Survives(h, ttl, k, v, now) && at <= now
    ensures Survives(h, ttl, k, v, at)
  {
    var i :| Stands(h, ttl, k, v, i) && now < h[i].at + ttl;
  }

  /** Whatever a poll leaves in the store it found there, still live, or refreshed. */
  lemma SurvivorIsOldOrRefreshed(key: string, list: seq<Msg>, h: seq<Op<RoomValue>>, h': seq<Op<RoomValue>>, ttl: int, at: int, now: int,
                                 k: string, v: RoomValue)
    requires OnlyRefreshes(key, list, h + [Got(key, at)], h', at, now) && Survives(h', ttl, k, v, now)
    ensures Survives(h, ttl, k, v, now) || (k == key && v in Stored(key, list))
  {
    hide Marshal;
    var g := h + [Got(key, at)];
    assert forall i :: 0 <= i < |h| ==> h'[i] == g[i] == h[i];
    assert h'[|h|] == g[|h|];
    var i :| Stands(h', ttl, k, v, i) && now < h'[i].at + ttl;
    if i < |h| {
      forall j | i < j < |h| ensures Spares(h[j], k, v, h[i].at + ttl) {
        assert Spares(h'[j], k, v, h'[i].at + ttl);
      }
      assert Stands(h, ttl, k, v, i);
    } else {
      var m :| m in list && h'[i].v == Marshal(key, m);
    }
  }

  /** A poll takes nothing away: what would have been live now without it is. */
  lemma PollTakesNothing(key: string, list: seq<Msg>, h: seq<Op<RoomValue>>, h': seq<Op<RoomValue>>, ttl: int, at: int, now: int,
                         k: string, v: RoomValue)
    requires OnlyRefreshes(key, list, h + [Got(key, at)], h', at, now) && Monotone(h', now) && Survives(h, ttl, k, v, now)
    ensures Survives(h', ttl, k, v, now)
  {
    hide Marshal, Survives;
    var g := h + [Got(key, at)];
    assert forall i :: 0 <= i < |h| ==> h'[i] == g[i] == h[i];
    assert h'[|h|] == g[|h|];
    PrefixMonotone(h, h', now);
    SurvivesByLastWrite(h, ttl, k, v, now);
    var i :| LastWrite(h, k, v, i) && now < h[i].at + ttl;
    forall j | i < j < |h'| && h'[j].Deleted? ensures h'[j].key != k || h'[j].v != v {
      assert j < |h|;
    }
    PutKeepsAlive(h', ttl, k, v, now, i);
  }

  lemma PrefixMonotone(h: seq<Op<RoomValue>>, h': seq<Op<RoomValue>>, now: int)
    requires Monotone(h', now) && h <= h'
    ensures Monotone(h, now)
  {
    assert forall i :: 0 <= i < |h| ==> h[i] == h'[i];
  }

  /** A refresh that got through, less than a TTL ago, has left its message in the store. */
  lemma RefreshedSurvives(key: string, m: Msg, list: seq<Msg>, h: seq<Op<RoomValue>>, h': seq<Op<RoomValue>>, ttl: int, at: int, now: int)
    requires OnlyRefreshes(key, list, h + [Got(key, at)], h', at, now) && Monotone(h', now) && now < at + ttl
    requires RefreshedIn(key, m, h + [Got(key, at)], h', at)
    ensures Survives(h', ttl, key, Marshal(key, m), now)
  {
    hide Marshal;
    var g := h + [Got(key, at)];
    var i :| |g| <= i < |h'| && h'[i].Put? && h'[i].key == key && h'[i].v == Marshal(key, m) && h'[i].at >= at;
    PutKeepsAlive(h', ttl, key, Marshal(key, m), now, i);
  }

  /**
    What a poll does to the store. Now live, under this key or any other, is
    exactly what would have been live without it and, if every message it
    refreshes had a put accepted less than a TTL ago, those messages as this
    code marshals them.
   */
  lemma PollLeaves(key: string, list: seq<Msg>, retries: nat, calls: seq<Call<RoomValue>>, h: seq<Op<RoomValue>>, h': seq<Op<RoomValue>>,
                   ttl: int, at: int, now: int, k: string, v: RoomValue)
    requires Refreshed(key, list, retries, calls, h + [Got(key, at)], h', at, now) && Monotone(h', now)
    ensures Survives(h, ttl, k, v, now) ==> Survives(h', ttl, k, v, now)
    ensures Survives(h', ttl, k, v, now) ==> Survives(h, ttl, k, v, now) || (k == key && v in Stored(key, list))
    ensures AllAccepted(calls, key, list) && now < at + ttl && v in Stored(key, list) ==> Survives(h', ttl, key, v, now)
  {
    hide Marshal, RefreshRan, PutAccepted, OnlyRefreshes, RefreshedIn, Survives, Monotone;
    if Survives(h, ttl, k, v, now) { PollTakesNothing(key, list, h, h', ttl, at, now, k, v); }
    if Survives(h', ttl, k, v, now) { SurvivorIsOldOrRefreshed(key, list, h, h', ttl, at, now, k, v); }
    if AllAccepted(calls, key, list) && now < at + ttl && v in Stored(key, list) {
      var m :| m in list && v == Marshal(key, m);
      assert PutAccepted(calls, key, Marshal(key, m));
      RefreshedSurvives(key, m, list, h, h', ttl, at, now);
    }
  }

  /** Every message of the list had a put accepted. */
  ghost predicate AllAccepted(calls: seq<Call<RoomValue>>, key: string, list: seq<Msg>) {
    forall m :: m in list ==> PutAccepted(calls, key, Marshal(key, m))
  }

  /** The store holds no value that it did not hold at the read. */
  ghost predicate GainsNothing(h: seq<Op<RoomValue>>, h': seq<Op<RoomValue>>, ttl: int, key: string, at: int, now: int) {
    forall v :: Survives(h', ttl, key, v, now) ==> Survives(h, ttl, key, v, at)
  }

  /** Every message of the list was in the store at the read, as this code marshals it. */
  ghost predicate AllHeld(h: seq<Op<RoomValue>>, ttl: int, key: string, at: int, list: seq<Msg>) {
    forall m :: m in list ==> Survives(h, ttl, key, Marshal(key, m), at)
  }

  /**
    A poll adds no value to the store, and so only extends expiries, if every
    message it refreshes was in the store as this code marshals it. When its
    refreshes get through within a TTL of the read, only then.
   */
  lemma PollGainsNothingIff(key: string, list: seq<Msg>, retries: nat, calls: seq<Call<RoomValue>>, h: seq<Op<RoomValue>>,
                            h': seq<Op<RoomValue>>, ttl: int, at: int, now: int)
    requires Refreshed(key, list, retries, calls, h + [Got(key, at)], h', at, now) && Monotone(h', now) && at <= now
    ensures AllHeld(h, ttl, key, at, list) ==> GainsNothing(h, h', ttl, key, at, now)
    ensures AllAccepted(calls, key, list) && now < at + ttl ==> (GainsNothing(h, h', ttl, key, at, now) <==> AllHeld(h, ttl, key, at, list))
  {
    hide Marshal, Refreshed, PutAccepted, Survives, Monotone, AllAccepted;
    if AllHeld(h, ttl, key, at, list) {
      forall v | Survives(h', ttl, key, v, now) ensures Survives(h, ttl, key, v, at) {
        PollLeaves(key, list, retries, calls, h, h', ttl, at, now, key, v);
        if Survives(h, ttl, key, v, now) { SurvivesEarlier(h, ttl, key, v, at, now); }
      }
    }
    if AllAccepted(calls, key, list) && now < at + ttl && GainsNothing(h, h', ttl, key, at, now) {
      forall m | m in list ensures Survives(h, ttl, key, Marshal(key, m), at) {
        assert Marshal(key, m) in Stored(key, list);
        PollLeaves(key, list, retries, calls, h, h', ttl, at, now, key, Marshal(key, m));
      }
    }
  }

  /** In particular it adds none when everything that was read had been marshalled by this code. */
  lemma CanonicalPollGainsNothing(key: string, h: seq<Op<RoomValue>>, h': seq<Op<RoomValue>>, ttl: int, at: int, now: int,
                                  visible: RoomValue -> bool, vals: seq<RoomValue>, envs: seq<Msg>, n: nat,
                                  anyMember: bool, me: string, retries: nat, calls: seq<Call<RoomValue>>)
    requires Shows(vals, h, ttl, key, at, visible) && Deduped(Decoded(key, vals), envs) && Monotone(h', now) && at <= now
    requires Refreshed(key, ToRefresh(WindowOf(envs, n), anyMember, me), retries, calls, h + [Got(key, at)], h', at, now)
    requires forall v :: v in vals && DecodeEnvelope(key, v).Some? ==> IsCanonical(v)
    ensures GainsNothing(h, h', ttl, key, at, now)
  {
    hide Deduped, WindowOf, Decoded, Marshal, IsCanonical, DecodeEnvelope, Refreshed, Survives, Monotone, ToRefresh, GainsNothing;
    var list := ToRefresh(WindowOf(envs, n), anyMember, me);
    forall m | m in list ensures Survives(h, ttl, key, Marshal(key, m), at) {
      ToRefreshMembers(WindowOf(envs, n), anyMember, me, m);
      RefreshAddsNothing(key, vals, envs, n, m);
    }
    PollGainsNothingIff(key, list, retries, calls, h, h', ttl, at, now);
  }

  lemma DedupedMember(decoded: seq<Msg>, envs: seq<Msg>, m: Msg)
    requires Deduped(decoded, envs) && m in envs
    ensures m in decoded
  {
    assert LastOfID(decoded, m);
  }

  /** Nothing fails and everything is visible. */
  function CalmWorld(): nat -> Weather<RoomValue> {
    (step: nat) => Weather(0, false, false, (v: RoomValue) => true)
  }

  /** When nothing fails, every message of the list gets a put accepted, and no time passes. */
  lemma CalmIsAccepted(raw: RawStore<RoomValue>, first: nat, key: string, list: seq<Msg>, retries: nat, calls: seq<Call<RoomValue>>,
                       before: seq<Op<RoomValue>>, after: seq<Op<RoomValue>>, since: int, until: int)
    requires raw.Valid() && raw.world == CalmWorld() && first <= |raw.calls| && raw.calls[first..] == calls
    requires Refreshed(key, list, retries, calls, before, after, since, until)
    ensures AllAccepted(calls, key, list) && raw.now == raw.start + raw.idle && Monotone(raw.mock.history, raw.now)
  {
    CalmTakesNoTime(raw.step);
    hide Marshal, Refreshed, PutAccepted;
    AnsweredSince(raw, first, calls);
    forall m | m in list ensures PutAccepted(calls, key, Marshal(key, m)) {
      RefreshGetsThrough(raw.world, first, calls, key, list, retries, m, before, after, since, until);
    }
  }

  lemma {:induction false} CalmTakesNoTime(k: nat)
    ensures Elapsed(CalmWorld(), k) == 0
  {
    if k > 0 { CalmTakesNoTime(k - 1); }
  }

  /** A lone stored value that decodes to `m` puts exactly `m` in the window. */
  lemma LoneValueIsWindowed(h: seq<Op<RoomValue>>, ttl: int, key: string, v: RoomValue, m: Msg, at: int, visible: RoomValue -> bool,
                            vals: seq<RoomValue>, envs: seq<Msg>, n: nat)
    requires h == [Op.Put(key, v, 0, 0)] && 0 <= at < ttl && n > 0 && DecodeEnvelope(key, v) == Some(m)
    requires Shows(vals, h, ttl, key, at, visible) && visible(v) && Deduped(Decoded(key, vals), envs)
    ensures forall e :: e in WindowOf(envs, n) <==> e == m
  {
    assert Stands(h, ttl, key, v, 0);
    assert v in vals;
    forall w | w in vals ensures w == v {
      var i :| Stands(h, ttl, key, w, i) && at < h[i].at + ttl;
    }
    forall e ensures e in Decoded(key, vals) <==> e == m {
      Rosters.ChosenMembers(Decoder(key), vals, e);
      assert Decoder(key)(v) == Some(m);
    }
    hide Decoded, ID, Newer, Older;
    forall e | e in envs ensures e == m { DedupedMember(Decoded(key, vals), envs, e); }
    RepresentedAsItself(Decoded(key, vals), envs, m);
    assert Rivals(envs, m) == {};
    FewRivalsKeepsPlace(envs, n, m);
    forall e | e in WindowOf(envs, n) ensures e == m { WindowMembers(envs, n, e); }
  }

  /** A message sealed with another nonce. */
  function OtherSeal(key: string, m: Msg, r: nat): RoomValue {
    RoomBox(key, RandomNonce(r), Canonical(m))
  }

  const ROOM_WINDOW: nat := 20

  /** `h` is a store's history before a poll of the room, and `round` what the poll read and did. */
  ghost predicate Polled(room: Room, h: seq<Op<RoomValue>>, round: Round)
    reads room, room.store.raw, room.store.raw.mock
  {
    var raw := room.store.raw;
    && |raw.calls| > |round.calls| && raw.calls[|raw.calls| - |round.calls|..] == round.calls
    && Shows(round.vals, h, raw.mock.ttl, room.key, round.at, raw.world(|raw.calls| - |round.calls| - 1).visible)
    && Deduped(Decoded(room.key, round.vals), round.envs) && room.window == WindowOf(round.envs, room.windowN)
    && Refreshed(room.key, ToRefresh(room.window, room.anyMember, room.me), Retries(room.store.maxRetries), round.calls,
                 h + [Got(room.key, round.at)], raw.mock.history, round.at, raw.now)
  }

  /**
    A real room over a real store that holds one message sealed another way,
    and one real poll: before it the store held that value alone, afterwards it
    holds two, and both decode to the message.
   */
  method OtherSealIsStoredTwice(key: string, me: string, m: Msg, r: nat, senderOf: string -> Option<nat>, opens: Msg -> bool)
    returns (room: Room, ghost h: seq<Op<RoomValue>>, ghost round: Round)
    ensures room.key == key && room.store.raw.Valid() && Polled(room, h, round)
    ensures forall v :: Survives(h, room.store.raw.mock.ttl, key, v, round.at) <==> v == OtherSeal(key, m, r)
    ensures forall v :: Survives(room.store.raw.mock.history, room.store.raw.mock.ttl, key, v, room.store.raw.now) <==>
                        v == OtherSeal(key, m, r) || v == Marshal(key, m)
    ensures OtherSeal(key, m, r) != Marshal(key, m)
    ensures DecodeEnvelope(key, OtherSeal(key, m, r)) == DecodeEnvelope(key, Marshal(key, m)) == Some(m)
  {
    var v := OtherSeal(key, m, r);
    room := LoneRoom(key, me, v, senderOf, opens);
    hide RawStore.Valid, Room.Valid, Shows, Deduped, WindowOf, Decoded, Opened, NewMessages, NewContacts, IDs, Refreshed, Survives, Monotone,
         AllAccepted;
    ghost var raw := room.store.raw;
    h := raw.mock.history;
    var _, round' := room.Reconcile();
    round := round';
    assert raw.calls[1..] == round.calls;
    LoneValueIsWindowed(h, raw.mock.ttl, key, v, m, round.at, raw.world(0).visible, round.vals, round.envs, ROOM_WINDOW);
    CalmIsAccepted(raw, 1, key, room.window, Retries(3), round.calls, h + [Got(key, round.at)], raw.mock.history, round.at, raw.now);
    LoneSurvivor(key, v, raw.mock.ttl, 0);
    assert Stored(key, room.window) == {Marshal(key, m)};
    forall w ensures Survives(raw.mock.history, raw.mock.ttl, key, w, raw.now) <==> w == v || w == Marshal(key, m) {
      PollLeaves(key, room.window, Retries(3), round.calls, h, raw.mock.history, raw.mock.ttl, round.at, raw.now, key, w);
    }
  }

  lemma LoneSurvivor(key: string, v: RoomValue, ttl: int, now: int)
    requires 0 <= now < ttl
    ensures forall w :: Survives([Op.Put(key, v, 0, 0)], ttl, key, w, now) <==> w == v
  {
    var h := [Op.Put(key, v, 0, 0)];
    assert Stands(h, ttl, key, v, 0);
  }

  /** A calm world's room over a store that holds one value. */
  method LoneRoom(key: string, me: string, v: RoomValue, senderOf: string -> Option<nat>, opens: Msg -> bool) returns (room: Room)
    ensures fresh(room) && fresh(room.store) && fresh(room.store.raw) && fresh(room.store.raw.mock)
    ensures room.Valid() && room.store.raw.Valid() && room.key == key && room.anyMember && room.windowN == ROOM_WINDOW
    ensures room.store.maxRetries == 3 && room.store.raw.world == CalmWorld() && room.store.raw.now == room.store.raw.start == 0 && room.store.raw.calls == [] && room.store.raw.idle == 0
    ensures room.store.raw.mock.history == [Op.Put(key, v, 0, 0)] && room.store.raw.mock.ttl == DEFAULT_TTL && room.store.raw.step == 0
  {
    var mock := new MockStore<RoomValue>(DEFAULT_TTL);
    mock.Put(key, v, 0, 0);
    assert mock.history == [Op.Put(key, v, 0, 0)];
    assert Monotone(mock.history, 0);
    hide MockStore.Valid, Monotone;
    var raw := new RawStore<RoomValue>(mock, CalmWorld(), 0);
    var store := new ReliableStore<RoomValue>(raw, 3);
    room := new Room(key, me, ROOM_WINDOW, true, senderOf, opens, store, 0);
  }

  // ----- Outliving the TTL -----

  /** `m` was put at call `i`, and nothing has been deleted since. */
  ghost predicate PutAt(h: seq<Op<RoomValue>>, key: string, m: Msg, i: nat) {
    && i < |h| && h[i].Put? && h[i].key == key && h[i].v == Marshal(key, m)
    && forall j :: i < j < |h| ==> !h[j].Deleted?
  }

  lemma PutAtLater(h: seq<Op<RoomValue>>, h': seq<Op<RoomValue>>, key: string, m: Msg, i: nat)
    requires PutAt(h, key, m, i) && h <= h' && forall j :: |h| <= j < |h'| ==> !h'[j].Deleted?
    ensures PutAt(h', key, m, i)
  {
    forall j | i < j < |h'| ensures !h'[j].Deleted? {
      if j < |h| { assert h'[j] == h[j]; }
    }
    assert h'[i] == h[i];
  }

  /** Nobody else uses the message's ID among what was read. */
  ghost predicate OwnID(envs: seq<Msg>, m: Msg) {
    forall e :: e in envs && ID(e) == ID(m) ==> e == m
  }

  /** A live message with few enough rivals is in the window that the poll builds. */
  lemma LiveMessageIsWindowed(h: seq<Op<RoomValue>>, ttl: int, key: string, m: Msg, i: nat, at: int, visible: RoomValue -> bool,
                              vals: seq<RoomValue>, envs: seq<Msg>, n: nat)
    requires Monotone(h, at) && PutAt(h, key, m, i) && at < h[i].at + ttl
    requires Shows(vals, h, ttl, key, at, visible) && visible(Marshal(key, m))
    requires Deduped(Decoded(key, vals), envs) && OwnID(envs, m) && |Rivals(envs, m)| < n
    ensures m in WindowOf(envs, n)
  {
    hide ID, Newer, Older, Spares, Stands;
    var v := Marshal(key, m);
    PutKeepsAlive(h, ttl, key, v, at, i);
    assert v in vals;
    MarshalDecodes(key, m);
    assert Decoder(key)(v) == Some(m);
    Rosters.ChosenMembers(Decoder(key), vals, m);
    RepresentedAsItself(Decoded(key, vals), envs, m);
    FewRivalsKeepsPlace(envs, n, m);
  }

  lemma RepresentedAsItself(decoded: seq<Msg>, envs: seq<Msg>, m: Msg)
    requires Deduped(decoded, envs) && m in decoded && OwnID(envs, m)
    ensures m in envs
  {
    hide ID, LastOfID;
    var f :| f in envs && ID(f) == ID(m);
  }

  /**
    What is asked of a poll. The message is one that the room refreshes. The
    read succeeds. The message is windowed; failing that, the read would show
    it, nobody forged its ID and fewer than N others are at least as new. And
    the store does not fail every put that the poll makes of it.
   */
  ghost predicate Granted(room: Room, p: Poll, m: Msg) {
    var w := room.store.raw.world(p.from.step);
    && (room.anyMember || m.pk == room.me) && !w.failed
    && (m in p.window || (w.visible(Marshal(room.key, m)) && OwnID(p.round.envs, m) && |Rivals(p.round.envs, m)| < room.windowN))
    && !EveryPutFailed(room.store.raw.world, p.from.step + 1, p.round.calls, room.key, m)
  }

  /** The calls, of which the first met weather number `first`, put the message, and the world failed each such put. */
  ghost predicate EveryPutFailed(world: nat -> Weather<RoomValue>, first: nat, calls: seq<Call<RoomValue>>, key: string, m: Msg) {
    && (exists k :: 0 <= k < |calls| && PutsMsg(calls[k], key, m))
    && (forall k :: 0 <= k < |calls| && PutsMsg(calls[k], key, m) ==> world(first + k).failed)
  }

  /** A message that the poll refreshes and the store does not keep failing is stored again. */
  lemma RefreshGetsThrough(world: nat -> Weather<RoomValue>, first: nat, calls: seq<Call<RoomValue>>, key: string, list: seq<Msg>, retries: nat, m: Msg,
                           before: seq<Op<RoomValue>>, after: seq<Op<RoomValue>>, since: int, until: int)
    requires AnsweredFrom(world, first, calls)
    requires Refreshed(key, list, retries, calls, before, after, since, until) && m in list
    requires !EveryPutFailed(world, first, calls, key, m)
    ensures PutAccepted(calls, key, Marshal(key, m)) && RefreshedIn(key, m, before, after, since)
  {
    hide Marshal, OnlyRefreshes, RefreshedIn;
    var k := RefreshPutsAll(calls, key, list, retries, m);
    hide RefreshRan;
    assert PutsMsg(calls[k], key, m);
    var j :| 0 <= j < |calls| && PutsMsg(calls[j], key, m) && !world(first + j).failed;
    assert Answered(calls[j], world(first + j));
    assert calls[j].ok;
    assert PutAccepted(calls, key, Marshal(key, m));
  }

  /** The time of the last poll's read, or of the original post. */
  ghost function LastTouch(polls: seq<Poll>, sentAt: int): int {
    if polls == [] then sentAt else polls[|polls| - 1].round.at
  }

  /** Every poll is granted its part and comes less than a TTL after the one before it, or after the post. */
  ghost predicate AllGranted(room: Room, polls: seq<Poll>, m: Msg, sentAt: int, ttl: int) {
    polls == [] ||
    var front, p := polls[..|polls| - 1], polls[|polls| - 1];
    AllGranted(room, front, m, sentAt, ttl) && Granted(room, p, m) && p.round.at < LastTouch(front, sentAt) + ttl
  }

  lemma {:induction false} ForeignOpsPut(others: seq<Foreign<RoomValue>>, now: int)
    ensures forall i :: 0 <= i < |ForeignOps(others, now)| ==> !ForeignOps(others, now)[i].Deleted?
  {
    if others != [] { ForeignOpsPut(others[..|others| - 1], now); }
  }

  /** What one poll does for the message, last put at call `i` when the poll began. */
  lemma PollTakesEffect(room: Room, others: seq<Foreign<RoomValue>>, p: Poll, to: Spot, m: Msg, i: nat) returns (next: nat)
    requires PollRan(room, others, p, to) && PutAt(p.from.history, room.key, m, i)
    ensures PutAt(to.history, room.key, m, next)
    ensures Granted(room, p, m) && p.round.at < p.from.history[i].at + room.store.raw.mock.ttl ==>
              m in p.window && to.history[next].at >= p.round.at
  {
    hide Monotone, Shows, Deduped, OwnID, Rivals, EveryPutFailed, WindowOf, Decoded, Marshal, Refreshed, AnsweredFrom, ToRefresh, Waits, Elapsed;
    ForeignOpsPut(others, p.from.now);
    PutAtLater(p.from.history, p.before, room.key, m, i);
    PutKnown(p.from.history, room.key, m, i);
    assert p.before[i] == p.from.history[i];
    next := i;
    hide PutAt, ForeignOps;
    if !ReadFails(room, p) {
      next := ReadTakesEffect(room, p, to, m, i);
    }
  }

  lemma ReadTakesEffect(room: Room, p: Poll, to: Spot, m: Msg, i: nat) returns (next: nat)
    requires PutAt(p.before, room.key, m, i) && Monotone(p.before, p.round.at) && AnsweredFrom(room.store.raw.world, p.from.step + 1, p.round.calls)
    requires Shows(p.round.vals, p.before, room.store.raw.mock.ttl, room.key, p.round.at, room.store.raw.world(p.from.step).visible)
    requires Deduped(Decoded(room.key, p.round.vals), p.round.envs) && p.window == WindowOf(p.round.envs, room.windowN)
    requires Refreshed(room.key, ToRefresh(p.window, room.anyMember, room.me), Retries(room.store.maxRetries), p.round.calls,
                       p.before + [Got(room.key, p.round.at)], to.history, p.round.at, to.now)
    ensures PutAt(to.history, room.key, m, next) && p.before[i].Put?
    ensures Granted(room, p, m) && p.round.at < p.before[i].at + room.store.raw.mock.ttl ==>
              m in p.window && to.history[next].at >= p.round.at
  {
    PutKnown(p.before, room.key, m, i);
    hide Monotone, Shows, Deduped, OwnID, Rivals, WindowOf, Decoded, Marshal, Refreshed, EveryPutFailed, AnsweredFrom, RefreshedIn, ToRefresh, PutAt;
    var h, h', list, retries := p.before, to.history, ToRefresh(p.window, room.anyMember, room.me), Retries(room.store.maxRetries);
    next := i;
    RefreshKeepsPut(h, h', room.key, m, i, list, retries, p.round.calls, p.round.at, to.now);
    PutKnown(h', room.key, m, i);
    if Granted(room, p, m) && p.round.at < h[i].at + room.store.raw.mock.ttl {
      if m !in p.window {
        LiveMessageIsWindowed(h, room.store.raw.mock.ttl, room.key, m, i, p.round.at, room.store.raw.world(p.from.step).visible,
                              p.round.vals, p.round.envs, room.windowN);
      }
      ToRefreshMembers(p.window, room.anyMember, room.me, m);
      RefreshGetsThrough(room.store.raw.world, p.from.step + 1, p.round.calls, room.key, list, retries, m,
                         h + [Got(room.key, p.round.at)], h', p.round.at, to.now);
      next := RefreshIndex(h, h', room.key, m, list, retries, p.round.calls, p.round.at, to.now);
      PutKnown(h', room.key, m, next);
    }
  }

  lemma RefreshKeepsPut(h: seq<Op<RoomValue>>, h': seq<Op<RoomValue>>, key: string, m: Msg, i: nat, list: seq<Msg>, retries: nat,
                        calls: seq<Call<RoomValue>>, at: int, now: int)
    requires PutAt(h, key, m, i) && Refreshed(key, list, retries, calls, h + [Got(key, at)], h', at, now)
    ensures PutAt(h', key, m, i)
  {
    hide Marshal, RefreshRan, AcceptedAreStored;
    var g := h + [Got(key, at)];
    forall j | |h| <= j < |h'| ensures !h'[j].Deleted? {
      if j == |h| { assert h'[j] == g[j]; }
    }
    assert forall j :: 0 <= j < |h| ==> h'[j] == g[j] == h[j];
    PutAtLater(h, h', key, m, i);
  }

  lemma RefreshIndex(h: seq<Op<RoomValue>>, h': seq<Op<RoomValue>>, key: string, m: Msg, list: seq<Msg>, retries: nat,
                     calls: seq<Call<RoomValue>>, at: int, now: int) returns (k: nat)
    requires Refreshed(key, list, retries, calls, h + [Got(key, at)], h', at, now) && RefreshedIn(key, m, h + [Got(key, at)], h', at)
    ensures PutAt(h', key, m, k) && h'[k].at >= at
  {
    hide Marshal, RefreshRan, AcceptedAreStored;
    var g := h + [Got(key, at)];
    k :| |g| <= k < |h'| && h'[k].Put? && h'[k].key == key && h'[k].v == Marshal(key, m) && h'[k].at >= at;
  }

  /**
    The message through a whole run of polls: if all are granted their part,
    it was in the window at each, and was put again no earlier than the last.
   */
  lemma {:induction false} StaysPut(room: Room, start: Spot, others: seq<seq<Foreign<RoomValue>>>, polls: seq<Poll>, calls: seq<Call<RoomValue>>, end: Spot,
                                    m: Msg, sent: nat)
    returns (last: nat)
    requires PollsRan(room, start, others, polls, calls, end) && PutAt(start.history, room.key, m, sent)
    ensures PutAt(end.history, room.key, m, last)
    ensures AllGranted(room, polls, m, start.history[sent].at, room.store.raw.mock.ttl) ==>
              && (forall k :: 0 <= k < |polls| ==> m in polls[k].window)
              && end.history[last].at >= LastTouch(polls, start.history[sent].at)
    decreases |polls|
  {
    hide PollRan, CallsOf, Granted, PutAt;
    assert sent < |start.history| && start.history[sent].Put? by { PutKnown(start.history, room.key, m, sent); }
    if polls == [] {
      last := sent;
    } else {
      var n := |polls| - 1;
      var made := CallsOf(room, polls[n]);
      var mid := StaysPut(room, start, others[..n], polls[..n], calls[..|calls| - |made|], polls[n].from, m, sent);
      PutKnown(polls[n].from.history, room.key, m, mid);
      last := PollTakesEffect(room, others[n], polls[n], end, m, mid);
      PutKnown(end.history, room.key, m, last);
      assert forall k :: 0 <= k < n ==> polls[..n][k] == polls[k];
    }
  }

  lemma PutKnown(h: seq<Op<RoomValue>>, key: string, m: Msg, i: nat)
    requires PutAt(h, key, m, i)
    ensures i < |h| && h[i].Put?
  {
  }

  /**
    In a run of polls that PollMany makes, with others putting and reading
    anything in between: as long as each poll is granted its part and they come
    less than a TTL apart, a message once put is in the window at every poll,
    and is still in the store less than a TTL after the last: its refreshes
    carry it past any number of TTLs.
   */
  lemma KeepsAlive(room: Room, start: Spot, others: seq<seq<Foreign<RoomValue>>>, polls: seq<Poll>, calls: seq<Call<RoomValue>>, end: Spot,
                   m: Msg, sent: nat)
    requires PollsRan(room, start, others, polls, calls, end) && PutAt(start.history, room.key, m, sent) && Monotone(end.history, end.now)
    ensures AllGranted(room, polls, m, start.history[sent].at, room.store.raw.mock.ttl) ==>
              && (forall k :: 0 <= k < |polls| ==> m in polls[k].window)
              && (end.now < LastTouch(polls, start.history[sent].at) + room.store.raw.mock.ttl ==>
                    Survives(end.history, room.store.raw.mock.ttl, room.key, Marshal(room.key, m), end.now))
  {
    hide PollsRan, AllGranted, LastTouch, Survives, Marshal, Monotone;
    var last := StaysPut(room, start, others, polls, calls, end, m, sent);
    if AllGranted(room, polls, m, start.history[sent].at, room.store.raw.mock.ttl)
       && end.now < LastTouch(polls, start.history[sent].at) + room.store.raw.mock.ttl {
      PutKeepsAlive(end.history, room.store.raw.mock.ttl, room.key, Marshal(room.key, m), end.now, last);
    }
  }

  /**
    From the sender's side: once Send has returned an ID, polls that are
    granted their part keep the message in the window and in the store.
   */
  method SendThenPoll(room: Room, draft: Msg, others: seq<seq<Foreign<RoomValue>>>)
    returns (id: Option<string>, ghost m: Msg, ghost sentAt: int, ghost start: Spot, ghost polls: seq<Poll>, ghost calls: seq<Call<RoomValue>>)
    requires room.Valid() && room.store.raw.Valid()
    modifies room, room.store.raw`step, room.store.raw`now, room.store.raw`calls, room.store.raw`idle, room.store.raw.mock
    ensures room.Valid() && room.store.raw.Valid() && m == draft.(pk := room.me, seqno := (old(room.seqno) + 1) % TWO_64)
    ensures old(room.store.raw.calls) <= room.store.raw.calls && |old(room.store.raw.calls)| <= start.step <= |room.store.raw.calls|
    ensures room.store.raw.calls[start.step..] == calls && PollsRan(room, start, others, polls, calls, Here(room))
    ensures id.Some? <==> !NoneConfirms(room.store.raw.calls[|old(room.store.raw.calls)|..start.step], Marshal(room.key, m))
    ensures id.Some? ==> id.value == ID(m) && old(room.store.raw.now) <= sentAt <= start.now
    ensures id.Some? && AllGranted(room, polls, m, sentAt, room.store.raw.mock.ttl) ==>
              && (forall k :: 0 <= k < |polls| ==> m in polls[k].window)
              && (room.store.raw.now < LastTouch(polls, sentAt) + room.store.raw.mock.ttl ==>
                    Survives(room.store.raw.mock.history, room.store.raw.mock.ttl, room.key, Marshal(room.key, m), room.store.raw.now))
  {
    hide RawStore.Valid, PollsRan, AllGranted, Survives, Marshal, NoneConfirms, SentAs, OnlyPublishes, AfterPolls, Announcements, PutAt, Monotone,
         Once, Disjoint;
    StepsAreCalls(room);
    ghost var sent, made;
    id, m, sent, made := room.Send(draft);
    assert room.Valid();
    hide Room.Valid;
    start, sentAt := Here(room), room.store.raw.now;
    if id.Some? {
      PutInTime(room, m, sent);
      sentAt := room.store.raw.mock.history[sent].at;
    }
    StepsAreCalls(room);
    polls, calls := PollMany(room, others);
    StepsAreCalls(room);
    if id.Some? { KeepsAlive(room, start, others, polls, calls, Here(room), m, sent); }
  }

  lemma StepsAreCalls(room: Room)
    requires room.store.raw.Valid()
    ensures |room.store.raw.calls| == room.store.raw.step && Monotone(room.store.raw.mock.history, room.store.raw.now)
  {
  }

  lemma PutInTime(room: Room, m: Msg, i: nat)
    requires room.store.raw.Valid() && PutAt(room.store.raw.mock.history, room.key, m, i)
    ensures i < |room.store.raw.mock.history| && room.store.raw.mock.history[i].Put? && room.store.raw.mock.history[i].at <= room.store.raw.now
  {
  }
}
