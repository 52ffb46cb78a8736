/** The document manager: one live document per open address, counted references, hydration in steps, and
    retirement for good. As functions on values, then as the class whose methods take those steps. */
module Documents {
  import opened Updates
  import opened Facts
  import opened Wrappers

  /** Where the shared hydration of an entry stands: its chain is being read, the chain is in hand and the
      overlay has not been applied, it is complete, or it failed. */
  datatype Hydration = Reading | ChainRead(chain: seq<Update>) | Hydrated | HydrationFailed

  datatype LiveDocument = LiveDocument(address: Address, doc: Update, references: int, hydration: Hydration)

  /** One call of `open`: awaiting hydration, holding a handle, or done (refused or disposed). */
  datatype Stage = Awaiting | Held | Gone

  datatype Holder = Holder(entry: nat, address: Address, stage: Stage)

  /** Every entry ever created is kept; `live` says which one is under each address now. */
  datatype Manager = Manager(
    live: map<Address, nat>,
    entries: seq<LiveDocument>,
    holders: seq<Holder>,
    retired: set<Address>)

  function Fresh(tombstones: set<Address>): Manager { Manager(map[], [], [], tombstones) }

  // ---------------------------------------------------------------- steps

  /** The synchronous part of `open`. `None` is the refusal `DocumentRetired`. */
  function OpenBegin(m: Manager, a: Address): (Manager, Option<nat>) {
    if a in m.retired then (m, None)
    else if a in m.live && m.live[a] < |m.entries| then
      var e := m.live[a];
      (m.(entries := m.entries[e := m.entries[e].(references := m.entries[e].references + 1)],
          holders := m.holders + [Holder(e, a, Awaiting)]),
       Some(|m.holders|))
    else
      var e := |m.entries|;
      (m.(live := m.live[a := e],
          entries := m.entries + [LiveDocument(a, {}, 1, Reading)],
          holders := m.holders + [Holder(e, a, Awaiting)]),
       Some(|m.holders|))
  }

  function ReadDone(m: Manager, e: nat, chain: seq<Update>): Manager {
    if e >= |m.entries| || !m.entries[e].hydration.Reading? then m
    else m.(entries := m.entries[e := m.entries[e].(hydration := ChainRead(chain))])
  }

  function Fail(m: Manager, e: nat): Manager {
    if e >= |m.entries| || !(m.entries[e].hydration.Reading? || m.entries[e].hydration.ChainRead?) then m
    else m.(entries := m.entries[e := m.entries[e].(hydration := HydrationFailed)])
  }

  /** The rest of `hydrate`: apply the chain, then the unconfirmed appends. */
  function Overlay(m: Manager, e: nat, pending: seq<Update>): Manager {
    if e >= |m.entries| || !m.entries[e].hydration.ChainRead? then m
    else
      var d := m.entries[e];
      m.(entries := m.entries[e := d.(doc := d.doc + JoinAll(d.hydration.chain) + JoinAll(pending),
                                      hydration := Hydrated)])
  }

  function Release(m: Manager, a: Address): Manager {
    if a !in m.live || m.live[a] >= |m.entries| then m
    else
      var e := m.live[a];
      var r := m.entries[e].references - 1;
      var entries := m.entries[e := m.entries[e].(references := r)];
      if r > 0 then m.(entries := entries) else m.(entries := entries, live := m.live - {a})
  }

  function SetStage(m: Manager, h: nat, s: Stage): Manager
    requires h < |m.holders|
  {
    m.(holders := m.holders[h := m.holders[h].(stage := s)])
  }

  /** The continuation of `open` once hydration has settled. */
  function OpenEnd(m: Manager, h: nat): Manager {
    if h >= |m.holders| || !m.holders[h].stage.Awaiting? || m.holders[h].entry >= |m.entries| then m
    else match m.entries[m.holders[h].entry].hydration
      case HydrationFailed => Release(SetStage(m, h, Gone), m.holders[h].address)
      case Hydrated =>
        if m.holders[h].address in m.retired then Release(SetStage(m, h, Gone), m.holders[h].address)
        else SetStage(m, h, Held)
      case _ => m
  }

  function Dispose(m: Manager, h: nat): Manager {
    if h >= |m.holders| || !m.holders[h].stage.Held? then m
    else Release(SetStage(m, h, Gone), m.holders[h].address)
  }

  function ApplyLive(m: Manager, a: Address, u: Update): Manager {
    if a !in m.live || m.live[a] >= |m.entries| then m
    else m.(entries := m.entries[m.live[a] := m.entries[m.live[a]].(doc := m.entries[m.live[a]].doc + u)])
  }

  function AcceptRemote(m: Manager, a: Address, u: Update): (Manager, Option<Op>) {
    if a in m.retired then (m, None) else (ApplyLive(m, a, u), Some(Append(a, u, None)))
  }

  /** An edit through a handle. Only the document under its address emits: one that was unloaded or
      revoked has no listener left. */
  function Edit(m: Manager, h: nat, u: Update, outboxId: Option<int>): (Manager, Option<Op>) {
    if h >= |m.holders| || m.holders[h].stage.Awaiting? || m.holders[h].entry >= |m.entries|
       || !m.entries[m.holders[h].entry].hydration.Hydrated? then (m, None)
    else
      var a := m.holders[h].address;
      if a in m.live && m.live[a] == m.holders[h].entry then (ApplyLive(m, a, u), Some(Append(a, u, outboxId)))
      else (m, None)
  }

  function RetireAddress(m: Manager, a: Address): (Manager, Op) {
    (m.(retired := m.retired + {a}, live := m.live - {a}), Retire(a))
  }

  // ---------------------------------------------------------------- what every step keeps

  /** How many opens and handles still hold entry `e`. */
  function Count(holders: seq<Holder>, e: nat): nat {
    if holders == [] then 0 else
      var last := holders[|holders| - 1];
      Count(holders[..|holders| - 1], e) + (if last.entry == e && !last.stage.Gone? then 1 else 0)
  }

  lemma CountPush(holders: seq<Holder>, h: Holder, e: nat)
    ensures Count(holders + [h], e) == Count(holders, e) + (if h.entry == e && !h.stage.Gone? then 1 else 0)
  {
    assert (holders + [h])[..|holders|] == holders;
  }

  lemma {:induction false} CountSet(holders: seq<Holder>, h: nat, s: Stage, e: nat)
    requires h < |holders|
    ensures Count(holders[h := holders[h].(stage := s)], e)
         == Count(holders, e)
            - (if holders[h].entry == e && !holders[h].stage.Gone? then 1 else 0)
            + (if holders[h].entry == e && !s.Gone? then 1 else 0)
  {
    var front, n := holders[..|holders| - 1], |holders| - 1;
    var changed := holders[h := holders[h].(stage := s)];
    if h < n {
      CountSet(front, h, s, e);
      assert changed[..n] == front[h := holders[h].(stage := s)];
    } else {
      assert changed[..n] == front;
    }
  }

  lemma {:induction false} CountNone(holders: seq<Holder>, e: nat)
    requires forall h :: 0 <= h < |holders| && holders[h].entry == e ==> holders[h].stage.Gone?
    ensures Count(holders, e) == 0
  {
    if holders != [] {
      CountNone(holders[..|holders| - 1], e);
    }
  }

  /** An address in `live` names an entry of its own, not retired, whose references are exactly the opens
      and handles that still hold it, at least one. */
  ghost predicate LiveOk(m: Manager, a: Address)
    requires a in m.live
  {
    && m.live[a] < |m.entries| && m.entries[m.live[a]].address == a && a !in m.retired
    && 0 < m.entries[m.live[a]].references == Count(m.holders, m.live[a])
  }

  /** An open or handle names an entry of its address; unless it is done or the address is retired, that
      entry is the live one. A handle's document is fully hydrated. */
  ghost predicate HolderOk(m: Manager, h: nat)
    requires h < |m.holders|
  {
    var o := m.holders[h];
    && o.entry < |m.entries| && m.entries[o.entry].address == o.address
    && (!o.stage.Gone? && o.address !in m.retired ==> o.address in m.live && m.live[o.address] == o.entry)
    && (o.stage.Held? ==> m.entries[o.entry].hydration.Hydrated?)
  }

  ghost predicate Inv(m: Manager) {
    && (forall a :: a in m.live ==> LiveOk(m, a))
    && (forall h :: 0 <= h < |m.holders| ==> HolderOk(m, h))
  }

  lemma OpenKeeps(m: Manager, a: Address)
    requires Inv(m)
    ensures Inv(OpenBegin(m, a).0)
  {
    var n := OpenBegin(m, a).0;
    if a !in m.retired {
      var e := if a in m.live then m.live[a] else |m.entries|;
      forall h | 0 <= h < |m.holders| ensures m.holders[h].entry < |m.entries| { assert HolderOk(m, h); }
      if a !in m.live { CountNone(m.holders, e); }
      forall b | b in n.live ensures LiveOk(n, b) {
        assert b != a ==> LiveOk(m, b);
        assert a in m.live ==> LiveOk(m, a);
        CountPush(m.holders, Holder(e, a, Awaiting), n.live[b]);
      }
      forall h | 0 <= h < |n.holders| ensures HolderOk(n, h) {
        assert h < |m.holders| ==> HolderOk(m, h);
        assert a in m.live ==> LiveOk(m, a);
      }
    }
  }

  /** Steps on one entry's document or hydration. */
  lemma EntryKeeps(m: Manager, e: nat, d: LiveDocument)
    requires Inv(m) && e < |m.entries|
    requires d.address == m.entries[e].address && d.references == m.entries[e].references
    requires m.entries[e].hydration.Hydrated? ==> d.hydration.Hydrated?
    ensures Inv(m.(entries := m.entries[e := d]))
  {
    var n := m.(entries := m.entries[e := d]);
    forall a | a in n.live ensures LiveOk(n, a) { assert LiveOk(m, a); }
    forall h | 0 <= h < |n.holders| ensures HolderOk(n, h) { assert HolderOk(m, h); }
  }

  /** Giving up one hold and releasing its address: the entry released is the holder's own, or none. */
  lemma ReleaseKeeps(m: Manager, h: nat)
    requires Inv(m) && h < |m.holders| && !m.holders[h].stage.Gone?
    ensures Inv(Release(SetStage(m, h, Gone), m.holders[h].address))
  {
    var a, e := m.holders[h].address, m.holders[h].entry;
    var s := SetStage(m, h, Gone);
    var n := Release(s, a);
    assert HolderOk(m, h);
    assert a in m.live ==> LiveOk(m, a) && m.live[a] == e;
    forall b | b in n.live ensures LiveOk(n, b) {
      assert LiveOk(m, b);
      CountSet(m.holders, h, Gone, m.live[b]);
    }
    forall k | 0 <= k < |n.holders| ensures HolderOk(n, k) {
      assert HolderOk(m, k);
      if !n.holders[k].stage.Gone? && n.holders[k].address == a && a !in m.retired {
        CountSet(m.holders, h, Gone, e);
        assert Count(s.holders, e) > 0 by { CountSome(s.holders, k); }
      }
    }
  }

  lemma {:induction false} CountSome(holders: seq<Holder>, k: nat)
    requires k < |holders| && !holders[k].stage.Gone?
    ensures Count(holders, holders[k].entry) > 0
  {
    if k < |holders| - 1 {
      CountSome(holders[..|holders| - 1], k);
    }
  }

  lemma OpenEndKeeps(m: Manager, h: nat)
    requires Inv(m)
    ensures Inv(OpenEnd(m, h))
  {
    if h < |m.holders| && m.holders[h].stage.Awaiting? {
      assert HolderOk(m, h);
      ReleaseKeeps(m, h);
      var n := SetStage(m, h, Held);
      if m.entries[m.holders[h].entry].hydration.Hydrated? {
        forall a | a in n.live ensures LiveOk(n, a) {
          assert LiveOk(m, a);
          CountSet(m.holders, h, Held, m.live[a]);
        }
        forall k | 0 <= k < |n.holders| ensures HolderOk(n, k) { assert HolderOk(m, k); }
      }
    }
  }

  lemma RetireKeeps(m: Manager, a: Address)
    requires Inv(m)
    ensures Inv(RetireAddress(m, a).0)
  {
    var n := RetireAddress(m, a).0;
    forall b | b in n.live ensures LiveOk(n, b) { assert LiveOk(m, b); }
    forall h | 0 <= h < |n.holders| ensures HolderOk(n, h) { assert HolderOk(m, h); }
  }

  // ---------------------------------------------------------------- runs

  datatype Event =
    | Open(address: Address)
    | ReadDoneEvent(entry: nat, chain: seq<Update>)
    | FailEvent(entry: nat)
    | OverlayEvent(entry: nat, pending: seq<Update>)
    | OpenEndEvent(holder: nat)
    | DisposeEvent(holder: nat)
    | Remote(address: Address, bytes: Update)
    | EditEvent(holder: nat, bytes: Update, outboxId: Option<int>)
    | RetireEvent(address: Address)

  function Next(m: Manager, e: Event): (Manager, seq<Op>) {
    match e
    case Open(a) => (OpenBegin(m, a).0, [])
    case ReadDoneEvent(i, chain) => (ReadDone(m, i, chain), [])
    case FailEvent(i) => (Fail(m, i), [])
    case OverlayEvent(i, pending) => (Overlay(m, i, pending), [])
    case OpenEndEvent(h) => (OpenEnd(m, h), [])
    case DisposeEvent(h) => (Dispose(m, h), [])
    case Remote(a, u) =>
      var r := AcceptRemote(m, a, u); (r.0, if r.1.Some? then [r.1.value] else [])
    case EditEvent(h, u, id) =>
      var r := Edit(m, h, u, id); (r.0, if r.1.Some? then [r.1.value] else [])
    case RetireEvent(a) => var r := RetireAddress(m, a); (r.0, [r.1])
  }

  lemma NextKeeps(m: Manager, e: Event)
    requires Inv(m)
    ensures Inv(Next(m, e).0)
  {
    match e
    case Open(a) => OpenKeeps(m, a);
    case ReadDoneEvent(i, chain) =>
      if ReadDone(m, i, chain) != m { EntryKeeps(m, i, m.entries[i].(hydration := ChainRead(chain))); }
    case FailEvent(i) => if Fail(m, i) != m { EntryKeeps(m, i, m.entries[i].(hydration := HydrationFailed)); }
    case OverlayEvent(i, pending) =>
      if Overlay(m, i, pending) != m { EntryKeeps(m, i, Overlay(m, i, pending).entries[i]); }
    case OpenEndEvent(h) => OpenEndKeeps(m, h);
    case DisposeEvent(h) => if Dispose(m, h) != m { ReleaseKeeps(m, h); }
    case Remote(a, u) => LiveKeeps(m, a, u);
    case EditEvent(h, u, id) => if Edit(m, h, u, id).1.Some? { LiveKeeps(m, m.holders[h].address, u); }
    case RetireEvent(a) => RetireKeeps(m, a);
  }

  lemma LiveKeeps(m: Manager, a: Address, u: Update)
    requires Inv(m)
    ensures Inv(ApplyLive(m, a, u))
  {
    if a in m.live {
      assert LiveOk(m, a);
      EntryKeeps(m, m.live[a], m.entries[m.live[a]].(doc := m.entries[m.live[a]].doc + u));
    }
  }

  function Run(m: Manager, events: seq<Event>): Manager {
    if events == [] then m else Next(Run(m, events[..|events| - 1]), events[|events| - 1]).0
  }

  lemma {:induction false} RunKeeps(tombstones: set<Address>, events: seq<Event>)
    ensures Inv(Run(Fresh(tombstones), events))
  {
    if events != [] {
      RunKeeps(tombstones, events[..|events| - 1]);
      NextKeeps(Run(Fresh(tombstones), events[..|events| - 1]), events[|events| - 1]);
    }
  }

  /** In every reachable state `references` counts the undisposed handles and the opens still awaiting, and
      an address that is not retired is live exactly while one of them remains: it is unloaded when the
      last goes and not before. */
  lemma ReferencesExact(tombstones: set<Address>, events: seq<Event>, a: Address)
    ensures var m := Run(Fresh(tombstones), events);
            && (a in m.live ==> m.live[a] < |m.entries| && m.entries[m.live[a]].address == a
                                && m.entries[m.live[a]].references == Count(m.holders, m.live[a]))
            && (a in m.live <==>
                a !in m.retired
                && exists h :: 0 <= h < |m.holders| && m.holders[h].address == a && !m.holders[h].stage.Gone?)
  {
    RunKeeps(tombstones, events);
    var m := Run(Fresh(tombstones), events);
    if a in m.live {
      assert LiveOk(m, a);
      if forall h :: 0 <= h < |m.holders| && m.holders[h].address == a ==> m.holders[h].stage.Gone? {
        forall h | 0 <= h < |m.holders| && m.holders[h].entry == m.live[a] ensures m.holders[h].stage.Gone? {
          assert HolderOk(m, h);
        }
        CountNone(m.holders, m.live[a]);
      }
    }
    if h :| 0 <= h < |m.holders| && m.holders[h].address == a && !m.holders[h].stage.Gone? {
      assert HolderOk(m, h);
    }
  }

  function LessOne(d: LiveDocument): LiveDocument { d.(references := d.references - 1) }

  /** Disposing twice, or a handle whose document was revoked, releases nothing; any other dispose
      releases the handle's own entry and no newer one. */
  lemma StaleDisposeHarmless(tombstones: set<Address>, events: seq<Event>, h: nat)
    requires h < |Run(Fresh(tombstones), events).holders|
    ensures var m := Run(Fresh(tombstones), events);
            var o, n := m.holders[h], Dispose(m, h);
            && Dispose(n, h) == n
            && o.entry < |m.entries|
            && (n.entries == m.entries
                || (o.address !in m.retired
                    && n.entries == m.entries[o.entry := LessOne(m.entries[o.entry])]))
            && (o.address in m.retired || !o.stage.Held? ==> n.entries == m.entries && n.live == m.live)
  {
    RunKeeps(tombstones, events);
    var m := Run(Fresh(tombstones), events);
    assert HolderOk(m, h);
    if m.holders[h].address in m.live { assert LiveOk(m, m.holders[h].address); }
  }

  // ---------------------------------------------------------------- what opens and handles come to

  /** An open of an address that is not retired awaits the entry that is live there, holding it, or a new one whose
      chain is to be read. */
  lemma OpenExactly(tombstones: set<Address>, events: seq<Event>, a: Address)
    ensures
      var m := Run(Fresh(tombstones), events);
      var (n, holder) := OpenBegin(m, a);
      if a in m.retired then n == m && holder == None
      else
        && holder == Some(|m.holders|) && a in n.live && n.live[a] < |n.entries| && n.retired == m.retired
        && n.holders == m.holders + [Holder(n.live[a], a, Awaiting)]
        && (a !in m.live ==> n.live[a] == |m.entries| && n.entries == m.entries + [LiveDocument(a, {}, 1, Reading)])
        && (a in m.live ==>
            && n.live == m.live && n.live[a] < |m.entries| && |n.entries| == |m.entries|
            && LessOne(n.entries[n.live[a]]) == m.entries[n.live[a]]
            && forall e :: 0 <= e < |m.entries| && e != n.live[a] ==> n.entries[e] == m.entries[e])
  {
    RunKeeps(tombstones, events);
    var m := Run(Fresh(tombstones), events);
    if a in m.live { assert LiveOk(m, a); }
  }

  /** A hydration that has not finished can fail, at the read or at the overlay; nothing else changes. */
  lemma FailExactly(m: Manager, e: nat)
    requires e < |m.entries|
    ensures
      var n, h := Fail(m, e), m.entries[e].hydration;
      && n.live == m.live && n.holders == m.holders && n.retired == m.retired && |n.entries| == |m.entries|
      && (forall i :: 0 <= i < |m.entries| && i != e ==> n.entries[i] == m.entries[i])
      && n.entries[e].(hydration := h) == m.entries[e]
      && (n.entries[e].hydration == if h.Hydrated? then h else HydrationFailed)
  {
  }

  /** Holder `h` gave up its hold on the entry that is live under its address, and nothing else changed: the document
      is unloaded if that was the last hold. */
  ghost predicate GivesUp(m: Manager, h: nat, n: Manager)
    requires h < |m.holders|
  {
    var a, e := m.holders[h].address, m.holders[h].entry;
    && n.retired == m.retired && n.holders == m.holders[h := Holder(e, a, Gone)]
    && if a in m.retired then n.entries == m.entries && n.live == m.live
       else
         && e < |m.entries| == |n.entries| && n.entries == m.entries[e := LessOne(m.entries[e])]
         && n.live == if n.entries[e].references == 0 then m.live - {a} else m.live
  }

  lemma ReleaseExactly(m: Manager, h: nat)
    requires Inv(m) && h < |m.holders| && !m.holders[h].stage.Gone?
    ensures GivesUp(m, h, Release(SetStage(m, h, Gone), m.holders[h].address))
  {
    var a := m.holders[h].address;
    assert HolderOk(m, h);
    if a in m.live { assert LiveOk(m, a); }
  }

  /** Once hydration has settled an open resolves: to a handle exactly when it succeeded and the address is not
      retired, and otherwise to an error, its hold given up. Until then it goes on waiting. */
  lemma OpenEndExactly(tombstones: set<Address>, events: seq<Event>, h: nat)
    requires h < |Run(Fresh(tombstones), events).holders|
    requires Run(Fresh(tombstones), events).holders[h].stage.Awaiting?
    ensures
      var m := Run(Fresh(tombstones), events);
      var n, o := OpenEnd(m, h), m.holders[h];
      o.entry < |m.entries| &&
      match m.entries[o.entry].hydration
      case Hydrated =>
        if o.address in m.retired then GivesUp(m, h, n) else n == m.(holders := m.holders[h := o.(stage := Held)])
      case HydrationFailed => GivesUp(m, h, n)
      case _ => n == m
  {
    RunKeeps(tombstones, events);
    var m := Run(Fresh(tombstones), events);
    assert HolderOk(m, h);
    ReleaseExactly(m, h);
  }

  /** Disposing a handle gives its hold up, and it is a handle no more. */
  lemma DisposeExactly(tombstones: set<Address>, events: seq<Event>, h: nat)
    requires h < |Run(Fresh(tombstones), events).holders|
    ensures
      var m := Run(Fresh(tombstones), events);
      if m.holders[h].stage.Held? then GivesUp(m, h, Dispose(m, h)) else Dispose(m, h) == m
  {
    RunKeeps(tombstones, events);
    var m := Run(Fresh(tombstones), events);
    if m.holders[h].stage.Held? { ReleaseExactly(m, h); }
  }

  /** An edit through a handle goes into the live document and is handed on as it is, to be sent; one through a
      handle whose address is retired goes nowhere. */
  lemma EditExactly(tombstones: set<Address>, events: seq<Event>, h: nat, u: Update, id: Option<int>)
    requires h < |Run(Fresh(tombstones), events).holders|
    requires Run(Fresh(tombstones), events).holders[h].stage.Held?
    ensures
      var m := Run(Fresh(tombstones), events);
      var e, a := m.holders[h].entry, m.holders[h].address;
      var (n, op) := Edit(m, h, u, id);
      if a in m.retired then n == m && op == None
      else
        && e < |m.entries| && op == Some(Append(a, u, id))
        && n == m.(entries := m.entries[e := m.entries[e].(doc := m.entries[e].doc + u)])
  {
    RunKeeps(tombstones, events);
    var m := Run(Fresh(tombstones), events);
    assert HolderOk(m, h);
    if m.holders[h].address in m.live { assert LiveOk(m, m.holders[h].address); }
  }

  /** Every open among the first `k` holders resolves that can. */
  function Resolved(m: Manager, k: nat): Manager {
    if k == 0 then m else OpenEnd(Resolved(m, k - 1), k - 1)
  }

  /** What resolving opens leaves alone. */
  ghost predicate Resolves(m: Manager, n: Manager) {
    && n.retired == m.retired && |n.entries| == |m.entries| && |n.holders| == |m.holders|
    && (forall e :: 0 <= e < |m.entries| ==> SameEntry(m.entries[e], n.entries[e]))
    && (forall h :: 0 <= h < |m.holders| ==>
        n.holders[h].entry == m.holders[h].entry && n.holders[h].address == m.holders[h].address)
    && forall a :: a in n.live ==> a in m.live && n.live[a] == m.live[a]
  }

  ghost predicate SameEntry(d: LiveDocument, d': LiveDocument) {
    d'.address == d.address && d'.hydration == d.hydration && d'.doc == d.doc
  }

  /** The opens and handles of a failed entry among the first `k` holders are done. */
  ghost predicate Done(m: Manager, e: nat, k: nat)
    requires k <= |m.holders|
  {
    forall h :: 0 <= h < k && m.holders[h].entry == e ==> m.holders[h].stage.Gone?
  }

  lemma OneResolves(m: Manager, h: nat)
    ensures Resolves(m, OpenEnd(m, h))
    ensures forall i :: 0 <= i < |m.holders| && i != h ==> OpenEnd(m, h).holders[i] == m.holders[i]
  {
  }

  lemma {:induction false} ResolvedDone(m: Manager, e: nat, k: nat)
    requires Inv(m) && e < |m.entries| && m.entries[e].hydration.HydrationFailed? && k <= |m.holders|
    ensures Inv(Resolved(m, k)) && Resolves(m, Resolved(m, k)) && Done(Resolved(m, k), e, k)
  {
    hide Inv, OpenEnd;
    if k > 0 {
      ResolvedDone(m, e, k - 1);
      var n := Resolved(m, k - 1);
      OneResolves(n, k - 1);
      OpenEndKeeps(n, k - 1);
      ResolvesOn(m, n, OpenEnd(n, k - 1));
      if n.holders[k - 1].entry == e { FailedIsGone(m, n, e, k - 1); }
    }
  }

  lemma ResolvesOn(m: Manager, n: Manager, o: Manager)
    requires Resolves(m, n) && Resolves(n, o)
    ensures Resolves(m, o)
  {
  }

  lemma FailedIsGone(m: Manager, n: Manager, e: nat, h: nat)
    requires Inv(n) && Resolves(m, n) && h < |n.holders| && n.holders[h].entry == e
    requires e < |m.entries| && m.entries[e].hydration.HydrationFailed?
    ensures OpenEnd(n, h).holders[h].stage.Gone?
  {
    assert HolderOk(n, h) && SameEntry(m.entries[e], n.entries[e]);
  }

  /** A failed hydration does not stay: once the opens that shared it have resolved, its document is not live any
      more, and the next open of the address starts one afresh. */
  lemma FailedOpensClear(tombstones: set<Address>, events: seq<Event>, e: nat)
    requires e < |Run(Fresh(tombstones), events).entries|
    requires Run(Fresh(tombstones), events).entries[e].hydration.HydrationFailed?
    ensures
      var m := Run(Fresh(tombstones), events);
      var n, a := Resolved(m, |m.holders|), m.entries[e].address;
      && (forall h :: 0 <= h < |n.holders| && n.holders[h].entry == e ==> n.holders[h].stage.Gone?)
      && !(a in n.live && n.live[a] == e)
      && (a in m.live && m.live[a] == e ==>
          && a !in n.live
          && var next := OpenBegin(n, a).0;
             && next.live == n.live[a := |m.entries|]
             && next.entries == n.entries + [LiveDocument(a, {}, 1, Reading)]
             && next.holders == n.holders + [Holder(|m.entries|, a, Awaiting)])
  {
    RunKeeps(tombstones, events);
    var m := Run(Fresh(tombstones), events);
    ResolvedDone(m, e, |m.holders|);
    var n, a := Resolved(m, |m.holders|), m.entries[e].address;
    if a in m.live { assert LiveOk(m, a); }
    if a in n.live && n.live[a] == e {
      assert LiveOk(n, a);
      CountNone(n.holders, e);
    }
  }

  // ---------------------------------------------------------------- retirement

  lemma {:induction false} RetiredGrows(m: Manager, events: seq<Event>)
    ensures m.retired <= Run(m, events).retired
  {
    if events != [] {
      RetiredGrows(m, events[..|events| - 1]);
      RetiredStep(Run(m, events[..|events| - 1]), events[|events| - 1]);
    }
  }

  lemma RetiredStep(m: Manager, e: Event)
    ensures Next(m, e).0.retired == if e.RetireEvent? then m.retired + {e.address} else m.retired
  {
  }

  /** No step produces an append for a retired address. */
  lemma RetiredEmitsNothing(m: Manager, e: Event, a: Address)
    requires Inv(m) && a in m.retired
    ensures forall op :: op in Next(m, e).1 ==> !(op.Append? && op.document == a)
  {
    assert a in m.live ==> LiveOk(m, a);
  }

  /** No step turns an open of a retired address into a handle, not even one that was already hydrating. */
  lemma RetiredHandsOutNothing(m: Manager, e: Event, a: Address, h: nat)
    requires Inv(m) && a in m.retired && h < |Next(m, e).0.holders|
    requires Next(m, e).0.holders[h].address == a && Next(m, e).0.holders[h].stage.Held?
    ensures h < |m.holders| && m.holders[h].stage.Held?
  {
    if h < |m.holders| { assert HolderOk(m, h); }
  }

  /** Retirement is permanent. Whatever happened before and happens after, once `a` is retired it stays
      so, no step hands out a handle for it, and no step produces an append for it. */
  lemma RetiredForGood(tombstones: set<Address>, before: seq<Event>, after: seq<Event>, a: Address, e: Event)
    requires a in Run(Fresh(tombstones), before).retired
    ensures var m := Run(Run(Fresh(tombstones), before), after);
            && a in Next(m, e).0.retired && a !in Next(m, e).0.live
            && (forall op :: op in Next(m, e).1 ==> !(op.Append? && op.document == a))
            && (forall h :: 0 <= h < |Next(m, e).0.holders| && Next(m, e).0.holders[h].address == a ==>
                  Next(m, e).0.holders[h].stage.Held? ==> h < |m.holders| && m.holders[h].stage.Held?)
            && OpenBegin(m, a) == (m, None)
  {
    var m := Run(Run(Fresh(tombstones), before), after);
    RetiredGrows(Run(Fresh(tombstones), before), after);
    RunConcat(Fresh(tombstones), before, after);
    RunKeeps(tombstones, before + after);
    RetiredStep(m, e);
    NextKeeps(m, e);
    RetiredEmitsNothing(m, e, a);
    var n := Next(m, e).0;
    assert a in n.live ==> LiveOk(n, a);
    forall h | 0 <= h < |n.holders| && n.holders[h].address == a && n.holders[h].stage.Held?
      ensures h < |m.holders| && m.holders[h].stage.Held?
    {
      RetiredHandsOutNothing(m, e, a, h);
    }
  }

  lemma {:induction false} RunConcat(m: Manager, x: seq<Event>, y: seq<Event>)
    ensures Run(m, x + y) == Run(Run(m, x), y)
  {
    if y == [] {
      assert x + y == x;
    } else {
      RunConcat(m, x, y[..|y| - 1]);
      assert (x + y)[..|x + y| - 1] == x + y[..|y| - 1];
    }
  }

  // ---------------------------------------------------------------- the manager as it runs

  /** Each method is one await-free segment. A holder number stands for the promise `open` returned and
      then for the handle it resolved to. */
  class DocumentEngine {
    var live: map<Address, nat>
    var entries: seq<LiveDocument>
    var holders: seq<Holder>
    var retired: set<Address>

    function View(): Manager
      reads this
    {
      Manager(live, entries, holders, retired)
    }

    constructor (tombstones: set<Address>)
      ensures View() == Fresh(tombstones) && Inv(View())
    {
      live, entries, holders, retired := map[], [], [], tombstones;
    }

    method Open(address: Address) returns (holder: Option<nat>)
      requires Inv(View())
      modifies this
      ensures (View(), holder) == OpenBegin(old(View()), address) && Inv(View())
    {
      OpenKeeps(View(), address);
      if address in retired { return None; }
      if address !in live {
        live := live[address := |entries|];
        entries := entries + [LiveDocument(address, {}, 0, Reading)];
      } else {
        assert LiveOk(View(), address);
      }
      var e := live[address];
      entries := entries[e := entries[e].(references := entries[e].references + 1)];
      holders := holders + [Holder(e, address, Awaiting)];
      assert entries == OpenBegin(old(View()), address).0.entries;
      holder := Some(|holders| - 1);
    }

    /** `readDocument` answered. */
    method ChainArrives(e: nat, chain: seq<Update>)
      requires e < |entries| && entries[e].hydration.Reading?
      modifies this`entries
      ensures View() == ReadDone(old(View()), e, chain)
    {
      entries := entries[e := entries[e].(hydration := ChainRead(chain))];
    }

    /** The rest of `hydrate`, with what `pendingAppends` answers at that moment. */
    method FinishHydration(e: nat, pending: seq<Update>)
      requires e < |entries| && entries[e].hydration.ChainRead?
      modifies this`entries
      ensures View() == Overlay(old(View()), e, pending)
    {
      var doc := entries[e].doc;
      doc := ApplyEach(doc, entries[e].hydration.chain);
      doc := ApplyEach(doc, pending);
      entries := entries[e := entries[e].(doc := doc, hydration := Hydrated)];
    }

    static method ApplyEach(doc: Update, updates: seq<Update>) returns (out: Update)
      ensures out == doc + JoinAll(updates)
    {
      out := doc;
      for i := 0 to |updates|
        invariant out == doc + JoinAll(updates[..i])
      {
        assert updates[..i + 1][..i] == updates[..i];
        out := out + updates[i];
      }
      assert updates[..|updates|] == updates;
    }

    method ReleaseHold(address: Address)
      requires address in live ==> live[address] < |entries|
      modifies this`live, this`entries
      ensures View() == Release(old(View()), address)
    {
      if address !in live { return; }
      var e := live[address];
      entries := entries[e := entries[e].(references := entries[e].references - 1)];
      if entries[e].references > 0 { return; }
      live := live - {address};
    }

    /** The continuation of `open`: a handle, or the error it concludes. */
    method OpenResolves(h: nat) returns (handle: bool)
      requires Inv(View()) && h < |holders| && holders[h].stage.Awaiting?
      requires holders[h].entry < |entries|
      requires entries[holders[h].entry].hydration.Hydrated? || entries[holders[h].entry].hydration.HydrationFailed?
      modifies this
      ensures View() == OpenEnd(old(View()), h) && Inv(View())
      ensures handle <==> entries[holders[h].entry].hydration.Hydrated? && holders[h].address !in retired
      ensures holders[h].stage == if handle then Held else Gone
    {
      OpenEndKeeps(View(), h);
      var a, e := holders[h].address, holders[h].entry;
      assert HolderOk(View(), h);
      assert a in live ==> LiveOk(View(), a);
      handle := entries[e].hydration.Hydrated? && a !in retired;
      holders := holders[h := holders[h].(stage := if handle then Held else Gone)];
      if !handle { ReleaseHold(a); }
    }

    method DisposeHandle(h: nat)
      requires Inv(View()) && h < |holders|
      modifies this
      ensures View() == Dispose(old(View()), h) && Inv(View()) && !holders[h].stage.Held?
    {
      if !holders[h].stage.Held? { return; }
      ReleaseKeeps(View(), h);
      var a := holders[h].address;
      assert a in live ==> LiveOk(View(), a);
      holders := holders[h := holders[h].(stage := Gone)];
      ReleaseHold(a);
    }

    method Accept(address: Address, bytes: Update) returns (op: Option<Op>)
      requires Inv(View())
      modifies this`entries
      ensures (View(), op) == AcceptRemote(old(View()), address, bytes) && Inv(View())
    {
      LiveKeeps(View(), address, bytes);
      if address in retired { return None; }
      if address in live {
        var e := live[address];
        assert LiveOk(View(), address);
        entries := entries[e := entries[e].(doc := entries[e].doc + bytes)];
      }
      op := Some(Append(address, bytes, None));
    }

    /** The update listener of a document the application writes in through holder `h`. */
    method Written(h: nat, bytes: Update, outboxId: Option<int>) returns (op: Option<Op>)
      requires Inv(View()) && h < |holders| && holders[h].stage.Held?
      modifies this`entries
      ensures (View(), op) == Edit(old(View()), h, bytes, outboxId) && Inv(View())
      ensures op == if holders[h].address in retired then None
        else Some(Append(holders[h].address, bytes, outboxId))
    {
      var a, e := holders[h].address, holders[h].entry;
      assert HolderOk(View(), h);
      LiveKeeps(View(), a, bytes);
      if a in live { assert LiveOk(View(), a); }
      if a !in live || live[a] != e { return None; }
      entries := entries[e := entries[e].(doc := entries[e].doc + bytes)];
      op := Some(Append(a, bytes, outboxId));
    }

    method RetireDocument(address: Address) returns (op: Op)
      requires Inv(View())
      modifies this`retired, this`live
      ensures (View(), op) == RetireAddress(old(View()), address) && Inv(View())
    {
      RetireKeeps(View(), address);
      retired := retired + {address};
      assert address !in live ==> live - {address} == live;
      if address in live { live := live - {address}; }
      op := Retire(address);
    }
  }
}
