/** Whole runs of one store: the document manager, the persistence controller and the durable engine
    together, with every interleaving of opens, reads, edits, remote batches, refused envelopes, retirements,
    commits, failed commits and crashes. */
module StoreRuns {
  import opened Relations
  import opened Updates
  import opened Facts
  import D = Documents
  import P = Persistence
  import R = Draining
  import opened Wrappers

  /** History of one entry: how many enqueues had been accepted when it was opened, how many were durable
      when its chain was read, what of its document neither the chain nor the overlay brought, and what
      envelopes refused part way left in it. */
  datatype Trace = Trace(since: nat, at: nat, missed: Update, stray: Update)

  /** `loaded` is what the engine held when this session opened. */
  datatype World = World(loaded: Durable, docs: D.Manager, ctl: P.Controller, traces: seq<Trace>)

  function Boot(f: Durable): World { World(f, D.Fresh(f.tombstones), P.Init(P.MirrorOf(f)), []) }

  function Debt(w: World): P.Debt { w.ctl.debt }

  /** Every operation accepted this session, in order. */
  function Accepted(w: World): seq<Op> { Span(Debt(w).groups, 0, |Debt(w).groups|) }

  /** What the engine holds now. */
  function Stored(w: World): Durable
    requires Debt(w).durable <= |Debt(w).groups|
  {
    ApplyAll(w.loaded, P.Committed(Debt(w)))
  }

  /** Everything ever accepted for `a`: what a complete document holds. */
  function Total(w: World, a: Address): Update { Content(ApplyAll(w.loaded, Accepted(w)), a) }

  /** Appends for `a` among enqueues `i` to `j`. */
  function Part(groups: seq<seq<Op>>, a: Address, i: nat, j: nat): Update
    requires j <= |groups|
  {
    Appended(Span(groups, i, j), a)
  }

  // ---------------------------------------------------------------- events

  datatype Event =
    | Open(address: Address)
    | Read(entry: nat, chain: seq<Update>)
    | ReadFails(entry: nat)
    | Overlay(entry: nat)
    | OpenEnd(holder: nat)
    | Dispose(holder: nat)
    | Edit(holder: nat, bytes: Update, outboxId: Option<int>, outcome: P.Outcome)
    | Remote(sections: seq<(Address, Update)>, cursor: Option<int>, outcome: P.Outcome)
    | Refused(sections: seq<(Address, Update)>, k: nat)
    | RetireRow(address: Address, app: seq<Op>, outcome: P.Outcome)
    | Other(ops: seq<Op>, outcome: P.Outcome)
    | Flush(w: nat, outcome: P.Outcome)
    | Land(ok: bool)
    | Then
    | Finally(outcome: P.Outcome)
    | Crash

  /** Operations of the application document and of the sync sender. */
  predicate AppOnly(ops: seq<Op>) {
    forall op :: op in ops ==> (op.Append? ==> op.document == APP_DOCUMENT) && !op.Retire?
  }

  /** What the callers and the port promise: row addresses are not the application document's name, a read
      answers the stored chain, other operations concern the application document only. */
  ghost predicate Allowed(w: World, e: Event) {
    match e
    case Open(a) => a != APP_DOCUMENT
    case Read(i, chain) =>
      Debt(w).durable <= |Debt(w).groups| &&
      (i < |w.docs.entries| ==> JoinAll(chain) == Content(Stored(w), w.docs.entries[i].address))
    case Refused(sections, k) => k < |sections|
    case RetireRow(a, app, _) => a != APP_DOCUMENT && AppOnly(app)
    case Other(ops, _) => AppOnly(ops)
    case _ => true
  }

  /** The sections of one envelope: applied live where open, dropped where retired. */
  function AcceptSections(m: D.Manager, sections: seq<(Address, Update)>): (D.Manager, seq<Op>) {
    if sections == [] then (m, []) else
      var r := AcceptSections(m, sections[..|sections| - 1]);
      var (a, u) := sections[|sections| - 1];
      if a == APP_DOCUMENT then (r.0, r.1 + [Append(a, u, None)])
      else
        var (n, op) := D.AcceptRemote(r.0, a, u);
        (n, r.1 + if op.Some? then [op.value] else [])
  }

  /** What hydration of entry `i` misses if its overlay is computed now: appends accepted before the open
      that were not durable when the chain was read and are confirmed by now. */
  function Missed(w: World, i: nat): seq<Op>
    requires i < |w.traces| && Debt(w).base <= |Debt(w).groups|
  {
    var t, b := w.traces[i], Debt(w).base;
    Span(Debt(w).groups, t.at, if t.since < b then t.since else b)
  }

  predicate OpenNow(m: D.Manager, i: nat)
    requires i < |m.entries|
  {
    m.entries[i].address in m.live && m.live[m.entries[i].address] == i
  }

  /** What sections applied live and never enqueued leave in the entry under their address. */
  function Strayed(w: World, ops: seq<Op>): seq<Trace> {
    seq(|w.traces|, i requires 0 <= i < |w.traces| =>
      if i < |w.docs.entries| && OpenNow(w.docs, i) then
        w.traces[i].(stray := w.traces[i].stray + Appended(ops, w.docs.entries[i].address))
      else w.traces[i])
  }

  function Enqueued(w: World, m: D.Manager, ops: seq<Op>, outcome: P.Outcome): World {
    w.(docs := m, ctl := P.Enqueue(w.ctl, ops, outcome))
  }

  function Next(w: World, e: Event): World {
    match e
    case Open(a) =>
      var m := D.OpenBegin(w.docs, a).0;
      w.(docs := m, traces := if |m.entries| > |w.docs.entries| then w.traces + [Trace(|Debt(w).groups|, 0, {}, {})]
                              else w.traces)
    case Read(i, chain) =>
      var m := D.ReadDone(w.docs, i, chain);
      if m == w.docs || i >= |w.traces| then w
      else w.(docs := m, traces := w.traces[i := w.traces[i].(at := Debt(w).durable)])
    case ReadFails(i) => w.(docs := D.Fail(w.docs, i))
    case Overlay(i) =>
      if i >= |w.docs.entries| || i >= |w.traces| || !w.docs.entries[i].hydration.ChainRead?
         || Debt(w).base > |Debt(w).groups| then w
      else
        var a := w.docs.entries[i].address;
        w.(docs := D.Overlay(w.docs, i, P.PendingAppends(Debt(w), a)),
           traces := w.traces[i := w.traces[i].(missed := Appended(Missed(w, i), a))])
    case OpenEnd(h) => w.(docs := D.OpenEnd(w.docs, h))
    case Dispose(h) => w.(docs := D.Dispose(w.docs, h))
    case Edit(h, u, id, outcome) =>
      var (m, op) := D.Edit(w.docs, h, u, id);
      Enqueued(w, m, if op.Some? then [op.value] else [], outcome)
    case Remote(sections, cursor, outcome) =>
      var (m, ops) := AcceptSections(w.docs, sections);
      Enqueued(w, m, ops + (if cursor.Some? then [Cursor(cursor.value)] else []), outcome)
    case Refused(sections, k) =>
      // Section `k` does not decode: those before it stay applied, and nothing is enqueued.
      if k >= |sections| then w else
        var (m, ops) := AcceptSections(w.docs, sections[..k]);
        w.(docs := m, traces := Strayed(w, ops))
    case RetireRow(a, app, outcome) =>
      var (m, op) := D.RetireAddress(w.docs, a);
      Enqueued(w, m, app + [op], outcome)
    case Other(ops, outcome) => Enqueued(w, w.docs, ops, outcome)
    case Flush(v, outcome) => w.(ctl := P.Flush(w.ctl, v, outcome))
    case Land(ok) => w.(ctl := P.Land(w.ctl, ok))
    case Then => w.(ctl := P.Then(w.ctl))
    case Finally(outcome) => w.(ctl := P.Finally(w.ctl, outcome))
    case Crash => if Debt(w).durable <= |Debt(w).groups| then Boot(Stored(w)) else w
  }

  // ---------------------------------------------------------------- what every step keeps

  /** A tombstoned document holds nothing. */
  ghost predicate Healthy(f: Durable) { forall a :: a in f.tombstones ==> a !in f.content }

  /** No operation appends to a document an earlier one tombstoned. */
  ghost predicate Clean(f: Durable, ops: seq<Op>) {
    ops == [] ||
    (Clean(f, ops[..|ops| - 1]) &&
     var op := ops[|ops| - 1];
     op.Append? ==> op.document !in ApplyAll(f, ops[..|ops| - 1]).tombstones)
  }

  /** How far a live entry's document is: what it was given since it was opened while hydrating, and
      afterwards everything except what the overlay missed; and what refused envelopes left. */
  ghost predicate EntryOk(loaded: Durable, groups: seq<seq<Op>>, d: D.LiveDocument, t: Trace) {
    var a, n := d.address, |groups|;
    && t.since <= n && t.at <= n
    && match d.hydration
       case Reading => d.doc == Part(groups, a, t.since, n) + t.stray
       case ChainRead(chain) =>
         && d.doc == Part(groups, a, t.since, n) + t.stray
         && JoinAll(chain) == Content(loaded, a) + Part(groups, a, 0, t.at)
       case Hydrated => d.doc + t.missed == Content(loaded, a) + Part(groups, a, 0, n) + t.stray
       case HydrationFailed => true
  }

  ghost predicate DocsOk(w: World) {
    && D.Inv(w.docs)
    && |w.traces| == |w.docs.entries|
    && APP_DOCUMENT !in w.docs.live && APP_DOCUMENT !in w.docs.retired
    && forall a :: a in w.docs.live ==>
         w.docs.live[a] < |w.docs.entries|
         && EntryOk(w.loaded, Debt(w).groups, w.docs.entries[w.docs.live[a]], w.traces[w.docs.live[a]])
  }

  ghost predicate LogOk(w: World) {
    && Healthy(w.loaded) && Clean(w.loaded, Accepted(w))
    && ApplyAll(w.loaded, Accepted(w)).tombstones == w.docs.retired
  }

  ghost predicate Inv(w: World) { P.Inv(P.MirrorOf(w.loaded), w.ctl) && DocsOk(w) && LogOk(w) }

  lemma PartSplit(groups: seq<seq<Op>>, a: Address, i: nat, j: nat, k: nat)
    requires i <= j <= k <= |groups|
    ensures Part(groups, a, i, k) == Part(groups, a, i, j) + Part(groups, a, j, k)
  {
    SpanSplit(groups, i, j, k);
    AppendedConcat(Span(groups, i, j), Span(groups, j, k), a);
  }

  lemma PartPush(groups: seq<seq<Op>>, ops: seq<Op>, a: Address, i: nat)
    requires i <= |groups|
    ensures Part(groups + [ops], a, i, |groups| + 1) == Part(groups, a, i, |groups|) + Appended(ops, a)
  {
    SpanPush(groups, ops, i);
    AppendedConcat(Span(groups, i, |groups|), ops, a);
  }

  lemma EntryGrows(loaded: Durable, groups: seq<seq<Op>>, ops: seq<Op>, d: D.LiveDocument, d': D.LiveDocument, t: Trace)
    requires EntryOk(loaded, groups, d, t)
    requires d'.address == d.address && d'.hydration == d.hydration && d'.doc == d.doc + Appended(ops, d.address)
    ensures EntryOk(loaded, groups + [ops], d', t)
  {
    PartPush(groups, ops, d.address, t.since);
    PartPush(groups, ops, d.address, 0);
    SpanStays(groups, ops, 0, t.at);
  }

  /** `m'` is `m` after each live document took its share of `ops`. */
  ghost predicate Grown(m: D.Manager, m': D.Manager, ops: seq<Op>) {
    && m'.live == m.live && |m'.entries| == |m.entries| && m'.holders == m.holders && m'.retired == m.retired
    && forall a :: a in m.live ==>
         && m.live[a] < |m.entries|
         && m'.entries[m.live[a]] == m.entries[m.live[a]].(doc := m.entries[m.live[a]].doc + Appended(ops, a))
  }

  lemma GrowOne(m: D.Manager, m': D.Manager, ops: seq<Op>, op: Op)
    requires Grown(m, m', ops) && D.Inv(m') && op.Append?
    ensures Grown(m, D.ApplyLive(m', op.document, op.bytes), ops + [op])
    ensures D.Inv(D.ApplyLive(m', op.document, op.bytes))
  {
    D.LiveKeeps(m', op.document, op.bytes);
    forall a | a in m.live
      ensures Appended(ops + [op], a) == Appended(ops, a) + (if op.document == a then op.bytes else {})
    {
      assert (ops + [op])[..|ops|] == ops;
    }
    forall a | a in m'.live ensures m'.live[a] < |m'.entries| && m'.entries[m'.live[a]].address == a {
      assert D.LiveOk(m', a);
    }
  }

  /** One envelope: every live document takes exactly its own sections, and no retired one is appended to. */
  lemma {:induction false} SectionsGrow(m: D.Manager, sections: seq<(Address, Update)>)
    requires D.Inv(m) && APP_DOCUMENT !in m.live && APP_DOCUMENT !in m.retired
    ensures var r := AcceptSections(m, sections);
            && Grown(m, r.0, r.1) && D.Inv(r.0)
            && forall op :: op in r.1 ==> op.Append? && op.document !in m.retired
  {
    if sections == [] {
      forall a | a in m.live ensures m.live[a] < |m.entries| { assert D.LiveOk(m, a); }
    } else {
      var r := AcceptSections(m, sections[..|sections| - 1]);
      var (a, u) := sections[|sections| - 1];
      SectionsGrow(m, sections[..|sections| - 1]);
      if a == APP_DOCUMENT || a !in m.retired {
        GrowOne(m, r.0, r.1, Append(a, u, None));
      } else {
        assert r.1 + [] == r.1;
      }
    }
  }

  // Enqueueing what the documents took.

  lemma EnqueuedDocs(w: World, m: D.Manager, ops: seq<Op>, outcome: P.Outcome)
    requires DocsOk(w) && D.Inv(m)
    requires APP_DOCUMENT !in m.live && APP_DOCUMENT !in m.retired && |m.entries| == |w.docs.entries|
    requires forall a :: a in m.live ==>
               && a in w.docs.live && m.live[a] == w.docs.live[a] && m.live[a] < |w.docs.entries|
               && m.entries[m.live[a]].address == w.docs.entries[m.live[a]].address == a
               && m.entries[m.live[a]].hydration == w.docs.entries[m.live[a]].hydration
               && m.entries[m.live[a]].doc == w.docs.entries[m.live[a]].doc + Appended(ops, a)
    ensures DocsOk(Enqueued(w, m, ops, outcome))
  {
    P.NextAccepts(w.ctl, P.EnqueueEvent(ops, outcome));
    forall a | a in m.live
      ensures EntryOk(w.loaded, if ops != [] then Debt(w).groups + [ops] else Debt(w).groups,
                      m.entries[m.live[a]], w.traces[m.live[a]])
    {
      var e := m.live[a];
      EntryGrows(w.loaded, Debt(w).groups, ops, w.docs.entries[e], m.entries[e], w.traces[e]);
    }
  }

  lemma {:induction false} CleanConcat(f: Durable, x: seq<Op>, y: seq<Op>)
    ensures Clean(f, x + y) <==> Clean(f, x) && Clean(ApplyAll(f, x), y)
  {
    if y == [] {
      assert x + y == x;
    } else {
      var front := y[..|y| - 1];
      assert (x + y)[..|x + y| - 1] == x + front;
      CleanConcat(f, x, front);
      ApplyConcat(f, x, front);
    }
  }

  lemma {:induction false} TombstonesStay(f: Durable, ops: seq<Op>)
    requires forall op :: op in ops ==> !op.Retire?
    ensures ApplyAll(f, ops).tombstones == f.tombstones
  {
    if ops != [] {
      TombstonesStay(f, ops[..|ops| - 1]);
    }
  }

  lemma {:induction false} CleanHere(f: Durable, ops: seq<Op>)
    requires forall op :: op in ops ==> !op.Retire? && (op.Append? ==> op.document !in f.tombstones)
    ensures Clean(f, ops)
  {
    if ops != [] {
      CleanHere(f, ops[..|ops| - 1]);
      TombstonesStay(f, ops[..|ops| - 1]);
    }
  }

  lemma EnqueuedAccepts(w: World, m: D.Manager, ops: seq<Op>, outcome: P.Outcome)
    ensures Accepted(Enqueued(w, m, ops, outcome)) == Accepted(w) + ops
  {
    hide P.Attempt, P.Accept;
    P.NextAccepts(w.ctl, P.EnqueueEvent(ops, outcome));
    if ops != [] { SpanPush(Debt(w).groups, ops, 0); }
  }

  lemma EnqueuedLog(w: World, m: D.Manager, ops: seq<Op>, outcome: P.Outcome)
    requires LogOk(w)
    requires Clean(ApplyAll(w.loaded, Accepted(w)), ops)
    requires ApplyAll(ApplyAll(w.loaded, Accepted(w)), ops).tombstones == m.retired
    ensures LogOk(Enqueued(w, m, ops, outcome))
  {
    hide Clean, Healthy, ApplyAll, P.Enqueue, Accepted;
    EnqueuedAccepts(w, m, ops, outcome);
    CleanConcat(w.loaded, Accepted(w), ops);
    ApplyConcat(w.loaded, Accepted(w), ops);
  }

  ghost predicate RowsOnly(m: D.Manager) {
    D.Inv(m) && APP_DOCUMENT !in m.live && APP_DOCUMENT !in m.retired
  }

  /** The documents took their share of `ops`, and `ops` retires nothing and appends to nothing retired. */
  ghost predicate Shared(m: D.Manager, m': D.Manager, ops: seq<Op>) {
    && RowsOnly(m) && Grown(m, m', ops) && D.Inv(m')
    && forall op :: op in ops ==> !op.Retire? && (op.Append? ==> op.document !in m.retired)
  }

  lemma SharedDocs(w: World, m: D.Manager, ops: seq<Op>, outcome: P.Outcome)
    requires DocsOk(w) && Shared(w.docs, m, ops)
    ensures DocsOk(Enqueued(w, m, ops, outcome))
  {
    forall a | a in m.live ensures m.entries[m.live[a]].address == a { assert D.LiveOk(m, a); }
    EnqueuedDocs(w, m, ops, outcome);
  }

  lemma SharedLog(w: World, m: D.Manager, ops: seq<Op>, outcome: P.Outcome)
    requires LogOk(w) && Shared(w.docs, m, ops)
    ensures LogOk(Enqueued(w, m, ops, outcome))
  {
    var f := ApplyAll(w.loaded, Accepted(w));
    CleanHere(f, ops);
    TombstonesStay(f, ops);
    EnqueuedLog(w, m, ops, outcome);
  }

  lemma EnqueuedKeeps(w: World, m: D.Manager, ops: seq<Op>, outcome: P.Outcome)
    requires Inv(w) && Shared(w.docs, m, ops)
    ensures Inv(Enqueued(w, m, ops, outcome))
  {
    P.EnqueueKeeps(P.MirrorOf(w.loaded), w.ctl, ops, outcome);
    SharedDocs(w, m, ops, outcome);
    SharedLog(w, m, ops, outcome);
  }

  lemma AppShared(m: D.Manager, ops: seq<Op>)
    requires RowsOnly(m) && AppOnly(ops)
    ensures Shared(m, m, ops)
  {
    forall a | a in m.live ensures m.live[a] < |m.entries| && Appended(ops, a) == {} {
      assert D.LiveOk(m, a);
      NothingAppended(ops, a);
    }
  }

  /** Operations no document takes a share of leave `Shared` as it is. */
  lemma SharedTail(m: D.Manager, n: D.Manager, ops: seq<Op>, tail: seq<Op>)
    requires Shared(m, n, ops) && forall op :: op in tail ==> op.Cursor?
    ensures Shared(m, n, ops + tail)
  {
    forall a | a in m.live ensures Appended(ops + tail, a) == Appended(ops, a) {
      AppendedConcat(ops, tail, a);
      NothingAppended(tail, a);
    }
  }

  lemma RemoteShared(m: D.Manager, sections: seq<(Address, Update)>, cursor: Option<int>)
    requires RowsOnly(m)
    ensures var r := AcceptSections(m, sections);
            Shared(m, r.0, r.1 + if cursor.Some? then [Cursor(cursor.value)] else [])
  {
    var r := AcceptSections(m, sections);
    SectionsGrow(m, sections);
    SharedTail(m, r.0, r.1, if cursor.Some? then [Cursor(cursor.value)] else []);
  }

  lemma EditShared(m: D.Manager, h: nat, u: Update, id: Option<int>)
    requires RowsOnly(m)
    ensures var r := D.Edit(m, h, u, id);
            Shared(m, r.0, if r.1.Some? then [r.1.value] else [])
  {
    var (n, op) := D.Edit(m, h, u, id);
    AppShared(m, []);
    if op.Some? {
      GrowOne(m, m, [], op.value);
      assert [] + [op.value] == [op.value];
    }
  }

  lemma StrayGrows(loaded: Durable, groups: seq<seq<Op>>, d: D.LiveDocument, d': D.LiveDocument, t: Trace, u: Update)
    requires EntryOk(loaded, groups, d, t)
    requires d'.address == d.address && d'.hydration == d.hydration && d'.doc == d.doc + u
    ensures EntryOk(loaded, groups, d', t.(stray := t.stray + u))
  {
    hide Part;
  }

  /** An envelope refused part way changes only documents that are open. */
  lemma RefusedKeeps(w: World, sections: seq<(Address, Update)>, k: nat)
    requires Inv(w) && Allowed(w, Refused(sections, k))
    ensures Inv(Next(w, Refused(sections, k)))
  {
    var (m, ops) := AcceptSections(w.docs, sections[..k]);
    SectionsGrow(w.docs, sections[..k]);
    hide AcceptSections, EntryOk;
    forall a | a in m.live
      ensures m.live[a] < |m.entries|
      ensures EntryOk(w.loaded, Debt(w).groups, m.entries[m.live[a]], Strayed(w, ops)[m.live[a]])
    {
      var e := m.live[a];
      assert D.LiveOk(w.docs, a);
      StrayGrows(w.loaded, Debt(w).groups, w.docs.entries[e], m.entries[e], w.traces[e], Appended(ops, a));
    }
  }

  lemma RetireRowLog(w: World, a: Address, app: seq<Op>, outcome: P.Outcome)
    requires LogOk(w) && APP_DOCUMENT !in w.docs.retired && AppOnly(app)
    ensures var (m, op) := D.RetireAddress(w.docs, a);
            LogOk(Enqueued(w, m, app + [op], outcome))
  {
    var (m, op) := D.RetireAddress(w.docs, a);
    var f := ApplyAll(w.loaded, Accepted(w));
    CleanHere(f, app);
    TombstonesStay(f, app);
    CleanConcat(f, app, [op]);
    ApplyConcat(f, app, [op]);
    assert [op][..0] == [];
    EnqueuedLog(w, m, app + [op], outcome);
  }

  lemma RetireRowDocs(w: World, a: Address, app: seq<Op>, outcome: P.Outcome)
    requires DocsOk(w) && a != APP_DOCUMENT && AppOnly(app)
    ensures var (m, op) := D.RetireAddress(w.docs, a);
            DocsOk(Enqueued(w, m, app + [op], outcome))
  {
    var (m, op) := D.RetireAddress(w.docs, a);
    D.RetireKeeps(w.docs, a);
    forall b | b in m.live
      ensures m.entries[m.live[b]].address == b && m.live[b] < |w.docs.entries| && Appended(app + [op], b) == {}
    {
      assert D.LiveOk(w.docs, b);
      NothingAppended(app + [op], b);
    }
    EnqueuedDocs(w, m, app + [op], outcome);
  }

  lemma RetireRowKeeps(w: World, a: Address, app: seq<Op>, outcome: P.Outcome)
    requires Inv(w) && a != APP_DOCUMENT && AppOnly(app)
    ensures var (m, op) := D.RetireAddress(w.docs, a);
            Inv(Enqueued(w, m, app + [op], outcome))
  {
    P.EnqueueKeeps(P.MirrorOf(w.loaded), w.ctl, app + [Retire(a)], outcome);
    RetireRowDocs(w, a, app, outcome);
    RetireRowLog(w, a, app, outcome);
  }

  // Hydration.

  /** The join of what the overlay brings and what it misses is everything, wherever the batch that is out
      and the open stand relative to the chain read. */
  lemma OverlayCovers(loaded: Durable, g: seq<seq<Op>>, a: Address, since: nat, at: nat, base: nat)
    requires since <= |g| && at <= |g| && base <= |g|
    ensures Part(g, a, since, |g|) + Part(g, a, 0, at) + Part(g, a, base, |g|)
            + Part(g, a, at, if since < base then since else base)
         == Part(g, a, 0, |g|)
  {
    var n, k := |g|, if since < base then since else base;
    PartSplit(g, a, 0, since, n);
    PartSplit(g, a, 0, at, n);
    PartSplit(g, a, 0, base, n);
    PartSplit(g, a, 0, k, n);
    if k <= at {
      PartSplit(g, a, k, at, n);
    } else {
      PartSplit(g, a, at, k, n);
    }
  }

  /** The entry the overlay goes into. */
  lemma OverlayEntry(w: World, i: nat)
    requires Inv(w) && i < |w.docs.entries| && OpenNow(w.docs, i) && Next(w, Overlay(i)) != w
    ensures var n := Next(w, Overlay(i));
            && i < |n.docs.entries| && i < |n.traces|
            && EntryOk(w.loaded, Debt(w).groups, n.docs.entries[i], n.traces[i])
  {
    hide P.BytesFor, Span, Appended;
    var d, t, g := w.docs.entries[i], w.traces[i], Debt(w).groups;
    P.OverlayIsUnconfirmed(P.MirrorOf(w.loaded), Debt(w), d.address);
    OverlayCovers(w.loaded, g, d.address, t.since, t.at, Debt(w).base);
  }

  lemma OverlayKeeps(w: World, i: nat)
    requires Inv(w)
    ensures Inv(Next(w, Overlay(i)))
  {
    hide P.PendingAppends, Span, Appended, Missed, EntryOk;
    var n := Next(w, Overlay(i));
    if n != w {
      D.EntryKeeps(w.docs, i, n.docs.entries[i]);
      if OpenNow(w.docs, i) { OverlayEntry(w, i); }
      forall a | a in n.docs.live
        ensures n.docs.live[a] < |n.docs.entries|
        ensures EntryOk(n.loaded, Debt(w).groups, n.docs.entries[n.docs.live[a]], n.traces[n.docs.live[a]])
      {
        assert D.LiveOk(w.docs, a);
      }
    }
  }

  lemma ReadKeeps(w: World, i: nat, chain: seq<Update>)
    requires Inv(w) && Allowed(w, Read(i, chain))
    ensures Inv(Next(w, Read(i, chain)))
  {
    var n := Next(w, Read(i, chain));
    if n != w {
      var d, g := w.docs.entries[i], Debt(w).groups;
      D.EntryKeeps(w.docs, i, n.docs.entries[i]);
      forall a | a in n.docs.live
        ensures n.docs.live[a] < |n.docs.entries|
        ensures EntryOk(n.loaded, g, n.docs.entries[n.docs.live[a]], n.traces[n.docs.live[a]])
      {
        assert D.LiveOk(w.docs, a);
        if n.docs.live[a] == i {
          NeverRetired(w, a);
          ContentGrows(w.loaded, P.Committed(Debt(w)), a);
        }
      }
    }
  }

  /** A live document was not retired this session. */
  lemma NeverRetired(w: World, a: Address)
    requires Inv(w) && a in w.docs.live
    ensures Retire(a) !in Accepted(w)
    ensures Retire(a) !in P.Committed(Debt(w))
  {
    assert D.LiveOk(w.docs, a);
    if Retire(a) in Accepted(w) { TombstonesExactly(w.loaded, Accepted(w), a); }
    SpanSplit(Debt(w).groups, 0, Debt(w).durable, |Debt(w).groups|);
  }

  lemma OpenKeeps(w: World, a: Address)
    requires Inv(w) && Allowed(w, Open(a))
    ensures Inv(Next(w, Open(a)))
  {
    var n, g := Next(w, Open(a)), Debt(w).groups;
    D.OpenKeeps(w.docs, a);
    assert Part(g, a, |g|, |g|) == {};
    hide P.Inv, Accepted, Part, D.Inv;
    forall b | b in n.docs.live
      ensures n.docs.live[b] < |n.docs.entries|
      ensures EntryOk(n.loaded, g, n.docs.entries[n.docs.live[b]], n.traces[n.docs.live[b]])
    {
      OpenLive(w.docs, a, b);
    }
  }

  /** An open of `a` leaves the document under `b` and its hydration, unless it makes it. */
  lemma OpenLive(m: D.Manager, a: Address, b: Address)
    requires D.Inv(m) && b in D.OpenBegin(m, a).0.live
    ensures
      var n := D.OpenBegin(m, a).0;
      && n.live[b] < |n.entries|
      && if b in m.live then
           && n.live[b] == m.live[b] < |m.entries|
           && n.entries[n.live[b]].(references := 0) == m.entries[m.live[b]].(references := 0)
         else n.live[b] == |m.entries| && n.entries[n.live[b]] == D.LiveDocument(b, {}, 1, D.Reading) && a == b
  {
    assert b in m.live ==> D.LiveOk(m, b);
  }

  /** `m'` is `m` with holds given up or a hydration failed. */
  ghost predicate Lessened(m: D.Manager, m': D.Manager) {
    && m'.retired == m.retired && |m'.entries| == |m.entries|
    && (forall a :: a in m'.live ==> a in m.live && m'.live[a] == m.live[a])
    && (forall i :: 0 <= i < |m.entries| ==>
          && m'.entries[i].address == m.entries[i].address && m'.entries[i].doc == m.entries[i].doc
          && (m'.entries[i].hydration == m.entries[i].hydration || m'.entries[i].hydration.HydrationFailed?))
  }

  lemma LessenedKeeps(w: World, m: D.Manager)
    requires Inv(w) && D.Inv(m) && Lessened(w.docs, m)
    ensures Inv(w.(docs := m))
  {
  }

  lemma OpenEndLessens(m: D.Manager, h: nat)
    ensures Lessened(m, D.OpenEnd(m, h))
  {
  }

  lemma DisposeLessens(m: D.Manager, h: nat)
    ensures Lessened(m, D.Dispose(m, h))
  {
  }

  lemma {:induction false} CleanHealthy(f: Durable, ops: seq<Op>)
    requires Healthy(f) && Clean(f, ops)
    ensures Healthy(ApplyAll(f, ops))
  {
    if ops != [] {
      CleanHealthy(f, ops[..|ops| - 1]);
    }
  }

  /** Storage is healthy at every moment: a tombstoned document has no chain. */
  lemma StoredHealthy(w: World)
    requires Inv(w)
    ensures Healthy(Stored(w)) && Stored(w).tombstones <= w.docs.retired
  {
    var d := Debt(w);
    SpanSplit(d.groups, 0, d.durable, |d.groups|);
    var rest := Span(d.groups, d.durable, |d.groups|);
    CleanConcat(w.loaded, P.Committed(d), rest);
    CleanHealthy(w.loaded, P.Committed(d));
    ApplyConcat(w.loaded, P.Committed(d), rest);
    TombstonesGrow(Stored(w), rest);
  }

  lemma TombstonesGrow(f: Durable, ops: seq<Op>)
    ensures f.tombstones <= ApplyAll(f, ops).tombstones
  {
    forall a | a in f.tombstones ensures a in ApplyAll(f, ops).tombstones { TombstonesExactly(f, ops, a); }
  }

  lemma BootKeeps(f: Durable)
    requires Healthy(f) && APP_DOCUMENT !in f.tombstones
    ensures Inv(Boot(f))
  {
  }

  /** Steps of the controller that accept nothing. */
  lemma ControllerKeeps(w: World, e: P.Event)
    requires Inv(w) && !e.EnqueueEvent?
    ensures Inv(w.(ctl := P.Next(w.ctl, e)))
  {
    P.NextKeeps(P.MirrorOf(w.loaded), w.ctl, e);
    P.NextAccepts(w.ctl, e);
  }

  lemma AcceptingKeeps(w: World, e: Event)
    requires Inv(w) && Allowed(w, e) && (e.Edit? || e.Remote? || e.RetireRow? || e.Other?)
    ensures Inv(Next(w, e))
  {
    match e
    case Edit(h, u, id, outcome) =>
      EditShared(w.docs, h, u, id);
      var (m, op) := D.Edit(w.docs, h, u, id);
      EnqueuedKeeps(w, m, if op.Some? then [op.value] else [], outcome);
    case Remote(sections, cursor, outcome) =>
      RemoteShared(w.docs, sections, cursor);
      var (m, ops) := AcceptSections(w.docs, sections);
      EnqueuedKeeps(w, m, ops + (if cursor.Some? then [Cursor(cursor.value)] else []), outcome);
    case RetireRow(a, app, outcome) => RetireRowKeeps(w, a, app, outcome);
    case Other(ops, outcome) =>
      AppShared(w.docs, ops);
      EnqueuedKeeps(w, w.docs, ops, outcome);
    case _ =>
  }

  lemma HoldingKeeps(w: World, e: Event)
    requires Inv(w) && (e.ReadFails? || e.OpenEnd? || e.Dispose?)
    ensures Inv(Next(w, e))
  {
    var d := match e
      case ReadFails(i) => D.FailEvent(i)
      case OpenEnd(h) => D.OpenEndEvent(h)
      case Dispose(h) => D.DisposeEvent(h)
      case _ => D.Open(ROW);
    D.NextKeeps(w.docs, d);
    if e.OpenEnd? { OpenEndLessens(w.docs, e.holder); }
    if e.Dispose? { DisposeLessens(w.docs, e.holder); }
    LessenedKeeps(w, D.Next(w.docs, d).0);
  }

  lemma ControllingKeeps(w: World, e: Event)
    requires Inv(w) && (e.Flush? || e.Land? || e.Then? || e.Finally?)
    ensures Inv(Next(w, e))
  {
    var p := match e
      case Flush(v, outcome) => P.FlushEvent(v, outcome)
      case Land(ok) => P.LandEvent(ok)
      case Then => P.ThenEvent
      case Finally(outcome) => P.FinallyEvent(outcome);
    ControllerKeeps(w, p);
    hide Inv;
  }

  lemma CrashKeeps(w: World)
    requires Inv(w)
    ensures Inv(Next(w, Crash))
  {
    StoredHealthy(w);
    BootKeeps(Stored(w));
    hide Boot, Stored;
  }

  lemma NextKeeps(w: World, e: Event)
    requires Inv(w) && Allowed(w, e)
    ensures Inv(Next(w, e))
  {
    hide Inv, Next, Allowed;
    match e
    case Open(a) => OpenKeeps(w, a);
    case Read(i, chain) => ReadKeeps(w, i, chain);
    case Overlay(i) => OverlayKeeps(w, i);
    case Refused(sections, k) => RefusedKeeps(w, sections, k);
    case Crash => CrashKeeps(w);
    case _ =>
      if e.ReadFails? || e.OpenEnd? || e.Dispose? {
        HoldingKeeps(w, e);
      } else if e.Flush? || e.Land? || e.Then? || e.Finally? {
        ControllingKeeps(w, e);
      } else {
        AcceptingKeeps(w, e);
      }
  }

  // ---------------------------------------------------------------- runs

  function Run(w: World, events: seq<Event>): World {
    if events == [] then w else Next(Run(w, events[..|events| - 1]), events[|events| - 1])
  }

  ghost predicate AllAllowed(w: World, events: seq<Event>) {
    events == [] ||
    (AllAllowed(w, events[..|events| - 1]) && Allowed(Run(w, events[..|events| - 1]), events[|events| - 1]))
  }

  lemma {:induction false} RunKeeps(w: World, events: seq<Event>)
    requires Inv(w) && AllAllowed(w, events)
    ensures Inv(Run(w, events))
  {
    if events != [] {
      RunKeeps(w, events[..|events| - 1]);
      NextKeeps(Run(w, events[..|events| - 1]), events[|events| - 1]);
    }
  }

  /** The document open under `a`, if hydration finished. */
  ghost predicate HydratedAt(w: World, a: Address) {
    a in w.docs.live && w.docs.live[a] < |w.docs.entries| && w.docs.live[a] < |w.traces|
    && w.docs.entries[w.docs.live[a]].hydration.Hydrated?
  }

  function LiveDoc(w: World, a: Address): Update
    requires a in w.docs.live && w.docs.live[a] < |w.docs.entries|
  {
    w.docs.entries[w.docs.live[a]].doc
  }

  /** What the overlay of the document open under `a` missed. */
  function MissedAt(w: World, a: Address): Update
    requires a in w.docs.live && w.docs.live[a] < |w.traces|
  {
    w.traces[w.docs.live[a]].missed
  }

  /** What refused envelopes left in the document open under `a`. */
  function StrayAt(w: World, a: Address): Update
    requires a in w.docs.live && w.docs.live[a] < |w.traces|
  {
    w.traces[w.docs.live[a]].stray
  }

  lemma HydratedTotal(w: World, a: Address)
    requires Inv(w) && HydratedAt(w, a)
    ensures LiveDoc(w, a) + MissedAt(w, a) == Total(w, a) + StrayAt(w, a)
  {
    assert D.LiveOk(w.docs, a);
    NeverRetired(w, a);
    ContentGrows(w.loaded, Accepted(w), a);
  }

  /** In every run, crashes, failed flushes and refused envelopes included, a hydrated live document together
      with what its overlay missed is exactly everything accepted for its address together with what refused
      envelopes left: edits, remote bytes and commits after hydration never lose or invent anything. */
  lemma HydratedUpToMissed(f: Durable, events: seq<Event>, a: Address)
    requires Healthy(f) && APP_DOCUMENT !in f.tombstones && AllAllowed(Boot(f), events)
    requires HydratedAt(Run(Boot(f), events), a)
    ensures var w := Run(Boot(f), events);
            LiveDoc(w, a) + MissedAt(w, a) == Total(w, a) + StrayAt(w, a)
  {
    BootKeeps(f);
    RunKeeps(Boot(f), events);
    HydratedTotal(Run(Boot(f), events), a);
  }

  /** The step assumption: computing entry `i`'s overlay now, no append for its address that was accepted
      before the open became durable after the chain read and is confirmed already. */
  ghost predicate Timely(w: World, i: nat) {
    i < |w.traces| && i < |w.docs.entries| && Debt(w).base <= |Debt(w).groups| ==>
      forall op :: op in Missed(w, i) ==> !(op.Append? && op.document == w.docs.entries[i].address)
  }

  ghost predicate OverlaysTimely(w: World, events: seq<Event>) {
    events == [] ||
    (OverlaysTimely(w, events[..|events| - 1]) &&
     var e := events[|events| - 1];
     e.Overlay? ==> Timely(Run(w, events[..|events| - 1]), e.entry))
  }

  ghost predicate NoneMissed(w: World) { forall i :: 0 <= i < |w.traces| ==> w.traces[i].missed == {} }

  lemma NoneMissedStep(w: World, e: Event)
    requires NoneMissed(w) && (e.Overlay? ==> Timely(w, e.entry))
    ensures NoneMissed(Next(w, e))
  {
    if e.Overlay? && Next(w, e) != w {
      NothingAppended(Missed(w, e.entry), w.docs.entries[e.entry].address);
    }
  }

  lemma {:induction false} NoneMissedRun(w: World, events: seq<Event>)
    requires NoneMissed(w) && OverlaysTimely(w, events)
    ensures NoneMissed(Run(w, events))
  {
    if events != [] {
      NoneMissedRun(w, events[..|events| - 1]);
      NoneMissedStep(Run(w, events[..|events| - 1]), events[|events| - 1]);
    }
  }

  /** The bytes for `a` in some sections. */
  function SectionBytes(sections: seq<(Address, Update)>, a: Address): Update {
    if sections == [] then {} else
      var (b, u) := sections[|sections| - 1];
      SectionBytes(sections[..|sections| - 1], a) + (if b == a then u else {})
  }

  /** The bytes for `a` that refused envelopes held before the section that did not decode. */
  function Left(events: seq<Event>, a: Address): Update {
    if events == [] then {} else
      var e := events[|events| - 1];
      Left(events[..|events| - 1], a)
      + (if e.Refused? && e.k < |e.sections| then SectionBytes(e.sections[..e.k], a) else {})
  }

  lemma {:induction false} SectionsBring(m: D.Manager, sections: seq<(Address, Update)>, a: Address)
    ensures Appended(AcceptSections(m, sections).1, a) <= SectionBytes(sections, a)
  {
    if sections != [] {
      var r := AcceptSections(m, sections[..|sections| - 1]);
      var (b, u) := sections[|sections| - 1];
      SectionsBring(m, sections[..|sections| - 1], a);
      assert r.1 + [] == r.1;
      assert (r.1 + [Append(b, u, None)])[..|r.1|] == r.1;
    }
  }

  ghost predicate StrayLeft(w: World, events: seq<Event>) {
    && |w.traces| == |w.docs.entries|
    && forall i :: 0 <= i < |w.traces| ==> w.traces[i].stray <= Left(events, w.docs.entries[i].address)
  }

  lemma StrayStep(w: World, events: seq<Event>)
    requires events != [] && StrayLeft(w, events[..|events| - 1])
    ensures StrayLeft(Next(w, events[|events| - 1]), events)
  {
    var e := events[|events| - 1];
    assert forall a :: Left(events[..|events| - 1], a) <= Left(events, a);
    if e.Refused? && e.k < |e.sections| {
      StrayRefused(w, events);
    } else {
      hide Left;
      if e.Remote? { SectionsKeepAll(w.docs, e.sections); }
      hide AcceptSections;
    }
  }

  lemma StrayRefused(w: World, events: seq<Event>)
    requires events != [] && StrayLeft(w, events[..|events| - 1])
    requires events[|events| - 1].Refused? && events[|events| - 1].k < |events[|events| - 1].sections|
    ensures StrayLeft(Next(w, events[|events| - 1]), events)
  {
    var e := events[|events| - 1];
    var n := Next(w, e);
    SectionsKeepAll(w.docs, e.sections[..e.k]);
    forall i | 0 <= i < |w.traces| ensures n.traces[i].stray <= Left(events, w.docs.entries[i].address) {
      SectionsBring(w.docs, e.sections[..e.k], w.docs.entries[i].address);
    }
  }

  lemma SectionsKeepAll(m: D.Manager, sections: seq<(Address, Update)>)
    ensures
      var n := AcceptSections(m, sections).0;
      && |n.entries| == |m.entries|
      && forall i :: 0 <= i < |m.entries| ==> n.entries[i].address == m.entries[i].address
  {
    SectionsKeepSize(m, sections);
    forall i | 0 <= i < |m.entries| ensures AcceptSections(m, sections).0.entries[i].address == m.entries[i].address {
      SectionsKeepEntries(m, sections, i);
    }
  }

  lemma {:induction false} SectionsKeepSize(m: D.Manager, sections: seq<(Address, Update)>)
    ensures |AcceptSections(m, sections).0.entries| == |m.entries|
  {
    if sections != [] {
      SectionsKeepSize(m, sections[..|sections| - 1]);
    }
  }

  lemma {:induction false} StrayRun(f: Durable, events: seq<Event>)
    ensures StrayLeft(Run(Boot(f), events), events)
  {
    if events != [] {
      StrayRun(f, events[..|events| - 1]);
      StrayStep(Run(Boot(f), events[..|events| - 1]), events);
    }
  }

  /** In every run whose overlays are timely, a live document whose hydration finished holds exactly the
      join of everything accepted for its address and of what refused envelopes left in it since it was
      opened. So it is exactly everything accepted if and only if they left nothing that is not accepted. */
  lemma HydratedExact(f: Durable, events: seq<Event>, a: Address)
    requires Healthy(f) && APP_DOCUMENT !in f.tombstones && AllAllowed(Boot(f), events)
    requires OverlaysTimely(Boot(f), events)
    requires HydratedAt(Run(Boot(f), events), a)
    ensures var w := Run(Boot(f), events);
            && LiveDoc(w, a) == Total(w, a) + StrayAt(w, a)
            && (LiveDoc(w, a) == Total(w, a) <==> StrayAt(w, a) <= Total(w, a))
            && StrayAt(w, a) <= Left(events, a)
  {
    HydratedUpToMissed(f, events, a);
    NoneMissedRun(Boot(f), events);
    StrayRun(f, events);
    BootKeeps(f);
    RunKeeps(Boot(f), events);
    assert D.LiveOk(Run(Boot(f), events).docs, a);
  }

  // ---------------------------------------------------------------- what enters the log and the documents

  /** One edit through a handle: the bytes go into the document and, as they are and under the id minted for them,
      to the end of the log. Through a handle whose address is retired nothing is accepted. */
  lemma EditEnters(w: World, h: nat, u: Update, id: Option<int>, outcome: P.Outcome)
    requires Inv(w) && h < |w.docs.holders| && w.docs.holders[h].stage.Held?
    ensures
      var n, a := Next(w, Edit(h, u, id, outcome)), w.docs.holders[h].address;
      if a in w.docs.retired then n == w
      else
        && Accepted(n) == Accepted(w) + [Append(a, u, id)]
        && a in w.docs.live && w.docs.live[a] < |w.docs.entries|
        && a in n.docs.live && n.docs.live[a] < |n.docs.entries|
        && LiveDoc(n, a) == LiveDoc(w, a) + u && Total(n, a) == Total(w, a) + u
  {
    var n, a := Next(w, Edit(h, u, id, outcome)), w.docs.holders[h].address;
    assert D.HolderOk(w.docs, h);
    if a !in w.docs.retired {
      assert D.LiveOk(w.docs, a);
      EnqueuedAccepts(w, D.Edit(w.docs, h, u, id).0, [Append(a, u, id)], outcome);
      TotalGrows(w, n, a, [Append(a, u, id)]);
      assert Appended([Append(a, u, id)], a) == u;
    }
  }

  /** A retirement: what the application document writes with it and then the operation that tombstones the address
      go to the end of the log, and from here on the address is retired, its entry no longer live. Every other
      document, and every handle and hydration, stays as it was. */
  lemma RetireEnters(w: World, a: Address, app: seq<Op>, outcome: P.Outcome)
    ensures
      var n := Next(w, RetireRow(a, app, outcome));
      && Accepted(n) == Accepted(w) + app + [Retire(a)]
      && n.docs.retired == w.docs.retired + {a} && a !in n.docs.live
      && (forall b :: b != a ==> (b in n.docs.live <==> b in w.docs.live))
      && (forall b :: b in n.docs.live ==> n.docs.live[b] == w.docs.live[b])
      && n.docs.entries == w.docs.entries && n.docs.holders == w.docs.holders && n.loaded == w.loaded
  {
    EnqueuedAccepts(w, D.RetireAddress(w.docs, a).0, app + [Retire(a)], outcome);
    hide P.Enqueue, Accepted;
    assert Accepted(w) + (app + [Retire(a)]) == Accepted(w) + app + [Retire(a)];
  }

  /** What the application document and the sync sender write goes to the end of the log as it is. */
  lemma OtherEnters(w: World, ops: seq<Op>, outcome: P.Outcome)
    ensures Accepted(Next(w, Other(ops, outcome))) == Accepted(w) + ops
    ensures Next(w, Other(ops, outcome)).docs == w.docs
  {
    EnqueuedAccepts(w, w.docs, ops, outcome);
  }

  lemma TotalGrows(w: World, n: World, a: Address, ops: seq<Op>)
    requires LogOk(w) && a !in w.docs.retired && n.loaded == w.loaded && Accepted(n) == Accepted(w) + ops
    requires Retire(a) !in ops
    ensures Total(n, a) == Total(w, a) + Appended(ops, a)
  {
    ApplyConcat(w.loaded, Accepted(w), ops);
    ContentGrows(ApplyAll(w.loaded, Accepted(w)), ops, a);
  }

  /** The sections an envelope gets into the log: all that are not for a retired address, in order, none to be sent. */
  function Kept(retired: set<Address>, sections: seq<(Address, Update)>): seq<Op> {
    if sections == [] then [] else
      var (a, u) := sections[|sections| - 1];
      Kept(retired, sections[..|sections| - 1]) + (if a in retired then [] else [Append(a, u, None)])
  }

  lemma {:induction false} SectionsKept(m: D.Manager, sections: seq<(Address, Update)>)
    requires APP_DOCUMENT !in m.retired
    ensures AcceptSections(m, sections).1 == Kept(m.retired, sections)
    ensures AcceptSections(m, sections).0.retired == m.retired
  {
    if sections != [] { SectionsKept(m, sections[..|sections| - 1]); }
  }

  lemma {:induction false} KeptBytes(retired: set<Address>, sections: seq<(Address, Update)>, a: Address)
    ensures Appended(Kept(retired, sections), a) == if a in retired then {} else SectionBytes(sections, a)
  {
    if sections != [] {
      var front := Kept(retired, sections[..|sections| - 1]);
      var (b, u) := sections[|sections| - 1];
      KeptBytes(retired, sections[..|sections| - 1], a);
      assert (front + [Append(b, u, None)])[..|front|] == front && front + [] == front;
    }
  }

  /** What an envelope gets into the log, its cursor with it. */
  function KeptWith(retired: set<Address>, sections: seq<(Address, Update)>, cursor: Option<int>): seq<Op> {
    Kept(retired, sections) + if cursor.Some? then [Cursor(cursor.value)] else []
  }

  lemma KeptOps(retired: set<Address>, sections: seq<(Address, Update)>, cursor: Option<int>, a: Address)
    ensures Appended(KeptWith(retired, sections, cursor), a) == if a in retired then {} else SectionBytes(sections, a)
    ensures Retire(a) !in KeptWith(retired, sections, cursor)
  {
    var tail := if cursor.Some? then [Cursor(cursor.value)] else [];
    KeptBytes(retired, sections, a);
    AppendedConcat(Kept(retired, sections), tail, a);
    NothingAppended(tail, a);
    KeptRetiresNone(retired, sections, a);
  }

  lemma {:induction false} KeptRetiresNone(retired: set<Address>, sections: seq<(Address, Update)>, a: Address)
    ensures Retire(a) !in Kept(retired, sections)
  {
    if sections != [] { KeptRetiresNone(retired, sections[..|sections| - 1], a); }
  }

  lemma RemoteIs(w: World, sections: seq<(Address, Update)>, cursor: Option<int>, outcome: P.Outcome)
    requires Inv(w)
    ensures Next(w, Remote(sections, cursor, outcome))
      == Enqueued(w, AcceptSections(w.docs, sections).0, KeptWith(w.docs.retired, sections, cursor), outcome)
  {
    hide P.Enqueue, AcceptSections;
    SectionsKept(w.docs, sections);
  }

  /** One envelope: its sections and the cursor go to the end of the log, and each open document takes the bytes
      for its address. */
  lemma RemoteEnters(w: World, sections: seq<(Address, Update)>, cursor: Option<int>, outcome: P.Outcome, a: Address)
    requires Inv(w) && a !in w.docs.retired
    ensures
      var n := Next(w, Remote(sections, cursor, outcome));
      && Accepted(n) == Accepted(w) + KeptWith(w.docs.retired, sections, cursor)
      && Total(n, a) == Total(w, a) + SectionBytes(sections, a)
      && n.docs.live == w.docs.live
      && (a in w.docs.live && w.docs.live[a] < |w.docs.entries| ==>
          w.docs.live[a] < |n.docs.entries| && LiveDoc(n, a) == LiveDoc(w, a) + SectionBytes(sections, a))
  {
    var n, ops := Next(w, Remote(sections, cursor, outcome)), KeptWith(w.docs.retired, sections, cursor);
    RemoteIs(w, sections, cursor, outcome);
    RemoteDocs(w, sections, a);
    hide Next, AcceptSections, KeptWith, SectionBytes, Accepted, DocsOk, P.Inv;
    KeptOps(w.docs.retired, sections, cursor, a);
    EnqueuedAccepts(w, AcceptSections(w.docs, sections).0, ops, outcome);
    hide P.Enqueue, Total, Appended, LogOk;
    assert n.loaded == w.loaded;
    TotalGrows(w, n, a, ops);
  }

  lemma RemoteDocs(w: World, sections: seq<(Address, Update)>, a: Address)
    requires DocsOk(w) && a !in w.docs.retired
    ensures
      var m := AcceptSections(w.docs, sections).0;
      && m.live == w.docs.live && |m.entries| == |w.docs.entries|
      && (a in m.live && m.live[a] < |m.entries| ==>
          m.entries[m.live[a]].doc == w.docs.entries[m.live[a]].doc + SectionBytes(sections, a))
  {
    hide AcceptSections, Kept, SectionBytes, Appended;
    SectionsGrow(w.docs, sections);
    SectionsKept(w.docs, sections);
    KeptBytes(w.docs.retired, sections, a);
  }

  /** A refused envelope: each open document has taken the bytes of the sections before the one that does not
      decode, and nothing has entered the log. */
  lemma RefusedEnters(w: World, sections: seq<(Address, Update)>, k: nat, a: Address)
    requires Inv(w) && k < |sections| && a !in w.docs.retired
    ensures
      var n := Next(w, Refused(sections, k));
      && n.ctl == w.ctl && n.loaded == w.loaded && n.docs.live == w.docs.live
      && (a in w.docs.live && w.docs.live[a] < |w.docs.entries| ==>
          w.docs.live[a] < |n.docs.entries| && LiveDoc(n, a) == LiveDoc(w, a) + SectionBytes(sections[..k], a))
  {
    hide AcceptSections, SectionBytes, P.Inv, LogOk;
    RemoteDocs(w, sections[..k], a);
  }

  /** The application can write to `a` through holder `h`: it has a handle, and its document is the live one. */
  predicate Writes(m: D.Manager, h: nat, a: Address) {
    && h < |m.holders| && m.holders[h].address == a && !m.holders[h].stage.Awaiting?
    && a in m.live && m.live[a] == m.holders[h].entry < |m.entries| && m.entries[m.live[a]].hydration.Hydrated?
  }

  /** What an event gives document `a`. */
  function Gives(w: World, e: Event, a: Address): Update {
    match e
    case Edit(h, u, _, _) => if Writes(w.docs, h, a) then u else {}
    case Remote(sections, _, _) => if a in w.docs.retired then {} else SectionBytes(sections, a)
    case _ => {}
  }

  function Given(w: World, events: seq<Event>, a: Address): Update {
    if events == [] then {} else
      var front := events[..|events| - 1];
      Given(w, front, a) + Gives(Run(w, front), events[|events| - 1], a)
  }

  /** One step accepts for `a` exactly what it gives. */
  lemma StepGives(w: World, e: Event, a: Address)
    requires Inv(w) && Allowed(w, e) && !e.Crash? && a != APP_DOCUMENT
    ensures Appended(Accepted(Next(w, e)), a) == Appended(Accepted(w), a) + Gives(w, e, a)
  {
    hide Next, AcceptedBy, Inv, Allowed, Gives, Appended;
    GroupsNext(w, e);
    var ops, g := AcceptedBy(w, e), Debt(w).groups;
    if ops != [] { SpanPush(g, ops, 0); }
    assert Accepted(Next(w, e)) == Accepted(w) + ops;
    AppendedConcat(Accepted(w), ops, a);
    AcceptedGives(w, e, a);
  }

  lemma AcceptedGives(w: World, e: Event, a: Address)
    requires Inv(w) && Allowed(w, e) && a != APP_DOCUMENT
    ensures Appended(AcceptedBy(w, e), a) == Gives(w, e, a)
  {
    match e
    case Edit(h, u, id, _) =>
      var (_, op) := D.Edit(w.docs, h, u, id);
      if op.Some? { assert Appended([op.value], a) == if op.value.document == a then u else {}; }
    case Remote(sections, cursor, _) =>
      SectionsKept(w.docs, sections);
      KeptOps(w.docs.retired, sections, cursor, a);
    case RetireRow(b, app, _) => NothingAppended(app + [Retire(b)], a);
    case Other(ops, _) => NothingAppended(ops, a);
    case _ =>
  }

  /** Through a session everything accepted for `a` is exactly what its edits and envelopes gave. */
  lemma {:induction false} AcceptedIsGiven(w: World, events: seq<Event>, a: Address)
    requires Inv(w) && AllAllowed(w, events) && Crash !in events && a != APP_DOCUMENT
    ensures Appended(Accepted(Run(w, events)), a) == Appended(Accepted(w), a) + Given(w, events, a)
    ensures Run(w, events).loaded == w.loaded
  {
    if events != [] {
      var front, e := events[..|events| - 1], events[|events| - 1];
      AcceptedIsGiven(w, front, a);
      RunKeeps(w, front);
      StepGives(Run(w, front), e, a);
      hide Inv, Allowed, Gives, Appended, Accepted;
      SameLoaded(Run(w, front), e);
    }
  }

  lemma SameLoaded(w: World, e: Event)
    requires !e.Crash?
    ensures Next(w, e).loaded == w.loaded
  {
  }

  /** So a hydrated document, its overlay timely, holds exactly what storage held when the session opened, what the
      session's edits and envelopes gave, and what refused envelopes left. */
  lemma HydratedIsGiven(f: Durable, events: seq<Event>, a: Address)
    requires Healthy(f) && APP_DOCUMENT !in f.tombstones && AllAllowed(Boot(f), events) && Crash !in events
    requires OverlaysTimely(Boot(f), events) && HydratedAt(Run(Boot(f), events), a)
    ensures var w := Run(Boot(f), events);
            && Total(w, a) == Content(f, a) + Given(Boot(f), events, a)
            && LiveDoc(w, a) == Content(f, a) + Given(Boot(f), events, a) + StrayAt(w, a)
  {
    BootKeeps(f);
    RunKeeps(Boot(f), events);
    var w := Run(Boot(f), events);
    assert D.LiveOk(w.docs, a);
    assert a != APP_DOCUMENT;
    HydratedExact(f, events, a);
    AcceptedIsGiven(Boot(f), events, a);
    NeverRetired(w, a);
    ContentGrows(f, Accepted(w), a);
  }

  // ---------------------------------------------------------------- when exactly the overlay is complete

  ghost predicate AppendsTo(op: Op, a: Address) { op.Append? && op.document == a }

  /** Every append for `a` carries some item no earlier one carried, and none the engine loaded. */
  ghost predicate FreshItems(f: Durable, ops: seq<Op>, a: Address) {
    forall i :: 0 <= i < |ops| && AppendsTo(ops[i], a) ==>
      ops[i].bytes != {} && ops[i].bytes !! Content(f, a) && ops[i].bytes !! Appended(ops[..i], a)
  }

  lemma {:induction false} AppendedHas(ops: seq<Op>, a: Address, i: nat)
    requires i < |ops| && AppendsTo(ops[i], a)
    ensures ops[i].bytes <= Appended(ops, a)
  {
    if i < |ops| - 1 {
      AppendedHas(ops[..|ops| - 1], a, i);
    }
  }

  lemma {:induction false} AppendedFrom(ops: seq<Op>, a: Address, x: Item) returns (i: nat)
    requires x in Appended(ops, a)
    ensures i < |ops| && AppendsTo(ops[i], a) && x in ops[i].bytes
  {
    var last := |ops| - 1;
    if AppendsTo(ops[last], a) && x in ops[last].bytes {
      i := last;
    } else {
      i := AppendedFrom(ops[..last], a, x);
    }
  }

  /** An append in the middle of the log carries an item found nowhere before or after that middle. */
  lemma MiddleIsSeen(f: Durable, x: seq<Op>, m: seq<Op>, y: seq<Op>, a: Address, i: nat)
    requires i < |m| && AppendsTo(m[i], a)
    requires FreshItems(f, x + m + y, a)
    ensures !(m[i].bytes <= Content(f, a) + Appended(x, a) + Appended(y, a))
  {
    var ops := x + m + y;
    assert ops[|x| + i] == m[i] && ops[..|x| + i] == x + m[..i];
    AppendedConcat(x, m[..i], a);
    var item :| item in m[i].bytes;
    if item in Appended(y, a) {
      var j := AppendedFrom(y, a, item);
      var at := |x| + |m| + j;
      assert ops[at] == y[j] && ops[..at] == x + m + y[..j];
      assert (x + m + y[..j])[|x| + i] == m[i];
      AppendedHas(x + m + y[..j], a, |x| + i);
    }
  }

  lemma TimelyIsComplete(w: World, a: Address)
    requires Inv(w) && a in w.docs.live && w.docs.live[a] < |w.docs.entries|
    requires w.docs.entries[w.docs.live[a]].hydration.ChainRead? && Timely(w, w.docs.live[a])
    ensures var n := Next(w, Overlay(w.docs.live[a]));
            HydratedAt(n, a) && LiveDoc(n, a) == Total(w, a) + StrayAt(w, a)
  {
    var i := w.docs.live[a];
    assert D.LiveOk(w.docs, a);
    OverlayKeeps(w, i);
    HydratedTotal(Next(w, Overlay(i)), a);
    NothingAppended(Missed(w, i), a);
  }

  /** An append the overlay comes too late for stays missing. */
  lemma LateIsMissing(f: Durable, g: seq<seq<Op>>, a: Address, at: nat, k: nat, doc: Update, stray: Update)
    requires at <= |g| && k <= |g| && stray !! Appended(Span(g, at, k), a)
    requires doc <= Content(f, a) + Part(g, a, 0, at) + Part(g, a, k, |g|) + stray
    requires FreshItems(f, Span(g, 0, |g|), a)
    requires exists op :: op in Span(g, at, k) && AppendsTo(op, a)
    ensures !(Part(g, a, 0, |g|) <= doc)
  {
    var x, m, y := Span(g, 0, at), Span(g, at, k), Span(g, k, |g|);
    var op :| op in m && AppendsTo(op, a);
    var j :| 0 <= j < |m| && m[j] == op;
    SpanSplit(g, 0, at, k);
    SpanSplit(g, 0, k, |g|);
    MiddleIsSeen(f, x, m, y, a, j);
    PartSplit(g, a, 0, k, |g|);
    PartSplit(g, a, 0, at, k);
    AppendedHas(m, a, j);
  }

  /** What hydration makes of an entry is everything accepted for its address, and what refused envelopes
      left, if and only if the overlay is timely (updates being fresh, as bytes authored by distinct
      transactions are, and no refused envelope having left what the overlay misses). */
  lemma OverlayExactly(w: World, a: Address)
    requires Inv(w) && a in w.docs.live && w.docs.live[a] < |w.docs.entries|
    requires w.docs.entries[w.docs.live[a]].hydration.ChainRead?
    requires FreshItems(w.loaded, Accepted(w), a)
    requires w.docs.live[a] < |w.traces| && Debt(w).base <= |Debt(w).groups|
    requires StrayAt(w, a) !! Appended(Missed(w, w.docs.live[a]), a)
    ensures var n := Next(w, Overlay(w.docs.live[a]));
            && HydratedAt(n, a)
            && (LiveDoc(n, a) == Total(w, a) + StrayAt(w, a) <==> Timely(w, w.docs.live[a]))
  {
    var i := w.docs.live[a];
    assert D.LiveOk(w.docs, a);
    if Timely(w, i) {
      TimelyIsComplete(w, a);
    } else {
      var t, b := w.traces[i], Debt(w).base;
      var k := if t.since < b then t.since else b;
      OverlayBrings(w, a, k);
      LateIsMissing(w.loaded, Debt(w).groups, a, t.at, k, LiveDoc(Next(w, Overlay(i)), a), t.stray);
      NeverRetired(w, a);
      ContentGrows(w.loaded, Accepted(w), a);
    }
  }

  /** The chain, the overlay and what was applied live bring nothing from between the chain read and the
      first enqueue that is either still unconfirmed or newer than the open. */
  lemma OverlayBrings(w: World, a: Address, k: nat)
    requires Inv(w) && a in w.docs.live && w.docs.live[a] < |w.docs.entries| && w.docs.live[a] < |w.traces|
    requires w.docs.entries[w.docs.live[a]].hydration.ChainRead?
    requires k <= w.traces[w.docs.live[a]].since && k <= Debt(w).base
    ensures var g := Debt(w).groups;
            && k <= |g| && w.traces[w.docs.live[a]].at <= |g|
            && LiveDoc(Next(w, Overlay(w.docs.live[a])), a)
               <= Content(w.loaded, a) + Part(g, a, 0, w.traces[w.docs.live[a]].at) + Part(g, a, k, |g|) + StrayAt(w, a)
  {
    var i, g := w.docs.live[a], Debt(w).groups;
    assert D.LiveOk(w.docs, a);
    P.OverlayIsUnconfirmed(P.MirrorOf(w.loaded), Debt(w), a);
    PartSplit(g, a, k, w.traces[i].since, |g|);
    PartSplit(g, a, k, Debt(w).base, |g|);
  }

  // A condition a caller can check before opening.

  lemma {:induction false} NoBytesNoAppend(ops: seq<Op>, a: Address)
    requires P.BytesFor(ops, a) == []
    ensures forall op :: op in ops ==> !AppendsTo(op, a)
  {
    if ops != [] {
      NoBytesNoAppend(ops[..|ops| - 1], a);
    }
  }

  lemma {:induction false} SpanPrefix(g: seq<seq<Op>>, g': seq<seq<Op>>, i: nat, j: nat)
    requires g <= g' && j <= |g|
    ensures Span(g', i, j) == Span(g, i, j)
  {
    if i < j {
      SpanPrefix(g, g', i, j - 1);
    }
  }

  /** Within one session the log only grows and a trace, once its chain was read, stays as it is until the
      overlay. */
  ghost predicate Extends(w: World, w': World, i: nat) {
    && Debt(w).groups <= Debt(w').groups && w'.loaded == w.loaded
    && i < |w.traces| == |w.docs.entries| <= |w'.docs.entries| == |w'.traces|
    && w'.docs.entries[i].address == w.docs.entries[i].address
    && (w'.docs.entries[i].hydration.ChainRead? ==>
          && w.docs.entries[i].hydration.ChainRead?
          && w'.traces[i].at == w.traces[i].at && w'.traces[i].since == w.traces[i].since)
    && !w'.docs.entries[i].hydration.Reading?
  }

  lemma AcceptedExtends(w: World, e: Event, i: nat)
    requires |w.traces| == |w.docs.entries| && (e.Edit? || e.Remote? || e.RetireRow? || e.Other?)
    requires i < |w.docs.entries| && !w.docs.entries[i].hydration.Reading?
    ensures Extends(w, Next(w, e), i)
  {
    match e
    case Edit(h, u, id, outcome) =>
      var (m, op) := D.Edit(w.docs, h, u, id);
      P.NextAccepts(w.ctl, P.EnqueueEvent(if op.Some? then [op.value] else [], outcome));
    case Remote(sections, cursor, outcome) =>
      var (m, ops) := AcceptSections(w.docs, sections);
      SectionsKeepEntries(w.docs, sections, i);
      P.NextAccepts(w.ctl, P.EnqueueEvent(ops + (if cursor.Some? then [Cursor(cursor.value)] else []), outcome));
    case RetireRow(a, app, outcome) => P.NextAccepts(w.ctl, P.EnqueueEvent(app + [Retire(a)], outcome));
    case Other(ops, outcome) => P.NextAccepts(w.ctl, P.EnqueueEvent(ops, outcome));
    case _ =>
  }

  lemma {:induction false} SectionsKeepEntries(m: D.Manager, sections: seq<(Address, Update)>, i: nat)
    requires i < |m.entries|
    ensures var n := AcceptSections(m, sections).0;
            && |n.entries| == |m.entries|
            && n.entries[i].address == m.entries[i].address && n.entries[i].hydration == m.entries[i].hydration
  {
    if sections != [] {
      SectionsKeepEntries(m, sections[..|sections| - 1], i);
    }
  }

  lemma ControlExtends(w: World, e: Event, i: nat)
    requires |w.traces| == |w.docs.entries| && (e.Flush? || e.Land? || e.Then? || e.Finally?)
    requires i < |w.docs.entries| && !w.docs.entries[i].hydration.Reading?
    ensures Extends(w, Next(w, e), i)
  {
    match e
    case Flush(v, outcome) => P.NextAccepts(w.ctl, P.FlushEvent(v, outcome));
    case Land(ok) => P.NextAccepts(w.ctl, P.LandEvent(ok));
    case Then => P.NextAccepts(w.ctl, P.ThenEvent);
    case Finally(outcome) => P.NextAccepts(w.ctl, P.FinallyEvent(outcome));
  }

  lemma OneExtends(w: World, e: Event, i: nat)
    requires |w.traces| == |w.docs.entries| && !e.Crash?
    requires i < |w.docs.entries| && !w.docs.entries[i].hydration.Reading?
    ensures Extends(w, Next(w, e), i)
  {
    if e.Edit? || e.Remote? || e.RetireRow? || e.Other? {
      AcceptedExtends(w, e, i);
    } else if e.Flush? || e.Land? || e.Then? || e.Finally? {
      ControlExtends(w, e, i);
    } else {
      match e
      case OpenEnd(h) => OpenEndLessens(w.docs, h);
      case Dispose(h) => DisposeLessens(w.docs, h);
      case Refused(sections, k) => if k < |sections| { SectionsKeepEntries(w.docs, sections[..k], i); }
      case _ =>
    }
  }

  lemma {:induction false} RunExtends(w: World, events: seq<Event>, i: nat)
    requires |w.traces| == |w.docs.entries| && Crash !in events
    requires i < |w.docs.entries| && !w.docs.entries[i].hydration.Reading?
    ensures Extends(w, Run(w, events), i)
  {
    if events != [] {
      RunExtends(w, events[..|events| - 1], i);
      OneExtends(Run(w, events[..|events| - 1]), events[|events| - 1], i);
    }
  }

  /** Only what was accepted before the open counts. */
  lemma NothingLate(g: seq<seq<Op>>, g': seq<seq<Op>>, a: Address, at: nat, since: nat, k: nat)
    requires g <= g' && at <= |g| && since <= |g| && k <= since
    requires forall op :: op in Span(g, at, since) ==> !AppendsTo(op, a)
    ensures forall op :: op in Span(g', at, k) ==> !AppendsTo(op, a)
  {
    SpanPrefix(g, g', at, k);
    if at <= k {
      SpanSplit(g, at, k, since);
    }
  }

  /** What an asynchronous port, and a synchronous one, can answer to `commit`. */
  predicate Answered(sync: bool, outcome: P.Outcome) {
    outcome.Threw? || (if sync then outcome.Done? else outcome.Promised?)
  }

  predicate OfPort(sync: bool, e: Event) {
    match e
    case Edit(_, _, _, outcome) => Answered(sync, outcome)
    case Remote(_, _, outcome) => Answered(sync, outcome)
    case RetireRow(_, _, outcome) => Answered(sync, outcome)
    case Other(_, outcome) => Answered(sync, outcome)
    case Flush(_, outcome) => Answered(sync, outcome)
    case Finally(outcome) => Answered(sync, outcome)
    case _ => true
  }

  /** A way on from `w` in the same session, on a port of one kind, that leaves the overlay of entry `i` to be
      computed. */
  ghost predicate WayOn(w: World, i: nat, sync: bool, later: seq<Event>) {
    && AllAllowed(w, later) && Crash !in later && (forall e :: e in later ==> OfPort(sync, e))
    && i < |Run(w, later).docs.entries| && Run(w, later).docs.entries[i].hydration.ChainRead?
  }

  /** An append for the address of entry `i` was accepted before the open and not durable at the chain read. */
  ghost predicate Pending(w: World, i: nat)
    requires i < |w.traces| && i < |w.docs.entries|
  {
    w.traces[i].since <= |Debt(w).groups| &&
    exists op :: op in Span(Debt(w).groups, w.traces[i].at, w.traces[i].since)
                 && AppendsTo(op, w.docs.entries[i].address)
  }

  lemma TimelyLater(w: World, w': World, i: nat)
    requires Extends(w, w', i) && w'.docs.entries[i].hydration.ChainRead?
    requires w.traces[i].at <= |Debt(w).groups| && w.traces[i].since <= |Debt(w).groups|
    requires !Pending(w, i)
    ensures Timely(w', i)
  {
    var t, b := w.traces[i], Debt(w').base;
    NothingLate(Debt(w).groups, Debt(w').groups, w.docs.entries[i].address, t.at, t.since,
                if t.since < b then t.since else b);
  }

  /** Everything accepted so far gets confirmed before the overlay. */
  function DrainingRun(sync: bool): seq<Event> {
    if sync then [Flush(0, P.Done)] else HalfDrained() + [Flush(0, P.Promised)] + HalfDrained()
  }

  function HalfDrained(): seq<Event> { [Land(true), Then, Finally(P.Promised)] }

  lemma OneMore(w: World, x: seq<Event>, e: Event)
    ensures Run(w, x + [e]) == Next(Run(w, x), e)
    ensures AllAllowed(w, x + [e]) <==> AllAllowed(w, x) && Allowed(Run(w, x), e)
  {
    hide Next, Allowed;
    assert (x + [e])[..|x|] == x;
  }

  lemma LandingRun(w: World, x: seq<Event>)
    ensures Run(w, x + HalfDrained()) == Run(w, x).(ctl := R.Landing(Run(w, x).ctl))
    ensures AllAllowed(w, x) ==> AllAllowed(w, x + HalfDrained())
  {
    hide P.Land, P.Then, P.Finally, Run, AllAllowed;
    var a, ab := x + [Land(true)], x + [Land(true)] + [Then];
    OneMore(w, x, Land(true));
    OneMore(w, a, Then);
    OneMore(w, ab, Finally(P.Promised));
    assert x + HalfDrained() == ab + [Finally(P.Promised)];
  }

  lemma FlushRun(w: World, x: seq<Event>, outcome: P.Outcome)
    ensures Run(w, x + [Flush(0, outcome)]) == Run(w, x).(ctl := P.Flush(Run(w, x).ctl, 0, outcome))
    ensures AllAllowed(w, x) ==> AllAllowed(w, x + [Flush(0, outcome)])
  {
    hide P.Flush, Run, AllAllowed;
    OneMore(w, x, Flush(0, outcome));
  }

  /** Draining changes the controller alone and leaves nothing unconfirmed. */
  lemma DrainingDrains(w: World, sync: bool)
    requires Inv(w) && (sync ==> Debt(w).flight.Idle?)
    ensures AllAllowed(w, DrainingRun(sync))
    ensures
      var n := Run(w, DrainingRun(sync));
      n == w.(ctl := n.ctl) && Debt(n).groups == Debt(w).groups && Debt(n).base == |Debt(w).groups|
  {
    var m := P.MirrorOf(w.loaded);
    hide Next, Run, AllAllowed, P.Inv, DocsOk, LogOk, HalfDrained, P.Flush, R.Landing;
    NothingRun(w);
    if sync {
      R.FlushHands(m, w.ctl, 0, P.Done);
      FlushRun(w, [], P.Done);
      assert [] + [Flush(0, P.Done)] == DrainingRun(sync);
    } else {
      R.Drains(m, w.ctl);
      LandingRun(w, []);
      assert [] + HalfDrained() == HalfDrained();
      FlushRun(w, HalfDrained(), P.Promised);
      LandingRun(w, HalfDrained() + [Flush(0, P.Promised)]);
    }
  }

  lemma NothingRun(w: World)
    ensures Run(w, []) == w && AllAllowed(w, [])
  {
  }

  lemma DrainingIsQuiet(sync: bool)
    ensures Crash !in DrainingRun(sync) && forall e :: e in DrainingRun(sync) ==> OfPort(sync, e)
  {
  }

  lemma DrainedIsLate(w: World, n: World, i: nat)
    requires i < |w.docs.entries| && i < |w.traces| && Pending(w, i)
    requires n.docs == w.docs && n.traces == w.traces && Debt(n).groups == Debt(w).groups
    requires Debt(n).base == |Debt(w).groups|
    ensures !Timely(n, i)
  {
    hide Span;
    assert Missed(n, i) == Span(Debt(w).groups, w.traces[i].at, w.traces[i].since);
  }

  /** The way on that makes a pending append late. */
  lemma PendingComesLate(w: World, i: nat, sync: bool)
    requires Inv(w) && i < |w.docs.entries| && w.docs.entries[i].hydration.ChainRead?
    requires (sync ==> Debt(w).flight.Idle?) && i < |w.traces| && Pending(w, i)
    ensures WayOn(w, i, sync, DrainingRun(sync)) && !Timely(Run(w, DrainingRun(sync)), i)
  {
    DrainingIsQuiet(sync);
    hide DrainingRun, OfPort, Inv, Pending, Timely, AllAllowed, Run;
    DrainingDrains(w, sync);
    DrainedIsLate(w, Run(w, DrainingRun(sync)), i);
  }

  /** Whatever is accepted, commits or fails between the chain read and the overlay, on a port of either kind, the
      overlay is timely exactly when every append for the address that was accepted before the open was stored
      when the chain was read. */
  lemma SettledReadExactly(w: World, i: nat, sync: bool)
    requires Inv(w) && i < |w.docs.entries| && w.docs.entries[i].hydration.ChainRead? && OpenNow(w.docs, i)
    requires (sync ==> Debt(w).flight.Idle?) && i < |w.traces|
    ensures (forall later :: WayOn(w, i, sync, later) ==> Timely(Run(w, later), i)) <==> !Pending(w, i)
  {
    TracesMatch(w, i);
    hide Inv, Timely, Pending, Allowed, DrainingRun, Next, OfPort;
    if Pending(w, i) {
      PendingComesLate(w, i, sync);
    } else {
      forall later | WayOn(w, i, sync, later) ensures Timely(Run(w, later), i) {
        RunExtends(w, later, i);
        TimelyLater(w, Run(w, later), i);
      }
    }
  }

  lemma TracesMatch(w: World, i: nat)
    requires Inv(w) && i < |w.docs.entries| && OpenNow(w.docs, i)
    ensures |w.traces| == |w.docs.entries| && Debt(w).durable <= |Debt(w).groups|
    ensures w.traces[i].at <= |Debt(w).groups| && w.traces[i].since <= |Debt(w).groups|
  {
  }

  lemma NothingUnconfirmed(w: World, a: Address)
    requires Inv(w) && P.PendingAppends(Debt(w), a) == []
    ensures forall op :: op in Span(Debt(w).groups, Debt(w).durable, |Debt(w).groups|) ==> !AppendsTo(op, a)
  {
    var d := Debt(w);
    NoBytesNoAppend(d.flying + d.queue, a);
    SpanSplit(d.groups, d.base, d.handed, |d.groups|);
    SpanSplit(d.groups, d.base, d.durable, |d.groups|);
  }

  /** A test that does not know when the document was opened: with nothing unconfirmed for the address when its
      chain is read, the overlay is timely. */
  lemma SettledReadIsTimely(w: World, i: nat, later: seq<Event>)
    requires Inv(w) && Crash !in later && i < |w.docs.entries| && i < |w.traces|
    requires w.docs.entries[i].hydration.ChainRead? && w.traces[i].at == Debt(w).durable
    requires P.PendingAppends(Debt(w), w.docs.entries[i].address) == [] && w.traces[i].since <= |Debt(w).groups|
    requires i < |Run(w, later).docs.entries| && Run(w, later).docs.entries[i].hydration.ChainRead?
    ensures Timely(Run(w, later), i)
  {
    RunExtends(w, later, i);
    NothingUnconfirmed(w, w.docs.entries[i].address);
    var g, t := Debt(w).groups, w.traces[i];
    if t.at <= t.since { SpanSplit(g, t.at, t.since, |g|); }
    TimelyLater(w, Run(w, later), i);
  }

  // ---------------------------------------------------------------- the overlay can come too late

  const ROW: Address := "d/t/r"
  const WORDS: Update := {Item(1, 0)}
  const LATE := Append(ROW, WORDS, None)

  /** Bytes wait behind a failed flush, their document is opened and its chain read, and another write's
      flush then lands everything before the overlay is computed: the document is handed out without them.
      Every step is one a synchronous port allows. */
  function LateRun(): seq<Event> {
    [Remote([(ROW, WORDS)], None, P.Threw), Open(ROW), Read(0, []), Other([Cursor(1)], P.Done), Overlay(0), OpenEnd(0)]
  }

  function Waiting(): P.Controller {
    P.Controller(P.Debt([LATE], [], P.MirrorOf(EMPTY), P.Idle, [[LATE]], 0, 0, 0), false, false, [], true, {}, {})
  }

  function CaughtUp(): P.Controller {
    P.Controller(P.Debt([], [], P.MirrorOf(EMPTY).(cursor := 1), P.Idle, [[LATE], [Cursor(1)]], 2, 2, 2),
                 false, false, [], false, {}, {})
  }

  function OneOpen(h: D.Hydration, s: D.Stage): D.Manager {
    D.Manager(map[ROW := 0], [D.LiveDocument(ROW, {}, 1, h)], [D.Holder(0, ROW, s)], {})
  }

  function LateWorlds(): seq<World> {
    [Boot(EMPTY),
     World(EMPTY, D.Fresh({}), Waiting(), []),
     World(EMPTY, OneOpen(D.Reading, D.Awaiting), Waiting(), [Trace(1, 0, {}, {})]),
     World(EMPTY, OneOpen(D.ChainRead([]), D.Awaiting), Waiting(), [Trace(1, 0, {}, {})]),
     World(EMPTY, OneOpen(D.ChainRead([]), D.Awaiting), CaughtUp(), [Trace(1, 0, {}, {})]),
     World(EMPTY, OneOpen(D.Hydrated, D.Awaiting), CaughtUp(), [Trace(1, 0, WORDS, {})]),
     World(EMPTY, OneOpen(D.Hydrated, D.Held), CaughtUp(), [Trace(1, 0, WORDS, {})])]
  }

  lemma LateWaits()
    ensures P.Enqueue(P.Init(P.MirrorOf(EMPTY)), [LATE], P.Threw) == Waiting()
  {
    assert P.Members([]) == {};
  }

  lemma LateCatchesUp()
    ensures P.Enqueue(Waiting(), [Cursor(1)], P.Done) == CaughtUp()
  {
    assert P.Members([]) == {};
    assert [LATE] + [Cursor(1)] == [LATE, Cursor(1)];
    assert [LATE, Cursor(1)][..1] == [LATE] && [LATE][..0] == [];
    assert P.AbsorbAll(P.MirrorOf(EMPTY), [LATE]) == P.MirrorOf(EMPTY);
  }

  lemma LateSections()
    ensures AcceptSections(D.Fresh({}), [(ROW, WORDS)]) == (D.Fresh({}), [LATE])
  {
    assert [(ROW, WORDS)][..0] == [];
    assert AcceptSections(D.Fresh({}), []) == (D.Fresh({}), []);
    assert ROW != APP_DOCUMENT;
    assert [] + [LATE] == [LATE];
  }

  lemma LateStep(i: nat)
    requires i < 6
    ensures Allowed(LateWorlds()[i], LateRun()[i]) && Next(LateWorlds()[i], LateRun()[i]) == LateWorlds()[i + 1]
  {
    hide AcceptSections, P.Enqueue, Missed, P.PendingAppends;
    match i
    case 0 => LateSections(); LateWaits(); assert [LATE] + [] == [LATE];
    case 1 => assert |ROW| != |APP_DOCUMENT|;
    case 2 =>
    case 3 => LateCatchesUp();
    case 4 => LateOverlay();
    case _ =>
  }

  lemma LateMissed(g: seq<seq<Op>>)
    requires g == [[LATE], [Cursor(1)]]
    ensures Appended(Span(g, 0, 1), ROW) == WORDS
  {
    assert Span(g, 0, 1) == [LATE];
    assert [LATE][..0] == [];
  }

  lemma LateOverlay()
    ensures Next(LateWorlds()[4], Overlay(0)) == LateWorlds()[5]
  {
    var w := LateWorlds()[4];
    assert P.BytesFor([], ROW) == [];
    assert P.PendingAppends(Debt(w), ROW) == [];
    LateMissed(Debt(w).groups);
    assert D.Overlay(w.docs, 0, []) == OneOpen(D.Hydrated, D.Awaiting) by {
      var none: Update := {};
      assert none + JoinAll([]) + JoinAll([]) == none;
    }
  }

  lemma OverlayCanMiss()
    ensures AllAllowed(Boot(EMPTY), LateRun())
    ensures var w := Run(Boot(EMPTY), LateRun());
            && HydratedAt(w, ROW) && |w.docs.holders| == 1 && w.docs.holders[0].stage.Held?
            && LiveDoc(w, ROW) == {} && Total(w, ROW) == WORDS
  {
    forall i | 0 <= i < 6
      ensures Allowed(LateWorlds()[i], LateRun()[i]) && LateWorlds()[i + 1] == Next(LateWorlds()[i], LateRun()[i])
    {
      LateStep(i);
    }
    LateTotal();
    RunIs(Boot(EMPTY), LateRun(), LateWorlds());
  }

  lemma LateTotal()
    ensures Content(ApplyAll(EMPTY, Span([[LATE], [Cursor(1)]], 0, 2)), ROW) == WORDS
  {
    var all := [LATE, Cursor(1)];
    assert Span([[LATE], [Cursor(1)]], 0, 1) == [LATE];
    assert Span([[LATE], [Cursor(1)]], 0, 2) == all;
    assert all[..1] == [LATE] && [LATE][..0] == [];
    assert ApplyAll(EMPTY, [LATE]) == Apply(EMPTY, LATE);
    assert ApplyAll(EMPTY, all) == Apply(Apply(EMPTY, LATE), Cursor(1));
  }

  /** A run, given by the worlds it passes through. */
  lemma {:induction false} RunIs(w: World, events: seq<Event>, ws: seq<World>)
    requires |ws| == |events| + 1 && ws[0] == w
    requires forall i :: 0 <= i < |events| ==> Allowed(ws[i], events[i]) && ws[i + 1] == Next(ws[i], events[i])
    ensures Run(w, events) == ws[|events|] && AllAllowed(w, events)
  {
    if events != [] {
      RunIs(w, events[..|events| - 1], ws[..|events|]);
    }
  }

  // ---------------------------------------------------------------- what a refused envelope leaves

  /** A document is opened, and an envelope's first section goes into it before the second does not decode. */
  function RefusedRun(): seq<Event> {
    [Open(ROW), Read(0, []), Overlay(0), OpenEnd(0), Refused([(ROW, WORDS), (APP_DOCUMENT, {})], 1)]
  }

  function RefusedWorlds(): seq<World> {
    var rest := P.Init(P.MirrorOf(EMPTY));
    [Boot(EMPTY),
     World(EMPTY, OneOpen(D.Reading, D.Awaiting), rest, [Trace(0, 0, {}, {})]),
     World(EMPTY, OneOpen(D.ChainRead([]), D.Awaiting), rest, [Trace(0, 0, {}, {})]),
     World(EMPTY, OneOpen(D.Hydrated, D.Awaiting), rest, [Trace(0, 0, {}, {})]),
     World(EMPTY, OneOpen(D.Hydrated, D.Held), rest, [Trace(0, 0, {}, {})]),
     World(EMPTY, D.Manager(map[ROW := 0], [D.LiveDocument(ROW, WORDS, 1, D.Hydrated)], [D.Holder(0, ROW, D.Held)], {}),
           rest, [Trace(0, 0, {}, WORDS)])]
  }

  lemma RefusedSections(m: D.Manager)
    requires m == OneOpen(D.Hydrated, D.Held)
    ensures AcceptSections(m, [(ROW, WORDS)]) == (D.ApplyLive(m, ROW, WORDS), [LATE])
  {
    assert [(ROW, WORDS)][..0] == [];
    assert AcceptSections(m, []) == (m, []);
    assert |ROW| != |APP_DOCUMENT|;
    assert [] + [LATE] == [LATE];
  }

  lemma RefusedOverlay()
    ensures Next(RefusedWorlds()[2], Overlay(0)) == RefusedWorlds()[3]
  {
    var w := RefusedWorlds()[2];
    var none: Update := {};
    assert P.BytesFor([], ROW) == [];
    assert Missed(w, 0) == [];
    assert none + JoinAll([]) + JoinAll([]) == none;
  }

  lemma RefusedLands()
    ensures
      var w := RefusedWorlds()[4];
      D.ApplyLive(w.docs, ROW, WORDS) == RefusedWorlds()[5].docs && Strayed(w, [LATE]) == RefusedWorlds()[5].traces
  {
    var none: Update := {};
    assert [LATE][..0] == [];
    assert Appended([LATE], ROW) == WORDS;
    assert none + WORDS == WORDS;
  }

  lemma RefusedStep(i: nat)
    requires i < 5
    ensures Allowed(RefusedWorlds()[i], RefusedRun()[i])
    ensures Next(RefusedWorlds()[i], RefusedRun()[i]) == RefusedWorlds()[i + 1]
  {
    match i
    case 0 => assert |ROW| != |APP_DOCUMENT|;
    case 2 => RefusedOverlay();
    case 4 =>
      hide D.ApplyLive, Strayed, AcceptSections;
      RefusedLands();
      RefusedSections(RefusedWorlds()[4].docs);
      assert RefusedRun()[4].sections[..1] == [(ROW, WORDS)];
    case _ =>
  }

  /** What a refused envelope left is shown although it was never accepted. */
  lemma RefusedShows()
    ensures AllAllowed(Boot(EMPTY), RefusedRun())
    ensures var w := Run(Boot(EMPTY), RefusedRun());
            HydratedAt(w, ROW) && LiveDoc(w, ROW) == WORDS && Total(w, ROW) == {}
  {
    forall i | 0 <= i < 5
      ensures Allowed(RefusedWorlds()[i], RefusedRun()[i])
      ensures RefusedWorlds()[i + 1] == Next(RefusedWorlds()[i], RefusedRun()[i])
    {
      RefusedStep(i);
    }
    RunIs(Boot(EMPTY), RefusedRun(), RefusedWorlds());
  }

  // ---------------------------------------------------------------- retirement through storage

  lemma StoredGrows(w: World, e: Event)
    requires Inv(w) && Allowed(w, e)
    ensures Inv(Next(w, e)) && Stored(w).tombstones <= Stored(Next(w, e)).tombstones
  {
    NextKeeps(w, e);
    var w' := Next(w, e);
    if e.Crash? {
      assert Span([], 0, 0) == [];
    } else {
      CommitsGrow(w, e);
      var d, d' := Debt(w), Debt(w');
      SpanPrefix(d.groups, d'.groups, 0, d.durable);
      SpanSplit(d'.groups, 0, d.durable, d'.durable);
      ApplyConcat(w.loaded, P.Committed(d), Span(d'.groups, d.durable, d'.durable));
      TombstonesGrow(Stored(w), Span(d'.groups, d.durable, d'.durable));
    }
  }

  /** Nothing durable is ever taken back within a session. */
  lemma CommitsGrow(w: World, e: Event)
    requires P.Bounds(Debt(w)) && !e.Crash?
    ensures Debt(w).groups <= Debt(Next(w, e)).groups && Debt(w).durable <= Debt(Next(w, e)).durable
    ensures Next(w, e).loaded == w.loaded
  {
    var c := match e
      case Edit(h, u, id, outcome) =>
        var (_, op) := D.Edit(w.docs, h, u, id); P.EnqueueEvent(if op.Some? then [op.value] else [], outcome)
      case Remote(sections, cursor, outcome) =>
        var ops := AcceptSections(w.docs, sections).1;
        P.EnqueueEvent(ops + (if cursor.Some? then [Cursor(cursor.value)] else []), outcome)
      case RetireRow(a, app, outcome) => P.EnqueueEvent(app + [Retire(a)], outcome)
      case Other(ops, outcome) => P.EnqueueEvent(ops, outcome)
      case Flush(v, outcome) => P.FlushEvent(v, outcome)
      case Land(ok) => P.LandEvent(ok)
      case Then => P.ThenEvent
      case Finally(outcome) => P.FinallyEvent(outcome)
      case _ => P.EnqueueEvent([], P.Threw);
    P.NextAccepts(w.ctl, c);
    P.NextCommits(w.ctl, c);
    assert Next(w, e).ctl == P.Next(w.ctl, c);
  }

  /** Once a retirement is durable it stays so: through every later step, commit, failed commit, crash and
      reload the tombstone is stored, the chain is empty, the address is refused and nothing is live there. */
  lemma {:induction false} RetiredThroughStorage(w: World, events: seq<Event>, a: Address)
    requires Inv(w) && AllAllowed(w, events) && a in Stored(w).tombstones
    ensures var n := Run(w, events);
            && Inv(n) && a in Stored(n).tombstones && a !in Stored(n).content
            && a in n.docs.retired && a !in n.docs.live && D.OpenBegin(n.docs, a) == (n.docs, None)
  {
    if events != [] {
      RetiredThroughStorage(w, events[..|events| - 1], a);
      StoredGrows(Run(w, events[..|events| - 1]), events[|events| - 1]);
    }
    RunKeeps(w, events);
    var n := Run(w, events);
    StoredHealthy(n);
    assert a in n.docs.live ==> D.LiveOk(n.docs, a);
  }

  /** The retire operation, once its batch commits, is what makes that true. */
  lemma RetireCommits(w: World, a: Address)
    requires Inv(w) && Retire(a) in P.Committed(Debt(w))
    ensures a in Stored(w).tombstones && a !in Stored(w).content
  {
    TombstonesExactly(w.loaded, P.Committed(Debt(w)), a);
    StoredHealthy(w);
  }

  // ---------------------------------------------------------------- what a retired document owes

  lemma {:induction false} CleanAppendsNone(f: Durable, ops: seq<Op>, a: Address)
    requires Clean(f, ops) && a in f.tombstones
    ensures forall op :: op in ops ==> !AppendsTo(op, a)
  {
    if ops != [] {
      var front := ops[..|ops| - 1];
      assert ops == front + [ops[|ops| - 1]];
      CleanAppendsNone(f, front, a);
      TombstonesGrow(f, front);
    }
  }

  /** The retirement's batch deletes the unsent entries, and from there to what is stored now none is there at any
      point exactly as long as no later operation merges entries into one of that document. */
  lemma RetireCommitsUnsent(w: World, a: Address, before: seq<Op>, after: seq<Op>)
    requires Inv(w) && P.Committed(Debt(w)) == before + [Retire(a)] + after
    ensures var retired := ApplyAll(w.loaded, before + [Retire(a)]);
            NeverOwes(retired, after, a) <==> forall op :: op in after ==> !Merges(op, a)
    ensures (forall op :: op in after ==> !Merges(op, a)) ==> !Owes(Stored(w), a)
  {
    var d, front := Debt(w), before + [Retire(a)];
    hide P.Inv, DocsOk, P.DebtInv, Clean;
    CommittedIsClean(w);
    CleanConcat(w.loaded, front, after);
    TombstonesExactly(w.loaded, front, a);
    CleanAppendsNone(ApplyAll(w.loaded, front), after, a);
    RetiredOwesExactly(w.loaded, before, after, a);
    ApplyConcat(w.loaded, front, after);
    assert after[..|after|] == after;
  }

  lemma CommittedIsClean(w: World)
    requires Inv(w)
    ensures Clean(w.loaded, P.Committed(Debt(w)))
  {
    var d := Debt(w);
    SpanSplit(d.groups, 0, d.durable, |d.groups|);
    CleanConcat(w.loaded, P.Committed(d), Span(d.groups, d.durable, |d.groups|));
  }

  /** The event merges no entries into one of document `a`. */
  predicate MergesNone(e: Event, a: Address) {
    match e
    case RetireRow(_, app, _) => forall op :: op in app ==> !Merges(op, a)
    case Other(ops, _) => forall op :: op in ops ==> !Merges(op, a)
    case _ => true
  }

  /** Nor does an operation that was accepted and is not stored yet. */
  ghost predicate Unmerged(w: World, a: Address) {
    Debt(w).durable <= |Debt(w).groups| &&
    forall op :: op in Span(Debt(w).groups, Debt(w).durable, |Debt(w).groups|) ==> !Merges(op, a)
  }

  /** The operations an event enqueues. */
  function AcceptedBy(w: World, e: Event): seq<Op> {
    match e
    case Edit(h, u, id, _) =>
      var (_, op) := D.Edit(w.docs, h, u, id); if op.Some? then [op.value] else []
    case Remote(sections, cursor, _) =>
      AcceptSections(w.docs, sections).1 + (if cursor.Some? then [Cursor(cursor.value)] else [])
    case RetireRow(a, app, _) => app + [Retire(a)]
    case Other(ops, _) => ops
    case _ => []
  }

  lemma GroupsNext(w: World, e: Event)
    requires !e.Crash?
    ensures
      var ops, g := AcceptedBy(w, e), Debt(w).groups;
      Debt(Next(w, e)).groups == if ops == [] then g else g + [ops]
  {
    hide AcceptSections;
    match e
    case Edit(h, u, id, outcome) => P.NextAccepts(w.ctl, P.EnqueueEvent(AcceptedBy(w, e), outcome));
    case Remote(sections, cursor, outcome) => P.NextAccepts(w.ctl, P.EnqueueEvent(AcceptedBy(w, e), outcome));
    case RetireRow(a, app, outcome) => P.NextAccepts(w.ctl, P.EnqueueEvent(AcceptedBy(w, e), outcome));
    case Other(ops, outcome) => P.NextAccepts(w.ctl, P.EnqueueEvent(ops, outcome));
    case Flush(v, outcome) => P.NextAccepts(w.ctl, P.FlushEvent(v, outcome));
    case Finally(outcome) => P.NextAccepts(w.ctl, P.FinallyEvent(outcome));
    case _ =>
  }

  lemma AcceptedMergesNone(w: World, e: Event, a: Address)
    requires Inv(w) && MergesNone(e, a)
    ensures forall op :: op in AcceptedBy(w, e) ==> !Merges(op, a)
  {
    if e.Remote? { SectionsGrow(w.docs, e.sections); }
  }

  /** Everything accepted and not stored before the event, and what it adds, merges nothing. */
  lemma UnmergedAll(w: World, e: Event, a: Address)
    requires Inv(w) && Unmerged(w, a) && MergesNone(e, a) && !e.Crash?
    ensures
      var d, g := Debt(w), Debt(Next(w, e)).groups;
      d.durable <= |g| && forall op :: op in Span(g, d.durable, |g|) ==> !Merges(op, a)
  {
    hide Next, P.Inv, DocsOk, LogOk;
    GroupsNext(w, e);
    AcceptedMergesNone(w, e, a);
    hide AcceptedBy, Merges, MergesNone;
    SpanPush(Debt(w).groups, AcceptedBy(w, e), Debt(w).durable);
  }

  lemma DurableInBounds(w: World)
    requires Inv(w)
    ensures P.Bounds(Debt(w)) && Debt(w).durable <= |Debt(w).groups|
  {
  }

  lemma OwesNothingStep(w: World, e: Event, a: Address)
    requires Inv(w) && Allowed(w, e) && Unmerged(w, a) && MergesNone(e, a) && !e.Crash?
    requires a in Stored(w).tombstones && !Owes(Stored(w), a)
    ensures Inv(Next(w, e)) && Unmerged(Next(w, e), a) && !Owes(Stored(Next(w, e)), a)
  {
    hide Allowed, Owes, P.Inv, DocsOk, LogOk, P.Bounds, Merges, MergesNone, Clean;
    DurableInBounds(w);
    NextKeeps(w, e);
    DurableInBounds(Next(w, e));
    CommitsGrow(w, e);
    UnmergedAll(w, e, a);
    CommittedIsClean(Next(w, e));
    hide Next, Inv;
    LaterOwesNothing(w, Next(w, e), a);
  }

  lemma LaterOwesNothing(w: World, n: World, a: Address)
    requires Debt(w).groups <= Debt(n).groups && n.loaded == w.loaded
    requires Debt(w).durable <= Debt(n).durable <= |Debt(n).groups| && Debt(w).durable <= |Debt(w).groups|
    requires Clean(n.loaded, P.Committed(Debt(n)))
    requires forall op :: op in Span(Debt(n).groups, Debt(w).durable, |Debt(n).groups|) ==> !Merges(op, a)
    requires a in Stored(w).tombstones && !Owes(Stored(w), a)
    ensures Unmerged(n, a) && !Owes(Stored(n), a)
  {
    hide Owes, Merges, Clean, Span;
    var i, j, g := Debt(w).durable, Debt(n).durable, Debt(n).groups;
    var more := Span(g, i, j);
    SpanPrefix(Debt(w).groups, g, 0, i);
    SpanSplit(g, 0, i, j);
    SpanSplit(g, i, j, |g|);
    CleanConcat(n.loaded, Span(g, 0, i), more);
    ApplyConcat(n.loaded, Span(g, 0, i), more);
    CleanAppendsNone(Stored(w), more, a);
    OwesNothingExactly(Stored(w), more, a);
    assert more[..|more|] == more;
  }

  lemma CrashStores(w: World)
    requires Inv(w)
    ensures Stored(Next(w, Crash)) == Stored(w) && Span(Debt(Next(w, Crash)).groups, 0, 0) == []
    ensures Debt(Next(w, Crash)).groups == []
  {
  }

  /** Through every later step, commit, failed commit, crash and reload, no unsent entry of a retired document is
      stored again unless entries are merged into one. */
  lemma {:induction false} RetiredStaysUnsent(w: World, events: seq<Event>, a: Address)
    requires Inv(w) && AllAllowed(w, events) && a in Stored(w).tombstones && !Owes(Stored(w), a)
    requires Unmerged(w, a) && forall e :: e in events ==> MergesNone(e, a)
    ensures Inv(Run(w, events)) && !Owes(Stored(Run(w, events)), a) && Unmerged(Run(w, events), a)
  {
    hide Inv, Owes, Unmerged, MergesNone, Allowed, Next, Stored;
    if events != [] {
      var front, e := events[..|events| - 1], events[|events| - 1];
      RetiredStaysUnsent(w, front, a);
      RetiredThroughStorage(w, front, a);
      if e.Crash? {
        NextKeeps(Run(w, front), e);
        CrashUnmerged(Run(w, front), a);
      } else {
        OwesNothingStep(Run(w, front), e, a);
      }
    }
  }

  lemma CrashUnmerged(w: World, a: Address)
    requires Inv(w)
    ensures Inv(Next(w, Crash)) && Stored(Next(w, Crash)) == Stored(w) && Unmerged(Next(w, Crash), a)
  {
    NextKeeps(w, Crash);
    hide Inv;
    CrashStores(w);
  }
}
