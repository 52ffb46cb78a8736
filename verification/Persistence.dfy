/** The persistence controller: the queue of accepted operations, the batch that is out, and the mirror
    of what the engine has confirmed. The state machine is given as functions on values; the class at the
    end is the controller itself, each method proved to take the corresponding step. */
module Persistence {
  import opened Relations
  import opened Updates
  import opened Facts
  import opened Wrappers

  // ---------------------------------------------------------------- the durable mirror

  datatype Mirror = Mirror(outbox: seq<Row<Owed>>, cursor: int, identity: Option<string>)

  function MirrorOf(f: Durable): Mirror { Mirror(f.outbox, f.cursor, f.identity) }

  function Absorb(m: Mirror, op: Op): Mirror {
    match op
    case Append(a, u, id) => if id.Some? then m.(outbox := m.outbox + [Row(id.value, Owed(a, u))]) else m
    case Cursor(n) => m.(cursor := n)
    case Identity(id) => if m.identity.None? then m.(identity := Some(id)) else m
    case DropOutbox(t) => m.(outbox := Over(m.outbox, t))
    case ReplaceOutbox(a, t, u) =>
      var kept := WithoutCovered(m.outbox, a, t);
      m.(outbox := Under(kept, t) + [Row(t, Owed(a, u))] + Over(kept, t))
    case Retire(a) => m.(outbox := WithoutDocument(m.outbox, a))
  }

  function AbsorbAll(m: Mirror, ops: seq<Op>): Mirror {
    if ops == [] then m else Absorb(AbsorbAll(m, ops[..|ops| - 1]), ops[|ops| - 1])
  }

  lemma {:induction false} AbsorbConcat(m: Mirror, a: seq<Op>, b: seq<Op>)
    ensures AbsorbAll(m, a + b) == AbsorbAll(AbsorbAll(m, a), b)
  {
    if b == [] {
      assert a + b == a;
    } else {
      AbsorbConcat(m, a, b[..|b| - 1]);
      assert (a + b)[..|a + b| - 1] == a + b[..|b| - 1];
    }
  }

  /** The mirror, which pushes appends at its end and never reads storage, is the engine's outbox in id
      order, its cursor and its identity, after every list of operations the store's verbs produce. */
  lemma {:induction false} MirrorAgrees(f: Durable, ops: seq<Op>)
    requires ReadyAll(f, ops)
    ensures AbsorbAll(MirrorOf(f), ops) == MirrorOf(ApplyAll(f, ops))
  {
    if ops != [] {
      var front, op := ops[..|ops| - 1], ops[|ops| - 1];
      ReadyFront(f, ops);
      MirrorAgrees(f, front);
      var g := ApplyAll(f, front);
      if op.Append? && op.outboxId.Some? {
        PutPastEnd(g.outbox, Row(op.outboxId.value, Owed(op.document, op.bytes)));
      }
    }
  }

  /** Entry by entry the mirror keeps what the operation leaves, if an append takes an id no entry has. */
  lemma AbsorbExactly(m: Mirror, op: Op, r: Row<Owed>)
    requires op.Append? && op.outboxId.Some? ==> !HasKey(m.outbox, op.outboxId.value)
    ensures r in Absorb(m, op).outbox <==> Leaves(m.outbox, op, r)
  {
    match op
    case Append(a, u, id) =>
    case DropOutbox(t) => FilterMember(m.outbox, (r: Row<Owed>) => r.key > t, r);
    case ReplaceOutbox(a, t, u) =>
      PutMember(WithoutCovered(m.outbox, a, t), Row(t, Owed(a, u)), r);
      CoveredMember(m.outbox, a, t, r);
    case Retire(a) => DocumentMember(m.outbox, a, r);
    case _ =>
  }

  /** One append, exactly: the mirror stays the engine's outbox if and only if the fresh id is above
      every held one (an id below one of them is stored in the middle but mirrored at the end). */
  lemma MirrorAppendExactly(f: Durable, a: Address, u: Update, id: int)
    requires Sorted(f.outbox) && !HasKey(f.outbox, id)
    ensures Absorb(MirrorOf(f), Append(a, u, Some(id))) == MirrorOf(Apply(f, Append(a, u, Some(id))))
            <==> forall i :: 0 <= i < |f.outbox| ==> f.outbox[i].key < id
  {
    var row := Row(id, Owed(a, u));
    if forall i :: 0 <= i < |f.outbox| ==> f.outbox[i].key < id {
      PutPastEnd(f.outbox, row);
    } else {
      PutSorted(f.outbox, row);
      var i :| 0 <= i < |f.outbox| && f.outbox[i].key >= id;
      assert (f.outbox + [row])[i].key > (f.outbox + [row])[|f.outbox|].key;
    }
  }

  // ---------------------------------------------------------------- the debt

  /** Where the promise of the batch that is out stands. `Landed`: the engine's transaction is over.
      `Settled`: the `then` callback ran and the `finally` callback has not. */
  datatype Flight = Idle | Out | Landed(ok: bool) | Settled(ok: bool)

  /** The accepted operations and how far each has come. `queue`, `flying` and `mirror` are the
      controller's own; the rest is history: the operations of each enqueue, how many of these lists the
      engine holds, and how many had been handed over before and with the batch that is out. */
  datatype Debt = Debt(
    queue: seq<Op>,
    flying: seq<Op>,
    mirror: Mirror,
    flight: Flight,
    groups: seq<seq<Op>>,
    durable: nat,
    base: nat,
    handed: nat)

  function Accept(d: Debt, ops: seq<Op>): Debt { d.(queue := d.queue + ops, groups := d.groups + [ops]) }

  /** A synchronous port took the whole queue. */
  function TakeAll(d: Debt): Debt {
    var n := |d.groups|;
    d.(queue := [], mirror := AbsorbAll(d.mirror, d.queue), durable := n, base := n, handed := n)
  }

  /** An asynchronous port was handed the whole queue. */
  function Hand(d: Debt): Debt { d.(queue := [], flying := d.queue, flight := Out, handed := |d.groups|) }

  /** The engine's transaction ends, whole or not at all. */
  function LandDebt(d: Debt, ok: bool): Debt {
    if d.flight != Out then d else d.(flight := Landed(ok), durable := if ok then d.handed else d.base)
  }

  function ThenDebt(d: Debt): Debt {
    if !d.flight.Landed? then d
    else if d.flight.ok then d.(flight := Settled(true), mirror := AbsorbAll(d.mirror, d.flying))
    else d.(flight := Settled(false), queue := d.flying + d.queue)
  }

  function Rest(d: Debt): Debt { d.(flying := [], flight := Idle, base := d.durable, handed := d.durable) }

  /** How many enqueues the mirror has absorbed: `then` runs after the engine has the batch. */
  function Absorbed(d: Debt): nat { if d.flight == Landed(true) then d.base else d.durable }

  ghost predicate NoneEmpty(groups: seq<seq<Op>>) { forall i :: 0 <= i < |groups| ==> groups[i] != [] }

  /** How far the enqueues have come, by where the batch that is out stands. */
  predicate Counts(d: Debt) {
    && d.base <= d.handed <= |d.groups|
    && match d.flight
       case Idle => d.durable == d.base == d.handed
       case Out => d.durable == d.base < d.handed
       case Landed(ok) => d.base < d.handed && d.durable == if ok then d.handed else d.base
       case Settled(ok) => d.base < d.handed && d.durable == if ok then d.handed else d.base
  }

  ghost predicate Bounds(d: Debt) { Counts(d) && NoneEmpty(d.groups) }

  /** The queue and the batch that is out are exactly the accepted operations the engine has not
      confirmed, in order. Between `then` and `finally` a failed batch is in both. */
  ghost predicate Accounts(d: Debt)
    requires Bounds(d)
  {
    && d.flying == (if d.flight.Idle? then [] else Span(d.groups, d.base, d.handed))
    && d.queue == Span(d.groups, if d.flight == Settled(false) then d.base else d.handed, |d.groups|)
  }

  ghost predicate DebtInv(m: Mirror, d: Debt) {
    Bounds(d) && Accounts(d) && d.mirror == AbsorbAll(m, Span(d.groups, 0, Absorbed(d)))
  }

  lemma AcceptKeeps(m: Mirror, d: Debt, ops: seq<Op>)
    requires DebtInv(m, d) && ops != []
    ensures DebtInv(m, Accept(d, ops))
  {
    var d', from := Accept(d, ops), if d.flight == Settled(false) then d.base else d.handed;
    assert Bounds(d');
    assert d'.queue == Span(d'.groups, from, |d'.groups|) by { SpanPush(d.groups, ops, from); }
    assert Span(d'.groups, d.base, d.handed) == Span(d.groups, d.base, d.handed) by {
      SpanStays(d.groups, ops, d.base, d.handed);
    }
    assert Span(d'.groups, 0, Absorbed(d)) == Span(d.groups, 0, Absorbed(d)) by {
      SpanStays(d.groups, ops, 0, Absorbed(d));
    }
  }

  lemma TakeAllKeeps(m: Mirror, d: Debt)
    requires DebtInv(m, d) && d.flight.Idle?
    ensures DebtInv(m, TakeAll(d))
  {
    SpanSplit(d.groups, 0, d.base, |d.groups|);
    AbsorbConcat(m, Span(d.groups, 0, d.base), d.queue);
  }

  lemma ThenKeeps(m: Mirror, d: Debt)
    requires DebtInv(m, d)
    ensures DebtInv(m, ThenDebt(d))
  {
    if d.flight.Landed? {
      SpanSplit(d.groups, 0, d.base, d.handed);
      AbsorbConcat(m, Span(d.groups, 0, d.base), d.flying);
      SpanSplit(d.groups, d.base, d.handed, |d.groups|);
    }
  }

  /** What the engine holds, in the order it was accepted. */
  function Committed(d: Debt): seq<Op>
    requires d.durable <= |d.groups|
  {
    Span(d.groups, 0, d.durable)
  }

  /** The batch that is out, while what becomes of it is not known. */
  function Undecided(d: Debt): seq<Op> { if d.flight.Out? || d.flight == Landed(false) then d.flying else [] }

  lemma DebtSplits(m: Mirror, d: Debt)
    requires DebtInv(m, d)
    ensures Span(d.groups, 0, |d.groups|) == Committed(d) + (Undecided(d) + d.queue)
    ensures d.flight == Settled(false) ==> d.flying <= d.queue
  {
    hide Span;
    SpanSplit(d.groups, 0, d.durable, |d.groups|);
    SpanSplit(d.groups, d.base, d.handed, |d.groups|);
    NoSpan(d.groups, d.base);
    NoSpan(d.groups, d.handed);
  }

  lemma NoSpan(groups: seq<seq<Op>>, i: nat)
    requires i <= |groups|
    ensures Span(groups, i, i) == []
  {
  }

  // ---------------------------------------------------------------- the controller

  /** What `port.commit` does when it is called. */
  datatype Outcome = Threw | Done | Promised

  /** `asked` and `resolved` are history: the flushes asked for and those answered. */
  datatype Controller = Controller(
    debt: Debt,
    inFlight: bool,
    again: bool,
    waiting: seq<nat>,
    lastFailed: bool,
    asked: set<nat>,
    resolved: set<nat>)

  datatype Status = Saved | Pending | Blocked

  function StatusOf(s: Controller): Status {
    if s.inFlight || s.again then Pending else if s.debt.queue != [] then Blocked else Saved
  }

  function Init(m: Mirror): Controller {
    Controller(Debt([], [], m, Idle, [], 0, 0, 0), false, false, [], false, {}, {})
  }

  function Members(ws: seq<nat>): set<nat> { set w | w in ws }

  lemma MembersPush(ws: seq<nat>, w: nat)
    ensures Members(ws + [w]) == Members(ws) + {w}
  {
  }

  function Settle(s: Controller): Controller {
    if s.inFlight || s.again then s else s.(waiting := [], resolved := s.resolved + Members(s.waiting))
  }

  function Attempt(s: Controller, outcome: Outcome): Controller {
    if s.inFlight then s.(again := true)
    else if s.debt.queue == [] then Settle(s)
    else match outcome
      case Threw => Settle(s.(lastFailed := true))
      case Done => Settle(s.(debt := TakeAll(s.debt), lastFailed := false))
      case Promised => s.(debt := Hand(s.debt), inFlight := true)
  }

  function Enqueue(s: Controller, ops: seq<Op>, outcome: Outcome): Controller {
    if ops == [] then s else Attempt(s.(debt := Accept(s.debt, ops)), outcome)
  }

  function Flush(s: Controller, w: nat, outcome: Outcome): Controller {
    var t := Attempt(s, outcome);
    if !t.inFlight && !t.again then t.(asked := t.asked + {w}, resolved := t.resolved + {w})
    else t.(asked := t.asked + {w}, waiting := t.waiting + [w])
  }

  function Land(s: Controller, ok: bool): Controller { s.(debt := LandDebt(s.debt, ok)) }

  function Then(s: Controller): Controller {
    s.(debt := ThenDebt(s.debt), lastFailed := if s.debt.flight.Landed? then !s.debt.flight.ok else s.lastFailed)
  }

  function Finally(s: Controller, outcome: Outcome): Controller {
    if !s.debt.flight.Settled? then s else
      var t := s.(inFlight := false, debt := Rest(s.debt));
      if t.again then Attempt(t.(again := false), outcome) else Settle(t)
  }

  /** What hydration adds to a stored chain: the unconfirmed appends of one document. */
  function PendingAppends(d: Debt, a: Address): seq<Update> { BytesFor(d.flying + d.queue, a) }

  function BytesFor(ops: seq<Op>, a: Address): seq<Update> {
    if ops == [] then [] else
      var op := ops[|ops| - 1];
      BytesFor(ops[..|ops| - 1], a) + (if op.Append? && op.document == a then [op.bytes] else [])
  }

  /** Append by append, in order: an operation before another one gives its bytes before. */
  lemma {:induction false} BytesInOrder(x: seq<Op>, y: seq<Op>, a: Address)
    ensures BytesFor(x + y, a) == BytesFor(x, a) + BytesFor(y, a)
    ensures |x| == 1 ==> BytesFor(x, a) == if x[0].Append? && x[0].document == a then [x[0].bytes] else []
  {
    if y == [] {
      assert x + y == x;
    } else {
      BytesInOrder(x, y[..|y| - 1], a);
      assert (x + y)[..|x + y| - 1] == x + y[..|y| - 1];
    }
    if |x| == 1 { assert BytesFor(x[..0], a) == []; }
  }

  lemma {:induction false} BytesJoin(ops: seq<Op>, a: Address)
    ensures JoinAll(BytesFor(ops, a)) == Appended(ops, a)
  {
    if ops != [] {
      var op := ops[|ops| - 1];
      BytesJoin(ops[..|ops| - 1], a);
      var tail := if op.Append? && op.document == a then [op.bytes] else [];
      JoinConcat(BytesFor(ops[..|ops| - 1], a), tail);
      assert tail != [] ==> JoinAll(tail) == op.bytes;
    }
  }

  /** While a batch is out and undecided a non-empty queue will be tried again; at rest a non-empty queue
      means the last attempt failed. */
  ghost predicate Wakes(s: Controller) {
    && (s.inFlight <==> !s.debt.flight.Idle?)
    && (s.again ==> s.inFlight)
    && (s.inFlight && s.debt.flight != Settled(false) && s.debt.queue != [] ==> s.again)
    && (s.debt.flight.Idle? && s.debt.queue != [] ==> s.lastFailed)
    && (s.debt.flight == Settled(false) ==> s.lastFailed)
  }

  /** Every flush ever asked for is answered or waiting, and none waits at rest. */
  ghost predicate Answers(s: Controller) {
    s.asked == s.resolved + Members(s.waiting) && (s.waiting != [] ==> s.inFlight)
  }

  ghost predicate Inv(m: Mirror, s: Controller) { DebtInv(m, s.debt) && Wakes(s) && Answers(s) }

  /** An attempt restores the invariant from anywhere the flags agree with the flight. */
  lemma AttemptKeeps(m: Mirror, s: Controller, outcome: Outcome)
    requires DebtInv(m, s.debt) && s.asked == s.resolved + Members(s.waiting)
    requires (s.inFlight <==> !s.debt.flight.Idle?) && (s.again ==> s.inFlight)
    requires s.debt.flight == Settled(false) ==> s.lastFailed
    ensures Inv(m, Attempt(s, outcome))
  {
    if !s.inFlight && s.debt.queue != [] {
      match outcome
      case Threw =>
      case Done => TakeAllKeeps(m, s.debt);
      case Promised =>
    }
  }

  lemma EnqueueKeeps(m: Mirror, s: Controller, ops: seq<Op>, outcome: Outcome)
    requires Inv(m, s)
    ensures Inv(m, Enqueue(s, ops, outcome))
  {
    if ops != [] {
      AcceptKeeps(m, s.debt, ops);
      AttemptKeeps(m, s.(debt := Accept(s.debt, ops)), outcome);
    }
  }

  lemma FlushKeeps(m: Mirror, s: Controller, w: nat, outcome: Outcome)
    requires Inv(m, s)
    ensures Inv(m, Flush(s, w, outcome))
  {
    AttemptKeeps(m, s, outcome);
    var t := Attempt(s, outcome);
    MembersPush(t.waiting, w);
  }

  lemma FinallyKeeps(m: Mirror, s: Controller, outcome: Outcome)
    requires Inv(m, s)
    ensures Inv(m, Finally(s, outcome))
  {
    if s.debt.flight.Settled? {
      var t := s.(inFlight := false, debt := Rest(s.debt));
      if t.again {
        AttemptKeeps(m, t.(again := false), outcome);
      }
    }
  }

  // ---------------------------------------------------------------- runs

  datatype Event =
    | EnqueueEvent(ops: seq<Op>, outcome: Outcome)
    | FlushEvent(w: nat, outcome: Outcome)
    | LandEvent(ok: bool)
    | ThenEvent
    | FinallyEvent(outcome: Outcome)

  function Next(s: Controller, e: Event): Controller {
    match e
    case EnqueueEvent(ops, outcome) => Enqueue(s, ops, outcome)
    case FlushEvent(w, outcome) => Flush(s, w, outcome)
    case LandEvent(ok) => Land(s, ok)
    case ThenEvent => Then(s)
    case FinallyEvent(outcome) => Finally(s, outcome)
  }

  function Run(s: Controller, events: seq<Event>): Controller {
    if events == [] then s else Next(Run(s, events[..|events| - 1]), events[|events| - 1])
  }

  lemma NextKeeps(m: Mirror, s: Controller, e: Event)
    requires Inv(m, s)
    ensures Inv(m, Next(s, e))
  {
    match e
    case EnqueueEvent(ops, outcome) => EnqueueKeeps(m, s, ops, outcome);
    case FlushEvent(w, outcome) => FlushKeeps(m, s, w, outcome);
    case LandEvent(ok) =>
    case ThenEvent => ThenKeeps(m, s.debt);
    case FinallyEvent(outcome) => FinallyKeeps(m, s, outcome);
  }

  /** Every reachable state. */
  lemma {:induction false} RunKeeps(m: Mirror, s: Controller, events: seq<Event>)
    requires Inv(m, s)
    ensures Inv(m, Run(s, events))
  {
    hide Inv, Next;
    if events != [] {
      RunKeeps(m, s, events[..|events| - 1]);
      NextKeeps(m, Run(s, events[..|events| - 1]), events[|events| - 1]);
    }
  }

  function Accepted(events: seq<Event>): seq<Op> {
    if events == [] then [] else
      var e := events[|events| - 1];
      Accepted(events[..|events| - 1]) + (if e.EnqueueEvent? then e.ops else [])
  }

  lemma NextAccepts(s: Controller, e: Event)
    ensures Next(s, e).debt.groups
         == if e.EnqueueEvent? && e.ops != [] then s.debt.groups + [e.ops] else s.debt.groups
  {
  }

  /** Nothing durable is ever taken back. */
  lemma NextCommits(s: Controller, e: Event)
    requires Counts(s.debt)
    ensures s.debt.durable <= Next(s, e).debt.durable
  {
    hide AbsorbAll, Members;
  }

  lemma {:induction false} GroupsAreAccepted(m: Mirror, events: seq<Event>)
    ensures var g := Run(Init(m), events).debt.groups; Span(g, 0, |g|) == Accepted(events)
  {
    if events != [] {
      var front, e := events[..|events| - 1], events[|events| - 1];
      GroupsAreAccepted(m, front);
      var g := Run(Init(m), front).debt.groups;
      NextAccepts(Run(Init(m), front), e);
      if e.EnqueueEvent? { SpanStays(g, e.ops, 0, |g|); }
    }
  }

  /** In every reachable state the accepted operations are the committed ones, then the batch that is
      out and not yet decided, then the queue: nothing lost, duplicated or reordered. What is durable is
      whole enqueues, so a crash leaves a prefix that never splits one. */
  lemma NothingLost(m: Mirror, events: seq<Event>)
    ensures var d := Run(Init(m), events).debt;
            && d.durable <= |d.groups|
            && Accepted(events) == Committed(d) + (Undecided(d) + d.queue)
            && (d.flight == Settled(false) ==> d.flying <= d.queue)
  {
    RunKeeps(m, Init(m), events);
    GroupsAreAccepted(m, events);
    DebtSplits(m, Run(Init(m), events).debt);
  }

  /** No wake-up is lost. While a batch is out and undecided a non-empty queue will be tried again; at rest
      a non-empty queue means the last attempt failed; `saved` means everything accepted is committed;
      and at rest every `flush` ever asked for has been answered. */
  lemma NoLostWakeUp(m: Mirror, events: seq<Event>)
    ensures var s := Run(Init(m), events);
            && ((s.debt.flight.Out? || s.debt.flight.Landed?) && s.debt.queue != [] ==> s.again)
            && (!s.inFlight && s.debt.queue != [] ==> s.lastFailed && StatusOf(s) == Blocked)
            && s.debt.durable <= |s.debt.groups|
            && (StatusOf(s) == Saved <==> !s.inFlight && Accepted(events) == Committed(s.debt))
            && (StatusOf(s) != Pending ==> s.resolved == s.asked && s.waiting == [])
  {
    RunKeeps(m, Init(m), events);
    NothingLost(m, events);
    var s := Run(Init(m), events);
    assert |Accepted(events)| == |Committed(s.debt)| + |Undecided(s.debt)| + |s.debt.queue|;
    assert s.debt.queue == [] && Undecided(s.debt) == [] ==>
      Committed(s.debt) + (Undecided(s.debt) + s.debt.queue) == Committed(s.debt);
  }

  /** Once the batch that is out has landed and settled, and the attempt that follows does not put
      another one out, the controller is at rest and every waiting `flush` is answered. */
  lemma SettledAnswers(m: Mirror, s: Controller, ok: bool, outcome: Outcome)
    requires Inv(m, s) && s.debt.flight.Out? && outcome != Promised
    ensures var t := Finally(Then(Land(s, ok)), outcome);
            && !t.inFlight && !t.again && t.waiting == [] && t.resolved == t.asked == s.asked
            && (ok && outcome == Done ==> StatusOf(t) == Saved)
  {
    ThenKeeps(m, LandDebt(s.debt, ok));
    FinallyKeeps(m, Then(Land(s, ok)), outcome);
  }

  /** The mirror the sync sender reads is the engine's outbox, cursor and identity for exactly the
      committed enqueues (between the engine's commit and the `then` callback it is one batch behind). */
  lemma MirrorIsDurable(f: Durable, events: seq<Event>)
    requires ReadyAll(f, Accepted(events))
    ensures var d := Run(Init(MirrorOf(f)), events).debt;
            && d.durable <= |d.groups|
            && (d.flight != Landed(true) ==> d.mirror == MirrorOf(ApplyAll(f, Committed(d))))
  {
    var m := MirrorOf(f);
    RunKeeps(m, Init(m), events);
    NothingLost(m, events);
    var d := Run(Init(m), events).debt;
    ReadyPrefix(f, Committed(d), Undecided(d) + d.queue);
    MirrorAgrees(f, Committed(d));
  }

  lemma ReadyPrefix(f: Durable, a: seq<Op>, b: seq<Op>)
    requires ReadyAll(f, a + b)
    ensures ReadyAll(f, a)
  {
    forall i | 0 <= i < |a| ensures Ready(ApplyAll(f, a[..i]), a[i]) {
      assert (a + b)[..i] == a[..i] && (a + b)[i] == a[i];
    }
  }

  /** No cursor is durable ahead of the bytes it accounts for: every append accepted before a durable
      cursor is in the chain a crash leaves, unless its document was retired. */
  lemma CursorNeverOutruns(f: Durable, events: seq<Event>, i: nat, a: Address)
    requires i < |Accepted(events)| && Accepted(events)[i].Cursor?
    requires var d := Run(Init(MirrorOf(f)), events).debt;
             d.durable <= |d.groups| && i < |Committed(d)| && Retire(a) !in Committed(d)
    ensures var d := Run(Init(MirrorOf(f)), events).debt;
            Appended(Accepted(events)[..i], a) <= Content(ApplyAll(f, Committed(d)), a)
  {
    var c := Committed(Run(Init(MirrorOf(f)), events).debt);
    NothingLost(MirrorOf(f), events);
    assert Accepted(events)[..i] == c[..i] && c == c[..i] + c[i..];
    AppendedConcat(c[..i], c[i..], a);
    ContentGrows(f, c, a);
  }

  /** The overlay: what a hydrating document adds is exactly the join of its appends in the enqueues
      from the batch that is out onwards, whatever the phase of that batch. */
  lemma OverlayIsUnconfirmed(m: Mirror, d: Debt, a: Address)
    requires DebtInv(m, d)
    ensures JoinAll(PendingAppends(d, a)) == Appended(Span(d.groups, d.base, |d.groups|), a)
  {
    var rest := Span(d.groups, d.handed, |d.groups|);
    BytesJoin(d.flying + d.queue, a);
    AppendedConcat(d.flying, d.queue, a);
    SpanSplit(d.groups, d.base, d.handed, |d.groups|);
    AppendedConcat(Span(d.groups, d.base, d.handed), rest, a);
  }

  // ---------------------------------------------------------------- what an attempt does

  /** Whatever waits, accepted now or put back by a failed batch, is with the port. */
  ghost predicate HandedOver(s: Controller, outcome: Outcome) {
    if outcome == Promised then
      s.debt.flight == Out && s.debt.handed == |s.debt.groups| && s.debt.queue == [] && s.inFlight
    else s.debt.flight == Idle && s.debt.durable == |s.debt.groups| && s.debt.queue == [] && !s.inFlight
  }

  /** Accepting operations at rest hands everything over, also what an earlier attempt left. */
  lemma EnqueueHandsOver(m: Mirror, s: Controller, ops: seq<Op>, outcome: Outcome)
    requires Inv(m, s) && s.debt.flight.Idle? && ops != [] && outcome != Threw
    ensures HandedOver(Enqueue(s, ops, outcome), outcome)
  {
    assert s.debt.queue + ops != [];
  }

  /** So does a flush at rest. */
  lemma FlushHandsOver(m: Mirror, s: Controller, w: nat, outcome: Outcome)
    requires Inv(m, s) && s.debt.flight.Idle? && s.debt.queue != [] && outcome != Threw
    ensures HandedOver(Flush(s, w, outcome), outcome)
  {
  }

  /** And so does a batch that has settled, well or badly, if something was accepted or a flush asked for while it
      was out. */
  lemma FinallyHandsOver(m: Mirror, s: Controller, outcome: Outcome)
    requires Inv(m, s) && s.debt.flight.Settled? && s.again && s.debt.queue != [] && outcome != Threw
    ensures HandedOver(Finally(s, outcome), outcome)
  {
  }

  /** While a batch is out, accepting operations or asking for a flush makes sure of another attempt. */
  lemma AskedAgain(s: Controller, ops: seq<Op>, w: nat, outcome: Outcome)
    requires s.inFlight && ops != []
    ensures Enqueue(s, ops, outcome).again && Flush(s, w, outcome).again
  {
  }

  /** A port that throws leaves everything queued, to be tried again. */
  lemma ThrowKeepsAll(m: Mirror, s: Controller, ops: seq<Op>)
    requires Inv(m, s) && s.debt.flight.Idle? && ops != []
    ensures
      var t := Enqueue(s, ops, Threw);
      && t.debt.queue == s.debt.queue + ops && t.debt.durable == s.debt.durable && t.debt.mirror == s.debt.mirror
      && StatusOf(t) == Blocked && t.lastFailed
  {
    assert s.debt.queue + ops != [];
  }

  // ---------------------------------------------------------------- the controller as it runs

  /** `outcome` is what `port.commit` does if the call gets that far. Listeners are not called from here: one
      that calls back before the waiting flushes are answered is not part of this model. */
  class PersistenceController {
    var queue: seq<Op>
    var inFlight: bool
    var again: bool
    var flying: seq<Op>
    var outbox: seq<Row<Owed>>
    var cursor: int
    var identity: Option<string>
    var settled: seq<nat>

    ghost var flight: Flight
    ghost var groups: seq<seq<Op>>
    ghost var durable: nat
    ghost var base: nat
    ghost var handed: nat
    ghost var lastFailed: bool
    ghost var asked: set<nat>
    ghost var resolved: set<nat>

    function Mirrored(): Mirror
      reads this
    {
      Mirror(outbox, cursor, identity)
    }

    ghost function View(): Controller
      reads this
    {
      Controller(Debt(queue, flying, Mirrored(), flight, groups, durable, base, handed),
                 inFlight, again, settled, lastFailed, asked, resolved)
    }

    constructor (loaded: Durable)
      ensures View() == Init(MirrorOf(loaded))
    {
      queue, inFlight, again, flying := [], false, false, [];
      outbox, cursor, identity, settled := loaded.outbox, loaded.cursor, loaded.identity, [];
      flight, groups, durable, base, handed := Idle, [], 0, 0, 0;
      lastFailed, asked, resolved := false, {}, {};
    }

    function CurrentStatus(): (r: Status)
      reads this
      ensures r == StatusOf(View())
    {
      if inFlight || again then Pending else if |queue| > 0 then Blocked else Saved
    }

    method AbsorbBatch(batch: seq<Op>)
      modifies this`outbox, this`cursor, this`identity
      ensures Mirrored() == AbsorbAll(old(Mirrored()), batch)
    {
      for i := 0 to |batch|
        invariant Mirrored() == AbsorbAll(old(Mirrored()), batch[..i])
      {
        assert batch[..i + 1][..i] == batch[..i];
        match batch[i] {
          case Append(document, bytes, outboxId) =>
            if outboxId.Some? { outbox := outbox + [Row(outboxId.value, Owed(document, bytes))]; }
          case Cursor(n) => cursor := n;
          case Identity(id) => if identity.None? { identity := Some(id); }
          case DropOutbox(throughId) => outbox := Over(outbox, throughId);
          case ReplaceOutbox(document, throughId, merged) =>
            var kept := WithoutCovered(outbox, document, throughId);
            outbox := Under(kept, throughId) + [Row(throughId, Owed(document, merged))] + Over(kept, throughId);
          case Retire(document) => outbox := WithoutDocument(outbox, document);
        }
      }
      assert batch[..|batch|] == batch;
    }

    method SettleWaiting()
      modifies this`settled, this`resolved
      ensures View() == Settle(old(View()))
    {
      if inFlight || again { return; }
      var waiting := settled;
      settled := [];
      for i := 0 to |waiting|
        invariant settled == [] && resolved == old(resolved) + Members(waiting[..i])
      {
        MembersPush(waiting[..i], waiting[i]);
        assert waiting[..i + 1] == waiting[..i] + [waiting[i]];
        resolved := resolved + {waiting[i]};
      }
      assert waiting[..|waiting|] == waiting;
    }

    method Try(outcome: Outcome)
      modifies this
      ensures View() == Attempt(old(View()), outcome)
    {
      if inFlight {
        again := true;
        return;
      }
      if |queue| == 0 {
        SettleWaiting();
        return;
      }
      match outcome {
        case Threw => PortThrew();
        case Done => PortTook();
        case Promised => PortPromised();
      }
      SettleWaiting();
    }

    method PortThrew()
      modifies this`queue, this`lastFailed
      ensures View() == old(View()).(lastFailed := true)
    {
      var batch := queue;
      queue := [];
      Failed(batch);
      assert queue == batch;
    }

    method PortTook()
      modifies this`queue, this`outbox, this`cursor, this`identity
      modifies this`durable, this`base, this`handed, this`lastFailed
      ensures View() == old(View()).(debt := TakeAll(old(View()).debt), lastFailed := false)
    {
      var batch := queue;
      Succeeded(batch);
      queue, durable, base, handed := [], |groups|, |groups|, |groups|;
    }

    method PortPromised()
      modifies this`queue, this`inFlight, this`flying, this`flight, this`handed
      ensures View() == old(View()).(debt := Hand(old(View()).debt), inFlight := true)
    {
      var batch := queue;
      queue := [];
      inFlight := true;
      flying := batch;
      flight, handed := Out, |groups|;
    }

    method Succeeded(batch: seq<Op>)
      modifies this`outbox, this`cursor, this`identity, this`lastFailed
      ensures Mirrored() == AbsorbAll(old(Mirrored()), batch) && !lastFailed
    {
      AbsorbBatch(batch);
      lastFailed := false;
    }

    method Failed(batch: seq<Op>)
      modifies this`queue, this`lastFailed
      ensures queue == batch + old(queue) && lastFailed
    {
      queue := batch + queue;
      lastFailed := true;
    }

    method EnqueueOps(ops: seq<Op>, outcome: Outcome)
      modifies this
      ensures View() == Enqueue(old(View()), ops, outcome)
    {
      if |ops| == 0 { return; }
      queue := queue + ops;
      groups := groups + [ops];
      Try(outcome);
    }

    /** `w` names the promise the caller gets back. */
    method RequestFlush(w: nat, outcome: Outcome)
      modifies this
      ensures View() == Flush(old(View()), w, outcome)
    {
      Try(outcome);
      asked := asked + {w};
      if !inFlight && !again {
        resolved := resolved + {w};
      } else {
        settled := settled + [w];
      }
    }

    /** The engine's transaction ends. Nothing the controller reads changes. */
    ghost method TransactionEnds(ok: bool)
      requires flight.Out?
      modifies this`flight, this`durable
      ensures View() == Land(old(View()), ok)
    {
      flight, durable := Landed(ok), if ok then handed else base;
    }

    /** The `then` callbacks of the batch that is out. */
    method OnOutcome(ok: bool)
      requires flight == Landed(ok)
      modifies this
      ensures View() == Then(old(View()))
    {
      flight := Settled(ok);
      if ok { Succeeded(flying); } else { Failed(flying); }
    }

    /** The `finally` callback. */
    method OnFinally(outcome: Outcome)
      requires flight.Settled?
      modifies this
      ensures View() == Finally(old(View()), outcome)
    {
      ClearFlight();
      if again {
        again := false;
        Try(outcome);
        return;
      }
      SettleWaiting();
    }

    method ClearFlight()
      modifies this`inFlight, this`flying, this`flight, this`base, this`handed
      ensures View() == old(View()).(inFlight := false, debt := Rest(old(View()).debt))
    {
      inFlight := false;
      flying := [];
      flight, base, handed := Idle, durable, durable;
    }

    method PendingFor(document: Address) returns (bytes: seq<Update>)
      ensures bytes == PendingAppends(View().debt, document)
    {
      bytes := [];
      var ops := flying + queue;
      for i := 0 to |ops|
        invariant bytes == BytesFor(ops[..i], document)
      {
        assert ops[..i + 1][..i] == ops[..i];
        if ops[i].Append? && ops[i].document == document { bytes := bytes + [ops[i].bytes]; }
      }
      assert ops[..|ops|] == ops;
    }
  }
}
