/** The durable operations of the store, and the one specification both engines implement: what an
    ordered batch does to the durable facts, with each document's chain seen only through its join. */
module Facts {
  import opened Relations
  import opened Updates
  import opened Wrappers

  type Address = string

  /** The application document's name in the shared log. */
  const APP_DOCUMENT: Address := "app"

  datatype Op =
    | Append(document: Address, bytes: Update, outboxId: Option<int>)
    | Cursor(seq_: int)
    | Identity(id: string)
    | DropOutbox(throughId: int)
    | ReplaceOutbox(document: Address, throughId: int, merged: Update)
    | Retire(document: Address)

  /** An unsent entry; its outbox id is its key. */
  datatype Owed = Owed(document: Address, bytes: Update)

  /** `content` has a key for exactly the documents with a stored chain. */
  datatype Durable = Durable(
    content: map<Address, Update>,
    outbox: Relation<Owed>,
    cursor: int,
    identity: Option<string>,
    tombstones: set<Address>)

  const EMPTY := Durable(map[], [], 0, None, {})

  function Content(f: Durable, a: Address): Update { if a in f.content then f.content[a] else {} }

  function WithoutDocument(s: Relation<Owed>, a: Address): Relation<Owed> {
    Filter(s, (r: Row<Owed>) => r.value.document != a)
  }

  function WithoutCovered(s: Relation<Owed>, a: Address, through: int): Relation<Owed> {
    Filter(s, (r: Row<Owed>) => r.value.document != a || r.key > through)
  }

  function Apply(f: Durable, op: Op): Durable {
    match op
    case Append(a, u, id) =>
      f.(content := f.content[a := Content(f, a) + u],
         outbox := if id.Some? then Put(f.outbox, Row(id.value, Owed(a, u))) else f.outbox)
    case Cursor(n) => f.(cursor := n)
    case Identity(id) => if f.identity.None? then f.(identity := Some(id)) else f
    case DropOutbox(t) => f.(outbox := Over(f.outbox, t))
    case ReplaceOutbox(a, t, m) => f.(outbox := Put(WithoutCovered(f.outbox, a, t), Row(t, Owed(a, m))))
    case Retire(a) =>
      f.(content := f.content - {a}, outbox := WithoutDocument(f.outbox, a), tombstones := f.tombstones + {a})
  }

  function ApplyAll(f: Durable, ops: seq<Op>): Durable {
    if ops == [] then f else Apply(ApplyAll(f, ops[..|ops| - 1]), ops[|ops| - 1])
  }

  lemma {:induction false} ApplyConcat(f: Durable, a: seq<Op>, b: seq<Op>)
    ensures ApplyAll(f, a + b) == ApplyAll(ApplyAll(f, a), b)
  {
    if b == [] {
      assert a + b == a;
    } else {
      ApplyConcat(f, a, b[..|b| - 1]);
      assert (a + b)[..|a + b| - 1] == a + b[..|b| - 1];
    }
  }

  /** The operations of enqueues `i` to `j`, laid end to end. */
  function Span(groups: seq<seq<Op>>, i: nat, j: nat): seq<Op>
    requires j <= |groups|
  {
    if j <= i then [] else Span(groups, i, j - 1) + groups[j - 1]
  }

  lemma {:induction false} SpanSplit(groups: seq<seq<Op>>, i: nat, j: nat, k: nat)
    requires i <= j <= k <= |groups|
    ensures Span(groups, i, k) == Span(groups, i, j) + Span(groups, j, k)
  {
    if j < k {
      SpanSplit(groups, i, j, k - 1);
    }
  }

  lemma {:induction false} SpanStays(groups: seq<seq<Op>>, ops: seq<Op>, i: nat, j: nat)
    requires j <= |groups|
    ensures Span(groups + [ops], i, j) == Span(groups, i, j)
  {
    if i < j {
      SpanStays(groups, ops, i, j - 1);
    }
  }

  lemma SpanPush(groups: seq<seq<Op>>, ops: seq<Op>, i: nat)
    requires i <= |groups|
    ensures Span(groups + [ops], i, |groups| + 1) == Span(groups, i, |groups|) + ops
  {
    SpanStays(groups, ops, i, |groups|);
  }

  /** The outbox is read in id order after every batch. */
  lemma {:induction false} OutboxSorted(f: Durable, ops: seq<Op>)
    requires Sorted(f.outbox)
    ensures Sorted(ApplyAll(f, ops).outbox)
  {
    if ops != [] {
      var g, op := ApplyAll(f, ops[..|ops| - 1]), ops[|ops| - 1];
      OutboxSorted(f, ops[..|ops| - 1]);
      match op
      case Append(a, u, id) => if id.Some? { PutSorted(g.outbox, Row(id.value, Owed(a, u))); }
      case DropOutbox(t) => FilterSorted(g.outbox, (r: Row<Owed>) => r.key > t);
      case ReplaceOutbox(a, t, m) =>
        FilterSorted(g.outbox, (r: Row<Owed>) => r.value.document != a || r.key > t);
        PutSorted(WithoutCovered(g.outbox, a, t), Row(t, Owed(a, m)));
      case Retire(a) => FilterSorted(g.outbox, (r: Row<Owed>) => r.value.document != a);
      case _ =>
    }
  }

  // ---------------------------------------------------------------- what callers promise

  /** What the store's verbs promise of the next operation, given the facts it lands on: ids are
      minted upwards, a merged entry keeps an id of its own document, one identity is ever stamped. */
  ghost predicate Ready(f: Durable, op: Op) {
    match op
    case Append(_, _, Some(id)) => id > 0 && forall i :: 0 <= i < |f.outbox| ==> f.outbox[i].key < id
    case Cursor(n) => n >= 0
    case Identity(id) => f.identity.None? || f.identity.value == id
    case ReplaceOutbox(a, t, _) =>
      t > 0 && forall i :: 0 <= i < |f.outbox| && f.outbox[i].key == t ==> f.outbox[i].value.document == a
    case _ => true
  }

  ghost predicate ReadyAll(f: Durable, ops: seq<Op>) {
    forall i :: 0 <= i < |ops| ==> Ready(ApplyAll(f, ops[..i]), ops[i])
  }

  lemma ReadyFront(f: Durable, ops: seq<Op>)
    requires ReadyAll(f, ops) && ops != []
    ensures ReadyAll(f, ops[..|ops| - 1])
    ensures Ready(ApplyAll(f, ops[..|ops| - 1]), ops[|ops| - 1])
  {
    var front := ops[..|ops| - 1];
    forall i | 0 <= i < |front| ensures Ready(ApplyAll(f, front[..i]), front[i]) {
      assert front[..i] == ops[..i];
      assert Ready(ApplyAll(f, ops[..i]), ops[i]);
    }
  }

  /** The minting discipline of the store, stated on the operations alone: `owner` says which document
      each id was minted for, appends take ids above every minted one, and a merged entry reuses an id
      minted for its own document. */
  ghost predicate Minted(owner: map<int, Address>, ops: seq<Op>, identity: Option<string>)
    decreases |ops|
  {
    ops == [] ||
    match ops[0]
    case Append(a, _, Some(id)) =>
      id > 0 && (forall k :: k in owner ==> k < id) && Minted(owner[id := a], ops[1..], identity)
    case ReplaceOutbox(a, t, _) => t > 0 && t in owner && owner[t] == a && Minted(owner, ops[1..], identity)
    case Cursor(n) => n >= 0 && Minted(owner, ops[1..], identity)
    case Identity(id) => (identity.None? || identity.value == id) && Minted(owner, ops[1..], Some(id))
    case _ => Minted(owner, ops[1..], identity)
  }

  ghost predicate OwnedBy(f: Durable, owner: map<int, Address>) {
    forall i :: 0 <= i < |f.outbox| ==> f.outbox[i].key in owner && owner[f.outbox[i].key] == f.outbox[i].value.document
  }

  lemma OwnedStep(f: Durable, op: Op, owner: map<int, Address>)
    requires OwnedBy(f, owner)
    requires op.Append? && op.outboxId.Some? ==> op.outboxId.value in owner && owner[op.outboxId.value] == op.document
    requires op.ReplaceOutbox? ==> op.throughId in owner && owner[op.throughId] == op.document
    ensures OwnedBy(Apply(f, op), owner)
  {
    var g := Apply(f, op);
    forall i | 0 <= i < |g.outbox|
      ensures g.outbox[i].key in owner && owner[g.outbox[i].key] == g.outbox[i].value.document
    {
      var r := g.outbox[i];
      assert r in g.outbox;
      match op {
        case Append(a, u, id) => if id.Some? { PutMember(f.outbox, Row(id.value, Owed(a, u)), r); }
        case DropOutbox(t) => FilterMember(f.outbox, (r: Row<Owed>) => r.key > t, r);
        case ReplaceOutbox(a, t, m) =>
          PutMember(WithoutCovered(f.outbox, a, t), Row(t, Owed(a, m)), r);
          FilterMember(f.outbox, (r: Row<Owed>) => r.value.document != a || r.key > t, r);
        case Retire(a) => FilterMember(f.outbox, (r: Row<Owed>) => r.value.document != a, r);
        case _ =>
      }
    }
  }

  /** The store's minting discipline is enough for every operation of a run to be `Ready`. */
  lemma {:induction false} MintedIsReady(f: Durable, ops: seq<Op>, owner: map<int, Address>)
    requires OwnedBy(f, owner) && Minted(owner, ops, f.identity)
    ensures ReadyAll(f, ops)
    decreases |ops|
  {
    if ops != [] {
      var op, g := ops[0], Apply(f, ops[0]);
      var owner' := if op.Append? && op.outboxId.Some? then owner[op.outboxId.value := op.document] else owner;
      assert Ready(f, op);
      assert OwnedBy(f, owner');
      OwnedStep(f, op, owner');
      assert Minted(owner', ops[1..], g.identity);
      MintedIsReady(g, ops[1..], owner');
      forall i | 0 <= i < |ops| ensures Ready(ApplyAll(f, ops[..i]), ops[i]) {
        if i > 0 {
          assert ops[..i] == [op] + ops[1..][..i - 1];
          ApplyConcat(f, [op], ops[1..][..i - 1]);
          assert [op][..0] == [];
          assert ops[1..][i - 1] == ops[i];
        }
      }
    }
  }

  // ---------------------------------------------------------------- one document through a run

  /** The join of every append for `a` in `ops`. */
  function Appended(ops: seq<Op>, a: Address): Update {
    if ops == [] then {} else
      var op := ops[|ops| - 1];
      Appended(ops[..|ops| - 1], a) + (if op.Append? && op.document == a then op.bytes else {})
  }

  lemma {:induction false} AppendedConcat(x: seq<Op>, y: seq<Op>, a: Address)
    ensures Appended(x + y, a) == Appended(x, a) + Appended(y, a)
  {
    if y == [] {
      assert x + y == x;
    } else {
      AppendedConcat(x, y[..|y| - 1], a);
      assert (x + y)[..|x + y| - 1] == x + y[..|y| - 1];
    }
  }

  lemma {:induction false} NothingAppended(ops: seq<Op>, a: Address)
    requires forall op :: op in ops ==> !(op.Append? && op.document == a)
    ensures Appended(ops, a) == {}
  {
    if ops != [] {
      NothingAppended(ops[..|ops| - 1], a);
    }
  }

  lemma ContentStep(f: Durable, op: Op, a: Address)
    ensures Content(Apply(f, op), a)
         == if op == Retire(a) then {} else Content(f, a) + (if op.Append? && op.document == a then op.bytes else {})
  {
  }

  /** Until it is retired, a document holds what it held plus everything appended to it. */
  lemma {:induction false} ContentGrows(f: Durable, ops: seq<Op>, a: Address)
    requires Retire(a) !in ops
    ensures Content(ApplyAll(f, ops), a) == Content(f, a) + Appended(ops, a)
  {
    if ops != [] {
      ContentGrows(f, ops[..|ops| - 1], a);
      ContentStep(ApplyAll(f, ops[..|ops| - 1]), ops[|ops| - 1], a);
    }
  }

  /** The cursor is the last one written, whatever its value, and what it was when none was. */
  lemma {:induction false} LastCursorStands(f: Durable, ops: seq<Op>, i: nat)
    requires i <= |ops| && (i > 0 ==> ops[i - 1].Cursor?) && forall j :: i <= j < |ops| ==> !ops[j].Cursor?
    ensures ApplyAll(f, ops).cursor == if i == 0 then f.cursor else ops[i - 1].seq_
  {
    if i < |ops| {
      LastCursorStands(f, ops[..|ops| - 1], i);
    }
  }

  /** The identity is the first one stamped: a later stamp changes nothing. */
  lemma {:induction false} FirstIdentityStands(f: Durable, ops: seq<Op>, i: nat)
    requires i <= |ops| && (i < |ops| ==> ops[i].Identity?) && forall j :: 0 <= j < i ==> !ops[j].Identity?
    ensures ApplyAll(f, ops).identity ==
            if f.identity.Some? then f.identity else if i < |ops| then Some(ops[i].id) else None
  {
    if ops != [] {
      FirstIdentityStands(f, ops[..|ops| - 1], if i < |ops| then i else i - 1);
    }
  }

  /** The tombstones are those there were and one for every retirement. */
  lemma {:induction false} TombstonesExactly(f: Durable, ops: seq<Op>, a: Address)
    ensures a in ApplyAll(f, ops).tombstones <==> a in f.tombstones || Retire(a) in ops
  {
    if ops != [] {
      var front := ops[..|ops| - 1];
      TombstonesExactly(f, front, a);
      assert ops == front + [ops[|ops| - 1]];
    }
  }

  /** A tombstone is never lifted, and without appends past it the chain stays empty. */
  lemma {:induction false} TombstoneStays(f: Durable, ops: seq<Op>, a: Address)
    requires a in f.tombstones && a !in f.content
    requires forall i :: 0 <= i < |ops| ==> !(ops[i].Append? && ops[i].document == a)
    ensures a in ApplyAll(f, ops).tombstones && a !in ApplyAll(f, ops).content
  {
    if ops != [] {
      TombstoneStays(f, ops[..|ops| - 1], a);
    }
  }

  // ---------------------------------------------------------------- which entries are unsent

  /** An entry is unsent after the operation: it is the one that enters, or it was there and stays. */
  predicate Leaves(outbox: Relation<Owed>, op: Op, r: Row<Owed>) {
    match op
    case Append(a, u, Some(id)) => r == Row(id, Owed(a, u)) || (r in outbox && r.key != id)
    case DropOutbox(t) => r in outbox && r.key > t
    case ReplaceOutbox(a, t, m) =>
      r == Row(t, Owed(a, m)) || (r in outbox && r.key != t && (r.value.document != a || r.key > t))
    case Retire(a) => r in outbox && r.value.document != a
    case _ => r in outbox
  }

  lemma OutboxExactly(f: Durable, op: Op, r: Row<Owed>)
    ensures r in Apply(f, op).outbox <==> Leaves(f.outbox, op, r)
  {
    match op
    case Append(a, u, id) => if id.Some? { PutMember(f.outbox, Row(id.value, Owed(a, u)), r); }
    case DropOutbox(t) => FilterMember(f.outbox, (r: Row<Owed>) => r.key > t, r);
    case ReplaceOutbox(a, t, m) =>
      PutMember(WithoutCovered(f.outbox, a, t), Row(t, Owed(a, m)), r);
      CoveredMember(f.outbox, a, t, r);
    case Retire(a) => DocumentMember(f.outbox, a, r);
    case _ =>
  }

  /** A merge leaves the entries of other documents, and the document's own above the merged id. */
  lemma CoveredMember(s: Relation<Owed>, a: Address, through: int, r: Row<Owed>)
    ensures r in WithoutCovered(s, a, through) <==> r in s && (r.value.document != a || r.key > through)
  {
    FilterMember(s, (r: Row<Owed>) => r.value.document != a || r.key > through, r);
  }

  lemma DocumentMember(s: Relation<Owed>, a: Address, r: Row<Owed>)
    ensures r in WithoutDocument(s, a) <==> r in s && r.value.document != a
  {
    FilterMember(s, (r: Row<Owed>) => r.value.document != a, r);
  }

  /** The operation makes exactly this an unsent entry. */
  predicate Enters(op: Op, r: Row<Owed>) {
    || op == Append(r.value.document, r.value.bytes, Some(r.key))
    || op == ReplaceOutbox(r.value.document, r.key, r.value.bytes)
  }

  /** The entry is acknowledged, or merged into one of its own document, or its document is retired. */
  predicate Clears(op: Op, r: Row<Owed>) {
    match op
    case DropOutbox(t) => r.key <= t
    case ReplaceOutbox(a, t, _) => r.value.document == a && r.key <= t
    case Retire(a) => r.value.document == a
    case _ => false
  }

  lemma OutboxStep(f: Durable, op: Op, r: Row<Owed>)
    requires Ready(f, op)
    ensures r in Apply(f, op).outbox <==> Enters(op, r) || (r in f.outbox && !Clears(op, r))
  {
    OutboxExactly(f, op, r);
    if r in f.outbox { var i :| 0 <= i < |f.outbox| && f.outbox[i] == r; }
    hide Apply;
  }

  /** Unsent since operation `i`: it was there before the first or entered with the one before, and nothing from
      there on cleared it. */
  predicate UnsentSince(f: Durable, ops: seq<Op>, r: Row<Owed>, i: nat)
    requires i <= |ops|
  {
    && (if i == 0 then r in f.outbox else Enters(ops[i - 1], r))
    && forall j :: i <= j < |ops| ==> !Clears(ops[j], r)
  }

  ghost predicate Unsent(f: Durable, ops: seq<Op>, r: Row<Owed>) {
    exists i: nat :: i <= |ops| && UnsentSince(f, ops, r, i)
  }

  lemma SinceNext(f: Durable, front: seq<Op>, op: Op, r: Row<Owed>, i: nat)
    requires i <= |front|
    ensures UnsentSince(f, front + [op], r, i) <==> UnsentSince(f, front, r, i) && !Clears(op, r)
  {
    hide Enters, Clears;
    var ops := front + [op];
    assert ops[|front|] == op && forall j :: 0 <= j < |front| ==> ops[j] == front[j];
  }

  lemma UnsentNext(f: Durable, front: seq<Op>, op: Op, r: Row<Owed>)
    ensures Unsent(f, front + [op], r) <==> Enters(op, r) || (Unsent(f, front, r) && !Clears(op, r))
  {
    var ops := front + [op];
    assert UnsentSince(f, ops, r, |ops|) <==> Enters(op, r);
    hide UnsentSince, Enters, Clears;
    forall i: nat | i <= |front| ensures UnsentSince(f, ops, r, i) <==> UnsentSince(f, front, r, i) && !Clears(op, r) {
      SinceNext(f, front, op, r, i);
    }
    if i: nat :| i <= |ops| && UnsentSince(f, ops, r, i) {
      assert i <= |front| ==> UnsentSince(f, front, r, i);
    }
    if Unsent(f, front, r) && !Clears(op, r) {
      var i: nat :| i <= |front| && UnsentSince(f, front, r, i);
      assert UnsentSince(f, ops, r, i);
    }
  }

  /** Through every list of the store's operations the unsent entries are exactly those that were there or entered
      and were not acknowledged, merged or retired since: nothing accepted is forgotten, and nothing invented. */
  lemma {:induction false} UnsentExactly(f: Durable, ops: seq<Op>, r: Row<Owed>)
    requires ReadyAll(f, ops)
    ensures r in ApplyAll(f, ops).outbox <==> exists i: nat :: i <= |ops| && UnsentSince(f, ops, r, i)
  {
    if ops == [] {
      assert UnsentSince(f, ops, r, 0) <==> r in f.outbox;
    } else {
      var front, op := ops[..|ops| - 1], ops[|ops| - 1];
      hide UnsentSince, Enters, Clears, Ready, Apply;
      assert ops == front + [op];
      ReadyFront(f, ops);
      UnsentExactly(f, front, r);
      OutboxStep(ApplyAll(f, front), op, r);
      UnsentNext(f, front, op, r);
    }
  }

  // ---------------------------------------------------------------- what is owed after a retirement

  /** Some unsent entry is of document `a`. */
  ghost predicate Owes(f: Durable, a: Address) { exists r :: r in f.outbox && r.value.document == a }

  /** The operation merges unsent entries into one of document `a`. */
  predicate Merges(op: Op, a: Address) { op.ReplaceOutbox? && op.document == a }

  /** With nothing owed for `a`, and no append for it, only a merged entry makes something owed again. */
  lemma OwesStep(f: Durable, op: Op, a: Address)
    requires !Owes(f, a) && !(op.Append? && op.document == a)
    ensures Owes(Apply(f, op), a) <==> Merges(op, a)
  {
    var g := Apply(f, op);
    forall r | r in g.outbox ensures r in f.outbox || (op.Append? && r.value.document == op.document)
        || (op.ReplaceOutbox? && r.value.document == op.document) {
      match op {
        case Append(b, u, id) => if id.Some? { PutMember(f.outbox, Row(id.value, Owed(b, u)), r); }
        case DropOutbox(t) => FilterMember(f.outbox, (r: Row<Owed>) => r.key > t, r);
        case ReplaceOutbox(b, t, m) =>
          PutMember(WithoutCovered(f.outbox, b, t), Row(t, Owed(b, m)), r);
          FilterMember(f.outbox, (r: Row<Owed>) => r.value.document != b || r.key > t, r);
        case Retire(b) => FilterMember(f.outbox, (r: Row<Owed>) => r.value.document != b, r);
        case _ =>
      }
    }
    if Merges(op, a) {
      var merged := Row(op.throughId, Owed(a, op.merged));
      PutMember(WithoutCovered(f.outbox, a, op.throughId), merged, merged);
    }
  }

  lemma RetireUnsends(f: Durable, a: Address)
    ensures !Owes(Apply(f, Retire(a)), a)
  {
    forall r | r in WithoutDocument(f.outbox, a) ensures r.value.document != a {
      FilterMember(f.outbox, (r: Row<Owed>) => r.value.document != a, r);
    }
  }

  ghost predicate NeverOwes(f: Durable, ops: seq<Op>, a: Address) {
    forall n :: 0 <= n <= |ops| ==> !Owes(ApplyAll(f, ops[..n]), a)
  }

  lemma NeverOwesNext(f: Durable, ops: seq<Op>, a: Address)
    requires ops != []
    ensures NeverOwes(f, ops, a) <==> NeverOwes(f, ops[..|ops| - 1], a) && !Owes(ApplyAll(f, ops), a)
  {
    var front := ops[..|ops| - 1];
    assert ops[..|ops|] == ops;
    assert forall n :: 0 <= n <= |front| ==> front[..n] == ops[..n];
    if NeverOwes(f, front, a) && !Owes(ApplyAll(f, ops), a) {
      forall n | 0 <= n <= |ops| ensures !Owes(ApplyAll(f, ops[..n]), a) {
        if n < |ops| { assert ops[..n] == front[..n]; }
      }
    }
    if NeverOwes(f, ops, a) {
      assert !Owes(ApplyAll(f, ops[..|ops|]), a);
      forall n | 0 <= n <= |front| ensures !Owes(ApplyAll(f, front[..n]), a) {
        assert front[..n] == ops[..n];
      }
    }
  }

  /** Without appends for `a`, nothing owed stays nothing owed exactly as long as no merged entry names it. */
  lemma {:induction false} OwesNothingExactly(f: Durable, ops: seq<Op>, a: Address)
    requires !Owes(f, a) && forall op :: op in ops ==> !(op.Append? && op.document == a)
    ensures NeverOwes(f, ops, a) <==> forall op :: op in ops ==> !Merges(op, a)
  {
    if ops == [] {
      assert forall n :: 0 <= n <= |ops| ==> ops[..n] == [];
    } else {
      var front, op := ops[..|ops| - 1], ops[|ops| - 1];
      assert ops == front + [op];
      OwesNothingExactly(f, front, a);
      NeverOwesNext(f, ops, a);
      if NeverOwes(f, front, a) {
        assert front[..|front|] == front;
        assert !Owes(ApplyAll(f, front[..|front|]), a);
        OwesStep(ApplyAll(f, front), op, a);
      }
    }
  }

  /** A retirement deletes every unsent entry of the document. After it, as no append for a tombstoned document is
      made, the outbox holds none exactly as long as no later operation merges entries into one of it. */
  lemma RetiredOwesExactly(f: Durable, before: seq<Op>, after: seq<Op>, a: Address)
    requires forall op :: op in after ==> !(op.Append? && op.document == a)
    ensures NeverOwes(ApplyAll(f, before + [Retire(a)]), after, a) <==> forall op :: op in after ==> !Merges(op, a)
  {
    var front := before + [Retire(a)];
    assert front[..|front| - 1] == before;
    RetireUnsends(ApplyAll(f, before), a);
    OwesNothingExactly(ApplyAll(f, front), after, a);
  }

  lemma ApplyThree(f: Durable, x: Op, y: Op, z: Op)
    ensures ApplyAll(f, [x, y, z]) == Apply(Apply(Apply(f, x), y), z)
  {
    hide Apply;
    assert [x][..0] == [] && [x, y][..1] == [x] && [x, y, z][..2] == [x, y];
    assert ApplyAll(f, [x]) == Apply(f, x);
    assert ApplyAll(f, [x, y]) == Apply(Apply(f, x), y);
  }

  /** The sender merges two entries it read before the retirement landed: the tombstoned document is owed again. */
  lemma MergeOwesRetired(u: Update, v: Update, m: Update)
    ensures
      var ops := [Append("d", u, Some(1)), Append("d", v, Some(2)), Retire("d"), ReplaceOutbox("d", 2, m)];
      var f := ApplyAll(EMPTY, ops);
      "d" in f.tombstones && "d" !in f.content && Owes(f, "d")
  {
    var first, x, y, z := Append("d", u, Some(1)), Append("d", v, Some(2)), Retire("d"), ReplaceOutbox("d", 2, m);
    var f := Apply(EMPTY, first);
    assert [first][..0] == [] && ApplyAll(EMPTY, [first]) == f;
    ApplyConcat(EMPTY, [first], [x, y, z]);
    assert [first] + [x, y, z] == [first, x, y, z];
    ApplyThree(f, x, y, z);
    RetireUnsends(Apply(f, x), "d");
    OwesStep(Apply(Apply(f, x), y), z, "d");
  }
}
