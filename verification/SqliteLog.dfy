/** The SQLite engine: one batch, one transaction, folding a document's chain as soon as an append
    makes it reach the threshold. */
module SqliteLog {
  import opened Relations
  import opened Updates
  import opened Facts
  import opened Wrappers

  const SNAPSHOT_FOLD_THRESHOLD := 64

  datatype Tables = Tables(
    updates: map<Address, Relation<Update>>,
    outbox: Relation<Owed>,
    cursor: map<Address, int>,
    meta: map<string, string>,
    tombstones: set<Address>)

  function Rows(updates: map<Address, Relation<Update>>, a: Address): Relation<Update> {
    if a in updates then updates[a] else []
  }

  ghost predicate Chained(updates: map<Address, Relation<Update>>) {
    forall a :: a in updates ==> Sorted(updates[a]) && forall i :: 0 <= i < |updates[a]| ==> updates[a][i].key > 0
  }

  /** The chain of every document that has one, as its join. */
  ghost function Joined(updates: map<Address, Relation<Update>>): map<Address, Update> {
    map a | a in updates && updates[a] != [] :: JoinAll(Values(updates[a]))
  }

  /** The durable facts these tables hold. */
  ghost function Abstract(t: Tables): Durable {
    Durable(Joined(t.updates), t.outbox,
            if APP_DOCUMENT in t.cursor then t.cursor[APP_DOCUMENT] else 0,
            if "document" in t.meta then Some(t.meta["document"]) else None,
            t.tombstones)
  }

  // ---------------------------------------------------------------- one operation

  function Fold(rows: Relation<Update>): Relation<Update> {
    if |rows| < SNAPSHOT_FOLD_THRESHOLD then rows else [Row(1, JoinAll(Values(rows)))]
  }

  function AppendUpdate(rows: Relation<Update>, u: Update): Relation<Update> {
    Fold(Put(rows, Row(MaxKey(rows) + 1, u)))
  }

  /** `INSERT INTO _outbox`: refused by the primary key or by `CHECK (id > 0)`. */
  function InsertOutbox(outbox: Relation<Owed>, id: int, entry: Owed): Option<Relation<Owed>> {
    if id <= 0 || HasKey(outbox, id) then None else Some(Put(outbox, Row(id, entry)))
  }

  function Step(t: Tables, op: Op): Option<Tables> {
    match op
    case Append(a, u, id) =>
      var t' := t.(updates := t.updates[a := AppendUpdate(Rows(t.updates, a), u)]);
      if id.None? then Some(t') else
        var o := InsertOutbox(t.outbox, id.value, Owed(a, u));
        if o.None? then None else Some(t'.(outbox := o.value))
    case Cursor(n) => if n < 0 then None else Some(t.(cursor := t.cursor[APP_DOCUMENT := n]))
    case Identity(id) => Some(if "document" in t.meta then t else t.(meta := t.meta["document" := id]))
    case DropOutbox(through) => Some(t.(outbox := Over(t.outbox, through)))
    case ReplaceOutbox(a, through, m) =>
      var o := InsertOutbox(WithoutCovered(t.outbox, a, through), through, Owed(a, m));
      if o.None? then None else Some(t.(outbox := o.value))
    case Retire(a) =>
      Some(t.(updates := t.updates - {a}, outbox := WithoutDocument(t.outbox, a), tombstones := t.tombstones + {a}))
  }

  /** The transaction: every operation, or none. */
  function Commit(t: Tables, ops: seq<Op>): Option<Tables> {
    if ops == [] then Some(t) else
      var front := Commit(t, ops[..|ops| - 1]);
      if front.None? then None else Step(front.value, ops[|ops| - 1])
  }

  // ---------------------------------------------------------------- the engine meets the specification

  lemma {:induction false} JoinValues(a: Relation<Update>, b: Relation<Update>)
    ensures JoinAll(Values(a + b)) == JoinAll(Values(a)) + JoinAll(Values(b))
  {
    assert Values(a + b) == Values(a) + Values(b);
    JoinConcat(Values(a), Values(b));
  }

  /** An append goes one past the last stored number, overwriting nothing; the sixty-fourth folds the chain into one
      row, number 1, which replays to the same. */
  lemma AppendKeepsChain(rows: Relation<Update>, u: Update)
    requires Sorted(rows) && forall i :: 0 <= i < |rows| ==> rows[i].key > 0
    ensures var r := AppendUpdate(rows, u);
            && Sorted(r) && (forall i :: 0 <= i < |r| ==> r[i].key > 0)
            && 0 < |r| && JoinAll(Values(r)) == JoinAll(Values(rows)) + u
            && (|rows| + 1 < 64 ==> r == rows + [Row(if rows == [] then 1 else rows[|rows| - 1].key + 1, u)])
            && (|rows| + 1 >= 64 ==> r == [Row(1, JoinAll(Values(rows)) + u)])
  {
    forall i | 0 <= i < |rows| ensures rows[i].key < MaxKey(rows) + 1 { MaxKeyBounds(rows, i); }
    var last := Row(MaxKey(rows) + 1, u);
    PutPastEnd(rows, last);
    MaxKeyIsLast(rows);
    JoinValues(rows, [last]);
    assert Values([last]) == [u];
    assert JoinAll([u]) == u;
    var joined := JoinAll(Values(rows + [last]));
    assert Values([Row(1, joined)]) == [joined];
    assert JoinAll([joined]) == joined;
  }

  /** What makes SQLite refuse an operation, read off the durable facts: a used or non-positive outbox
      id, a negative cursor, a merged entry at an id another document holds. */
  ghost predicate Conflict(f: Durable, op: Op) {
    match op
    case Append(_, _, Some(id)) => id <= 0 || HasKey(f.outbox, id)
    case Cursor(n) => n < 0
    case ReplaceOutbox(a, t, _) =>
      t <= 0 || exists i :: 0 <= i < |f.outbox| && f.outbox[i].key == t && f.outbox[i].value.document != a
    case _ => false
  }

  /** One operation succeeds exactly when it does not conflict. */
  lemma StepSucceeds(t: Tables, op: Op)
    ensures Step(t, op).Some? <==> !Conflict(Abstract(t), op)
  {
    if op.ReplaceOutbox? { CoveredKey(t.outbox, op.document, op.throughId); }
  }

  /** It then does what the specification says to the durable facts, whether or not it folded a chain. */
  lemma StepRefines(t: Tables, op: Op)
    requires Chained(t.updates) && Step(t, op).Some?
    ensures Chained(Step(t, op).value.updates) && Abstract(Step(t, op).value) == Apply(Abstract(t), op)
  {
    if op.Append? {
      AppendRefines(t.updates, op.document, op.bytes);
    } else if op.Retire? {
      RetireRefines(t.updates, op.document);
    } else {
      OthersRefine(t, op);
    }
  }

  lemma RetireRefines(updates: map<Address, Relation<Update>>, a: Address)
    ensures Joined(updates - {a}) == Joined(updates) - {a}
  {
  }

  lemma OthersRefine(t: Tables, op: Op)
    requires !op.Append? && !op.Retire? && Step(t, op).Some?
    ensures Step(t, op).value.updates == t.updates && Abstract(Step(t, op).value) == Apply(Abstract(t), op)
  {
  }

  /** Once a document's covered entries are gone, an id is taken exactly when another document holds it. */
  lemma CoveredKey(s: Relation<Owed>, a: Address, through: int)
    ensures HasKey(WithoutCovered(s, a, through), through)
            <==> exists i :: 0 <= i < |s| && s[i].key == through && s[i].value.document != a
  {
    var kept, keep := WithoutCovered(s, a, through), (r: Row<Owed>) => r.value.document != a || r.key > through;
    if i :| 0 <= i < |kept| && kept[i].key == through {
      FilterMember(s, keep, kept[i]);
      var j :| 0 <= j < |s| && s[j] == kept[i];
    }
    if i :| 0 <= i < |s| && s[i].key == through && s[i].value.document != a {
      FilterMember(s, keep, s[i]);
      var j :| 0 <= j < |kept| && kept[j] == s[i];
    }
  }

  lemma AppendRefines(updates: map<Address, Relation<Update>>, a: Address, u: Update)
    requires Chained(updates)
    ensures var next := updates[a := AppendUpdate(Rows(updates, a), u)];
            && Chained(next)
            && Joined(next) == Joined(updates)[a := (if a in Joined(updates) then Joined(updates)[a] else {}) + u]
  {
    AppendKeepsChain(Rows(updates, a), u);
    var next := updates[a := AppendUpdate(Rows(updates, a), u)];
    assert Values<Update>([]) == [];
  }

  /** No operation of the batch conflicts with what the ones before it left. */
  ghost predicate Admitted(f: Durable, ops: seq<Op>) {
    ops == [] ||
    (Admitted(f, ops[..|ops| - 1]) && !Conflict(ApplyAll(f, ops[..|ops| - 1]), ops[|ops| - 1]))
  }

  /** A batch commits exactly when it is admitted, and then leaves the specified facts. */
  lemma {:induction false} CommitRefines(t: Tables, ops: seq<Op>)
    requires Chained(t.updates)
    ensures Commit(t, ops).Some? <==> Admitted(Abstract(t), ops)
    ensures Commit(t, ops).Some? ==>
              Chained(Commit(t, ops).value.updates) && Abstract(Commit(t, ops).value) == ApplyAll(Abstract(t), ops)
  {
    if ops != [] {
      var front := ops[..|ops| - 1];
      CommitRefines(t, front);
      if Commit(t, front).Some? {
        StepSucceeds(Commit(t, front).value, ops[|ops| - 1]);
        if Commit(t, ops).Some? { StepRefines(Commit(t, front).value, ops[|ops| - 1]); }
      }
    }
  }

  /** Batches the store's verbs produce always commit. */
  lemma {:induction false} ReadyCommits(t: Tables, ops: seq<Op>)
    requires Chained(t.updates) && ReadyAll(Abstract(t), ops)
    ensures Commit(t, ops).Some?
  {
    CommitRefines(t, ops);
    if ops != [] {
      ReadyFront(Abstract(t), ops);
      ReadyCommits(t, ops[..|ops| - 1]);
      CommitRefines(t, ops[..|ops| - 1]);
    }
  }

  // ---------------------------------------------------------------- the engine as it runs

  class SqliteStore {
    var updates: map<Address, Relation<Update>>
    var outbox: Relation<Owed>
    var cursor: map<Address, int>
    var meta: map<string, string>
    var tombstones: set<Address>

    function View(): Tables
      reads this
    {
      Tables(updates, outbox, cursor, meta, tombstones)
    }

    constructor ()
      ensures View() == Tables(map[], [], map[], map[], {})
    {
      updates, outbox, cursor, meta, tombstones := map[], [], map[], map[], {};
    }

    method ReadDocument(document: Address) returns (chain: seq<Update>)
      requires Chained(updates)
      ensures JoinAll(chain) == Content(Abstract(View()), document)
      ensures chain != [] <==> document in Abstract(View()).content
    {
      chain := Values(Rows(updates, document));
    }

    static method Replay(rows: Relation<Update>) returns (document: Update)
      ensures document == JoinAll(Values(rows))
    {
      document := {};
      for i := 0 to |rows|
        invariant document == JoinAll(Values(rows[..i]))
      {
        document := document + rows[i].value;
        assert Values(rows[..i + 1])[..i] == Values(rows[..i]);
      }
      assert rows[..|rows|] == rows;
    }

    method AppendOne(document: Address, update: Update)
      modifies this
      ensures View() == old(View()).(
        updates := old(updates)[document := AppendUpdate(Rows(old(updates), document), update)])
    {
      var nextSeq := MaxKey(Rows(updates, document)) + 1;
      updates := updates[document := Put(Rows(updates, document), Row(nextSeq, update))];
      var rows := Rows(updates, document);
      if |rows| < SNAPSHOT_FOLD_THRESHOLD { return; }
      var baseline := Replay(rows);
      updates := updates[document := []];
      updates := updates[document := [Row(1, baseline)]];
    }

    method InsertUnsent(id: int, document: Address, update: Update) returns (ok: bool)
      modifies this
      ensures var o := InsertOutbox(old(outbox), id, Owed(document, update));
              ok == o.Some? && View() == old(View()).(outbox := if ok then o.value else old(outbox))
    {
      ok := !(id <= 0 || HasKey(outbox, id));
      if ok { outbox := Put(outbox, Row(id, Owed(document, update))); }
    }

    method ReplaceThrough(document: Address, throughId: int, merged: Update) returns (ok: bool)
      modifies this
      ensures var kept := WithoutCovered(old(outbox), document, throughId);
              var o := InsertOutbox(kept, throughId, Owed(document, merged));
              ok == o.Some? && (ok ==> View() == old(View()).(outbox := o.value))
      ensures ok ==> forall r :: r in outbox <==>
        || r == Row(throughId, Owed(document, merged))
        || (r in old(outbox) && (r.value.document != document || r.key > throughId))
    {
      ghost var before := outbox;
      outbox := WithoutCovered(outbox, document, throughId);
      ghost var kept := outbox;
      ok := InsertUnsent(throughId, document, merged);
      if ok {
        forall r ensures r in outbox <==> r == Row(throughId, Owed(document, merged)) || r in kept {
          PutMember(kept, Row(throughId, Owed(document, merged)), r);
        }
        forall r ensures r in kept <==> r in before && (r.value.document != document || r.key > throughId) {
          CoveredMember(before, document, throughId, r);
        }
      }
    }

    method RetireDocument(document: Address)
      modifies this
      ensures View() == Step(old(View()), Retire(document)).value
    {
      tombstones := tombstones + {document};
      updates := updates - {document};
      outbox := WithoutDocument(outbox, document);
    }

    method RunOne(op: Op) returns (ok: bool)
      modifies this
      ensures ok == Step(old(View()), op).Some?
      ensures ok ==> View() == Step(old(View()), op).value
    {
      ok := true;
      match op {
        case Append(document, bytes, outboxId) =>
          AppendOne(document, bytes);
          if outboxId.Some? { ok := InsertUnsent(outboxId.value, document, bytes); }
        case Cursor(n) =>
          ok := n >= 0;
          if ok { cursor := cursor[APP_DOCUMENT := n]; }
        case Identity(id) =>
          if "document" !in meta { meta := meta["document" := id]; }
        case DropOutbox(throughId) => outbox := Over(outbox, throughId);
        case ReplaceOutbox(document, throughId, merged) => ok := ReplaceThrough(document, throughId, merged);
        case Retire(document) => RetireDocument(document);
      }
    }

    /** One transaction: a refused operation rolls everything back. */
    method CommitBatch(ops: seq<Op>) returns (ok: bool)
      modifies this
      ensures ok == Commit(old(View()), ops).Some?
      ensures View() == if ok then Commit(old(View()), ops).value else old(View())
    {
      var before := View();
      ok := true;
      var i := 0;
      while i < |ops|
        invariant 0 <= i <= |ops| && ok && Commit(before, ops[..i]) == Some(View())
      {
        assert ops[..i + 1][..i] == ops[..i];
        ok := RunOne(ops[i]);
        if !ok {
          RefusedStays(before, ops, i + 1);
          updates, outbox, cursor, meta, tombstones :=
            before.updates, before.outbox, before.cursor, before.meta, before.tombstones;
          return;
        }
        i := i + 1;
      }
      assert ops[..i] == ops;
    }
  }

  lemma {:induction false} RefusedStays(t: Tables, ops: seq<Op>, n: nat)
    requires n <= |ops| && Commit(t, ops[..n]).None?
    ensures Commit(t, ops).None?
  {
    if n < |ops| {
      assert ops[..|ops| - 1][..n] == ops[..n];
      RefusedStays(t, ops[..|ops| - 1], n);
    } else {
      assert ops[..n] == ops;
    }
  }
}
