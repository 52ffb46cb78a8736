/** The browser engine: one IndexedDB transaction per batch, its own per-document sequence numbers and
    counts, and one fold at the end of the batch for each document that crossed the threshold. */
module IndexedDb {
  import opened Relations
  import opened Updates
  import opened Facts
  import opened SqliteLog
  import opened Wrappers

  datatype Stores = Stores(
    updates: map<Address, Relation<Update>>,
    outbox: Relation<Owed>,
    tombstones: set<Address>,
    cursor: Option<int>,
    identity: Option<string>)

  /** A transaction in progress: the stores it has written and its working copy of the books. */
  datatype Transaction = Transaction(
    stores: Stores,
    seqs: map<Address, int>,
    counts: map<Address, int>,
    touched: set<Address>)

  ghost function Abstracted(s: Stores): Durable {
    Durable(Joined(s.updates), s.outbox, if s.cursor.Some? then s.cursor.value else 0, s.identity, s.tombstones)
  }

  function Get<K, V>(m: map<K, V>, k: K): Option<V> { if k in m then Some(m[k]) else None }

  /** One document's books are exact: it has entries iff it has a chain, its count is the chain's length and its
      next sequence number is 1, or one past the last stored one when that is higher; so it is above all of them. */
  ghost predicate ExactBook(rows: Relation<Update>, next: Option<int>, count: Option<int>) {
    if rows == [] then next.None? && count.None?
    else
      && next.Some? && count == Some(|rows|)
      && next.value == (if rows[|rows| - 1].key < 0 then 1 else rows[|rows| - 1].key + 1)
      && forall i :: 0 <= i < |rows| ==> rows[i].key < next.value
  }

  ghost predicate Exact(updates: map<Address, Relation<Update>>, seqs: map<Address, int>, counts: map<Address, int>) {
    forall a: Address {:trigger Rows(updates, a)} {:trigger Get(seqs, a)} {:trigger Get(counts, a)} ::
      ExactBook(Rows(updates, a), Get(seqs, a), Get(counts, a))
  }

  ghost predicate Short(updates: map<Address, Relation<Update>>) {
    forall a: Address :: |Rows(updates, a)| < 64
  }

  // ---------------------------------------------------------------- one operation

  function SeqOf(seqs: map<Address, int>, a: Address): int { Get(seqs, a).GetOr(1) }

  function CountOf(counts: map<Address, int>, a: Address): int { Get(counts, a).GetOr(0) }

  function TxStep(t: Transaction, op: Op): Transaction {
    var s := t.stores;
    match op
    case Append(a, u, id) =>
      var updates := s.updates[a := Put(Rows(s.updates, a), Row(SeqOf(t.seqs, a), u))];
      var outbox := if id.Some? then Put(s.outbox, Row(id.value, Owed(a, u))) else s.outbox;
      Transaction(s.(updates := updates, outbox := outbox),
                  t.seqs[a := SeqOf(t.seqs, a) + 1], t.counts[a := CountOf(t.counts, a) + 1], t.touched + {a})
    case Cursor(n) => t.(stores := s.(cursor := Some(n)))
    case Identity(id) => t.(stores := s.(identity := Some(id)))
    case DropOutbox(through) => t.(stores := s.(outbox := Over(s.outbox, through)))
    case ReplaceOutbox(a, through, m) =>
      t.(stores := s.(outbox := Put(WithoutCovered(s.outbox, a, through), Row(through, Owed(a, m)))))
    case Retire(a) =>
      Transaction(
        s.(updates := s.updates - {a}, outbox := WithoutDocument(s.outbox, a), tombstones := s.tombstones + {a}),
        t.seqs - {a}, t.counts - {a}, t.touched - {a})
  }

  function StepAll(t: Transaction, ops: seq<Op>): Transaction {
    if ops == [] then t else TxStep(StepAll(t, ops[..|ops| - 1]), ops[|ops| - 1])
  }

  predicate Folds(t: Transaction, a: Address) {
    a in t.touched && CountOf(t.counts, a) >= SNAPSHOT_FOLD_THRESHOLD
  }

  /** The batch-end fold of the documents in `which`. */
  function FoldSome(t: Transaction, which: set<Address>): Transaction {
    t.(stores := t.stores.(updates := map a | a in t.stores.updates ::
                             if a in which && Folds(t, a) then [Row(1, JoinAll(Values(t.stores.updates[a])))]
                             else t.stores.updates[a]),
       seqs := map a | a in t.seqs :: if a in which && Folds(t, a) then 2 else t.seqs[a],
       counts := map a | a in t.counts :: if a in which && Folds(t, a) then 1 else t.counts[a])
  }

  /** What folding one document writes: its chain is deleted, its baseline put at 1. */
  function FoldedAt(t: Transaction, a: Address, baseline: Update): Transaction {
    Transaction(t.stores.(updates := t.stores.updates[a := [Row(1, baseline)]]),
                t.seqs[a := 2], t.counts[a := 1], t.touched)
  }

  lemma NothingFolded(t: Transaction)
    ensures FoldSome(t, {}) == t
  {
    var f := FoldSome(t, {});
    assert f.stores.updates == t.stores.updates && f.seqs == t.seqs && f.counts == t.counts;
  }

  /** The fold loop's step: documents fold independently of each other. */
  lemma FoldNext(t: Transaction, done: set<Address>, a: Address)
    requires a in t.touched && a !in done
    requires a in t.stores.updates && a in t.seqs && a in t.counts
    ensures var now, next := FoldSome(t, done), FoldSome(t, done + {a});
            next == if CountOf(now.counts, a) < SNAPSHOT_FOLD_THRESHOLD then now
                    else FoldedAt(now, a, JoinAll(Values(Rows(now.stores.updates, a))))
  {
    assert CountOf(FoldSome(t, done).counts, a) == CountOf(t.counts, a);
    if Folds(t, a) {
      FoldThis(t, done, a);
    } else {
      var now, next := FoldSome(t, done), FoldSome(t, done + {a});
      assert next.stores.updates == now.stores.updates;
      assert next.seqs == now.seqs;
      assert next.counts == now.counts;
    }
  }

  lemma FoldThis(t: Transaction, done: set<Address>, a: Address)
    requires Folds(t, a) && a !in done
    requires a in t.stores.updates && a in t.seqs && a in t.counts
    ensures var now := FoldSome(t, done);
            FoldSome(t, done + {a}) == FoldedAt(now, a, JoinAll(Values(Rows(now.stores.updates, a))))
  {
    var now, next := FoldSome(t, done), FoldSome(t, done + {a});
    assert next.stores.updates == now.stores.updates[a := [Row(1, JoinAll(Values(t.stores.updates[a])))]];
    assert next.seqs == now.seqs[a := 2];
    assert next.counts == now.counts[a := 1];
  }

  /** A whole batch against the stores and books it starts from. */
  function Batch(s: Stores, seqs: map<Address, int>, counts: map<Address, int>, ops: seq<Op>): Transaction {
    var t := StepAll(Transaction(s, seqs, counts, {}), ops);
    FoldSome(t, t.touched)
  }

  // ---------------------------------------------------------------- the engine meets the specification

  /** What every point of a transaction keeps. */
  ghost predicate Sound(t: Transaction) {
    Chained(t.stores.updates) && Exact(t.stores.updates, t.seqs, t.counts) && AllStored(t)
  }

  /** Every document the batch touched has a chain. */
  ghost predicate AllStored(t: Transaction) { forall a :: a in t.touched ==> Rows(t.stores.updates, a) != [] }

  ghost predicate ShortUntouched(t: Transaction) {
    forall a: Address :: a !in t.touched ==> |Rows(t.stores.updates, a)| < SNAPSHOT_FOLD_THRESHOLD
  }

  function LastStamp(i: Option<string>, op: Op): Option<string> {
    if op.Identity? then Some(op.id) else i
  }

  /** An append lands past the end of its chain, so it overwrites nothing. */
  lemma AppendLands(t: Transaction, a: Address, u: Update)
    requires Sound(t)
    ensures Put(Rows(t.stores.updates, a), Row(SeqOf(t.seqs, a), u))
         == Rows(t.stores.updates, a) + [Row(SeqOf(t.seqs, a), u)]
    ensures SeqOf(t.seqs, a) > 0
    ensures Chained(t.stores.updates[a := Rows(t.stores.updates, a) + [Row(SeqOf(t.seqs, a), u)]])
  {
    assert ExactBook(Rows(t.stores.updates, a), Get(t.seqs, a), Get(t.counts, a));
    PutPastEnd(Rows(t.stores.updates, a), Row(SeqOf(t.seqs, a), u));
  }

  lemma AppendBooks(t: Transaction, a: Address, u: Update)
    requires Sound(t)
    ensures Exact(t.stores.updates[a := Rows(t.stores.updates, a) + [Row(SeqOf(t.seqs, a), u)]],
                  t.seqs[a := SeqOf(t.seqs, a) + 1], t.counts[a := CountOf(t.counts, a) + 1])
  {
    var rows := Rows(t.stores.updates, a);
    var updates := t.stores.updates[a := rows + [Row(SeqOf(t.seqs, a), u)]];
    var seqs, counts := t.seqs[a := SeqOf(t.seqs, a) + 1], t.counts[a := CountOf(t.counts, a) + 1];
    forall b: Address ensures ExactBook(Rows(updates, b), Get(seqs, b), Get(counts, b)) {
      assert ExactBook(Rows(t.stores.updates, b), Get(t.seqs, b), Get(t.counts, b));
      if b == a { BookGrows(rows, Get(t.seqs, a), Get(t.counts, a), u); }
    }
  }

  /** The transaction an append leaves, with nothing overwritten. */
  function Appending(t: Transaction, a: Address, u: Update): Transaction {
    Transaction(t.stores.(updates := t.stores.updates[a := Rows(t.stores.updates, a) + [Row(SeqOf(t.seqs, a), u)]]),
                t.seqs[a := SeqOf(t.seqs, a) + 1], t.counts[a := CountOf(t.counts, a) + 1], t.touched + {a})
  }

  lemma AppendSound(t: Transaction, a: Address, u: Update)
    requires Sound(t)
    ensures Sound(Appending(t, a, u)) && (ShortUntouched(t) ==> ShortUntouched(Appending(t, a, u)))
  {
    hide Chained, Exact, SeqOf, CountOf, AllStored, ShortUntouched, Put, Rows;
    AppendLands(t, a, u);
    AppendBooks(t, a, u);
    AppendTouches(t, a, u);
  }

  lemma AppendTouches(t: Transaction, a: Address, u: Update)
    requires AllStored(t)
    ensures AllStored(Appending(t, a, u)) && (ShortUntouched(t) ==> ShortUntouched(Appending(t, a, u)))
  {
    hide SeqOf, CountOf;
  }

  lemma AppendRefines(t: Transaction, a: Address, u: Update, id: Option<int>)
    requires Sound(t)
    ensures var t' := TxStep(t, Append(a, u, id));
            t' == Appending(t, a, u).(stores := Appending(t, a, u).stores.(outbox := t'.stores.outbox))
    ensures Abstracted(TxStep(t, Append(a, u, id)).stores) == Apply(Abstracted(t.stores), Append(a, u, id))
  {
    AppendLands(t, a, u);
    JoinedAppend(t.stores.updates, a, Row(SeqOf(t.seqs, a), u));
  }

  lemma BookGrows(rows: Relation<Update>, next: Option<int>, count: Option<int>, u: Update)
    requires ExactBook(rows, next, count)
    ensures ExactBook(rows + [Row(next.GetOr(1), u)], Some(next.GetOr(1) + 1), Some(count.GetOr(0) + 1))
  {
  }

  lemma RetireSound(t: Transaction, a: Address)
    requires Sound(t)
    ensures Sound(TxStep(t, Retire(a)))
  {
    var t' := TxStep(t, Retire(a));
    forall b: Address ensures ExactBook(Rows(t'.stores.updates, b), Get(t'.seqs, b), Get(t'.counts, b)) {
      assert ExactBook(Rows(t.stores.updates, b), Get(t.seqs, b), Get(t.counts, b));
    }
  }

  lemma JoinedAppend(updates: map<Address, Relation<Update>>, a: Address, row: Row<Update>)
    ensures Joined(updates[a := Rows(updates, a) + [row]])
         == Joined(updates)[a := (if a in Joined(updates) then Joined(updates)[a] else {}) + row.value]
  {
    JoinValues(Rows(updates, a), [row]);
    assert Values([row]) == [row.value] && JoinAll([row.value]) == row.value;
    assert Values<Update>([]) == [];
  }

  /** One operation does what the specification says, except that an identity overwrites. */
  lemma TxStepRefines(t: Transaction, op: Op)
    requires Sound(t)
    ensures Sound(TxStep(t, op)) && (ShortUntouched(t) ==> ShortUntouched(TxStep(t, op)))
    ensures Abstracted(TxStep(t, op).stores)
         == Apply(Abstracted(t.stores), op).(identity := LastStamp(t.stores.identity, op))
  {
    match op
    case Append(a, u, id) =>
      AppendRefines(t, a, u, id);
      AppendSound(t, a, u);
    case Retire(a) =>
      RetireSound(t, a);
      assert Joined(t.stores.updates - {a}) == Joined(t.stores.updates) - {a};
    case _ =>
  }

  /** One document through the batch-end fold. */
  lemma FoldOne(t: Transaction, a: Address)
    requires Sound(t)
    ensures var f := FoldSome(t, t.touched);
            var rows, rows' := Rows(t.stores.updates, a), Rows(f.stores.updates, a);
            && (rows' != [] <==> rows != [])
            && JoinAll(Values(rows')) == JoinAll(Values(rows))
            && Sorted(rows') && (forall i :: 0 <= i < |rows'| ==> rows'[i].key > 0)
            && ExactBook(rows', Get(f.seqs, a), Get(f.counts, a))
            && (a !in t.touched ==> rows' == rows)
            && (a in t.touched ==> |rows'| < SNAPSHOT_FOLD_THRESHOLD)
  {
    assert ExactBook(Rows(t.stores.updates, a), Get(t.seqs, a), Get(t.counts, a));
    var joined := JoinAll(Values(Rows(t.stores.updates, a)));
    assert Values([Row(1, joined)]) == [joined] && JoinAll([joined]) == joined;
  }

  lemma FoldJoined(t: Transaction)
    requires Sound(t)
    ensures Joined(FoldSome(t, t.touched).stores.updates) == Joined(t.stores.updates)
  {
    var updates, folded := t.stores.updates, FoldSome(t, t.touched).stores.updates;
    forall a | a in updates
      ensures (folded[a] != [] <==> updates[a] != []) && JoinAll(Values(folded[a])) == JoinAll(Values(updates[a]))
    {
      FoldOne(t, a);
    }
  }

  /** The batch-end fold changes no document and leaves the books exact and every chain short. */
  lemma FoldRefines(t: Transaction)
    requires Sound(t)
    ensures var f := FoldSome(t, t.touched);
            && Chained(f.stores.updates) && Exact(f.stores.updates, f.seqs, f.counts)
            && Abstracted(f.stores) == Abstracted(t.stores)
            && (ShortUntouched(t) ==> Short(f.stores.updates))
  {
    var f := FoldSome(t, t.touched);
    FoldJoined(t);
    forall a: Address ensures ExactBook(Rows(f.stores.updates, a), Get(f.seqs, a), Get(f.counts, a)) {
      FoldOne(t, a);
    }
    forall a | a in f.stores.updates
      ensures Sorted(f.stores.updates[a])
      ensures forall i :: 0 <= i < |f.stores.updates[a]| ==> f.stores.updates[a][i].key > 0
    {
      FoldOne(t, a);
      assert Rows(f.stores.updates, a) == f.stores.updates[a];
    }
    if ShortUntouched(t) {
      forall a: Address ensures |Rows(f.stores.updates, a)| < SNAPSHOT_FOLD_THRESHOLD {
        FoldOne(t, a);
      }
    }
  }

  function FoldStamp(i: Option<string>, ops: seq<Op>, stamp: (Option<string>, Op) -> Option<string>): Option<string> {
    if ops == [] then i else stamp(FoldStamp(i, ops[..|ops| - 1], stamp), ops[|ops| - 1])
  }

  /** Identity, as IndexedDB leaves it: the last one stamped wins. */
  function LastWins(i: Option<string>, ops: seq<Op>): Option<string> { FoldStamp(i, ops, LastStamp) }

  lemma TouchedBooked(t: Transaction)
    requires Sound(t)
    ensures t.touched <= t.stores.updates.Keys && t.touched <= t.seqs.Keys && t.touched <= t.counts.Keys
  {
    forall a | a in t.touched ensures a in t.stores.updates && a in t.seqs && a in t.counts {
      assert ExactBook(Rows(t.stores.updates, a), Get(t.seqs, a), Get(t.counts, a));
    }
  }

  lemma IdentityAside(f: Durable, i: Option<string>, op: Op, j: Option<string>)
    ensures Apply(f.(identity := i), op).(identity := j) == Apply(f, op).(identity := j)
  {
  }

  lemma {:induction false} StepAllRefines(t: Transaction, ops: seq<Op>)
    requires Sound(t)
    ensures Sound(StepAll(t, ops)) && (ShortUntouched(t) ==> ShortUntouched(StepAll(t, ops)))
    ensures Abstracted(StepAll(t, ops).stores)
         == ApplyAll(Abstracted(t.stores), ops).(identity := LastWins(t.stores.identity, ops))
  {
    hide Sound, ShortUntouched, TxStep, Apply;
    if ops != [] {
      IdentityAside(ApplyAll(Abstracted(t.stores), ops[..|ops| - 1]),
                    LastWins(t.stores.identity, ops[..|ops| - 1]), ops[|ops| - 1], LastWins(t.stores.identity, ops));
      StepAllRefines(t, ops[..|ops| - 1]);
      TxStepRefines(StepAll(t, ops[..|ops| - 1]), ops[|ops| - 1]);
    }
  }

  /** A committed batch leaves the specified facts (identity apart, see `IdentityAgrees`), exact books and
      short chains. In particular no append of the batch overwrote a stored update. */
  lemma BatchRefines(s: Stores, seqs: map<Address, int>, counts: map<Address, int>, ops: seq<Op>)
    requires Chained(s.updates) && Exact(s.updates, seqs, counts)
    ensures var t := Batch(s, seqs, counts, ops);
            && Chained(t.stores.updates) && Exact(t.stores.updates, t.seqs, t.counts)
            && (Short(s.updates) ==> Short(t.stores.updates))
            && Abstracted(t.stores) == ApplyAll(Abstracted(s), ops).(identity := LastWins(s.identity, ops))
  {
    var t := Transaction(s, seqs, counts, {});
    StepAllRefines(t, ops);
    FoldRefines(StepAll(t, ops));
  }

  /** The identities an operation list stamps, in order. */
  function Stamps(ops: seq<Op>): seq<string> {
    if ops == [] then [] else
      Stamps(ops[..|ops| - 1]) + (if ops[|ops| - 1].Identity? then [ops[|ops| - 1].id] else [])
  }

  lemma {:induction false} StampsDecide(f: Durable, ops: seq<Op>)
    ensures var st := Stamps(ops);
            && LastWins(f.identity, ops) == (if st == [] then f.identity else Some(st[|st| - 1]))
            && ApplyAll(f, ops).identity
               == (if f.identity.Some? then f.identity else if st == [] then None else Some(st[0]))
  {
    if ops != [] {
      StampsDecide(f, ops[..|ops| - 1]);
    }
  }

  /** Exactly when overwriting and ignoring a second identity come to the same: nothing was stamped, or
      the last stamp repeats the identity already held (or the first one of the batch). */
  lemma IdentityAgrees(f: Durable, ops: seq<Op>)
    ensures var st := Stamps(ops);
            LastWins(f.identity, ops) == ApplyAll(f, ops).identity
            <==> st == [] || st[|st| - 1] == (if f.identity.Some? then f.identity.value else st[0])
  {
    StampsDecide(f, ops);
  }

  lemma {:induction false} ReadyIdentity(f: Durable, ops: seq<Op>)
    requires ReadyAll(f, ops)
    ensures LastWins(f.identity, ops) == ApplyAll(f, ops).identity
  {
    if ops != [] {
      ReadyFront(f, ops);
      ReadyIdentity(f, ops[..|ops| - 1]);
    }
  }

  lemma OutboxLeft(t: Transaction, op: Op)
    ensures forall r :: r in TxStep(t, op).stores.outbox <==> Leaves(t.stores.outbox, op, r)
  {
    forall r ensures r in TxStep(t, op).stores.outbox <==> Leaves(t.stores.outbox, op, r) {
      OutboxExactly(Abstracted(t.stores), op, r);
      assert TxStep(t, op).stores.outbox == Apply(Abstracted(t.stores), op).outbox;
    }
  }

  // ---------------------------------------------------------------- the engine as it runs

  class IdbBacking {
    var stores: Stores
    var nextSeq: map<Address, int>
    var updateCount: map<Address, int>

    ghost predicate Valid()
      reads this
    {
      Chained(stores.updates) && Exact(stores.updates, nextSeq, updateCount)
    }

    /** Opening: the books are counted from the stored keys, document by document. */
    constructor (found: Stores)
      requires Chained(found.updates)
      ensures Valid() && stores == found
    {
      stores, nextSeq, updateCount := found, map[], map[];
      new;
      var todo := found.updates.Keys;
      while todo != {}
        invariant stores == found && todo <= found.updates.Keys
        invariant forall a: Address {:trigger Get(nextSeq, a)} {:trigger Get(updateCount, a)} ::
                    ExactBook(if a in todo then [] else Rows(found.updates, a), Get(nextSeq, a), Get(updateCount, a))
      {
        var a :| a in todo;
        assert ExactBook([], Get(nextSeq, a), Get(updateCount, a));
        ghost var seqs, counts := nextSeq, updateCount;
        CountChain(a, found.updates[a]);
        todo := todo - {a};
        forall b: Address
          ensures ExactBook(if b in todo then [] else Rows(found.updates, b), Get(nextSeq, b), Get(updateCount, b))
        {
          assert b != a ==> ExactBook(if b in todo then [] else Rows(found.updates, b), Get(seqs, b), Get(counts, b));
        }
      }
      forall a: Address ensures ExactBook(Rows(found.updates, a), Get(nextSeq, a), Get(updateCount, a)) {}
    }

    /** The load loop over one document's keys. */
    method CountChain(a: Address, rows: Relation<Update>)
      requires Sorted(rows) && a !in nextSeq && a !in updateCount
      modifies this`nextSeq, this`updateCount
      ensures ExactBook(rows, Get(nextSeq, a), Get(updateCount, a))
      ensures forall b :: b != a ==> Get(nextSeq, b) == Get(old(nextSeq), b)
      ensures forall b :: b != a ==> Get(updateCount, b) == Get(old(updateCount), b)
    {
      for i := 0 to |rows|
        invariant ExactBook(rows[..i], Get(nextSeq, a), Get(updateCount, a))
        invariant forall b :: b != a ==> Get(nextSeq, b) == Get(old(nextSeq), b)
        invariant forall b :: b != a ==> Get(updateCount, b) == Get(old(updateCount), b)
      {
        var seen := SeqOf(nextSeq, a);
        nextSeq := nextSeq[a := if rows[i].key + 1 > seen then rows[i].key + 1 else seen];
        updateCount := updateCount[a := CountOf(updateCount, a) + 1];
      }
      assert rows[..|rows|] == rows;
    }

    method ReadDocument(document: Address) returns (chain: seq<Update>)
      requires Chained(stores.updates)
      ensures JoinAll(chain) == Content(Abstracted(stores), document)
      ensures chain != [] <==> document in Abstracted(stores).content
    {
      chain := Values(Rows(stores.updates, document));
    }

    /** The fold loop at the end of a batch, over the documents the batch touched. */
    static method FoldTouched(t: Transaction) returns (out: Transaction)
      requires t.touched <= t.stores.updates.Keys && t.touched <= t.seqs.Keys && t.touched <= t.counts.Keys
      ensures out == FoldSome(t, t.touched)
    {
      out := t;
      var todo := t.touched;
      NothingFolded(t);
      while todo != {}
        invariant todo <= t.touched
        invariant out == FoldSome(t, t.touched - todo)
      {
        var a :| a in todo;
        ghost var done := t.touched - todo;
        todo := todo - {a};
        assert t.touched - todo == done + {a};
        FoldNext(t, done, a);
        if CountOf(out.counts, a) >= SNAPSHOT_FOLD_THRESHOLD {
          var baseline := SqliteStore.Replay(Rows(out.stores.updates, a));
          out := FoldedAt(out, a, baseline);
        }
      }
      assert t.touched - {} == t.touched;
    }

    /** The cursor walk of `replaceOutbox`: entries up to `through` are visited, the document's own deleted. */
    static method WalkCovered(outbox: Relation<Owed>, document: Address, through: int) returns (kept: Relation<Owed>)
      ensures kept == WithoutCovered(outbox, document, through)
      ensures forall r :: r in kept <==> r in outbox && (r.value.document != document || r.key > through)
    {
      kept := [];
      for i := 0 to |outbox|
        invariant kept == WithoutCovered(outbox[..i], document, through)
      {
        assert outbox[..i + 1][..i] == outbox[..i];
        if outbox[i].key > through || outbox[i].value.document != document { kept := kept + [outbox[i]]; }
      }
      assert outbox[..|outbox|] == outbox;
      forall r ensures r in kept <==> r in outbox && (r.value.document != document || r.key > through) {
        CoveredMember(outbox, document, through, r);
      }
    }

    /** The cursor walk of `retire`, over the whole outbox. */
    static method WalkDocument(outbox: Relation<Owed>, document: Address) returns (kept: Relation<Owed>)
      ensures kept == WithoutDocument(outbox, document)
      ensures forall r :: r in kept <==> r in outbox && r.value.document != document
    {
      kept := [];
      for i := 0 to |outbox|
        invariant kept == WithoutDocument(outbox[..i], document)
      {
        assert outbox[..i + 1][..i] == outbox[..i];
        if outbox[i].value.document != document { kept := kept + [outbox[i]]; }
      }
      assert outbox[..|outbox|] == outbox;
      forall r ensures r in kept <==> r in outbox && r.value.document != document {
        DocumentMember(outbox, document, r);
      }
    }

    static method RunAppend(t: Transaction, document: Address, bytes: Update, outboxId: Option<int>)
        returns (next: Transaction)
      ensures next == TxStep(t, Append(document, bytes, outboxId))
    {
      var seq_ := SeqOf(t.seqs, document);
      var updates := t.stores.updates[document := Put(Rows(t.stores.updates, document), Row(seq_, bytes))];
      var seqs := t.seqs[document := seq_ + 1];
      var counts := t.counts[document := CountOf(t.counts, document) + 1];
      var outbox := t.stores.outbox;
      if outboxId.Some? { outbox := Put(outbox, Row(outboxId.value, Owed(document, bytes))); }
      next := Transaction(t.stores.(updates := updates, outbox := outbox), seqs, counts, t.touched + {document});
    }

    static method RunRetire(t: Transaction, document: Address) returns (next: Transaction)
      ensures next == TxStep(t, Retire(document))
    {
      var outbox := WalkDocument(t.stores.outbox, document);
      var stores := t.stores.(updates := t.stores.updates - {document}, outbox := outbox,
                              tombstones := t.stores.tombstones + {document});
      next := Transaction(stores, t.seqs - {document}, t.counts - {document}, t.touched - {document});
    }

    /** One operation, written into the transaction's stores and working books. */
    static method RunOne(t: Transaction, op: Op) returns (next: Transaction)
      ensures next == TxStep(t, op)
      ensures forall r :: r in next.stores.outbox <==> Leaves(t.stores.outbox, op, r)
    {
      OutboxLeft(t, op);
      match op {
        case Append(document, bytes, outboxId) => next := RunAppend(t, document, bytes, outboxId);
        case Cursor(n) => next := t.(stores := t.stores.(cursor := Some(n)));
        case Identity(id) => next := t.(stores := t.stores.(identity := Some(id)));
        case DropOutbox(throughId) => next := t.(stores := t.stores.(outbox := Over(t.stores.outbox, throughId)));
        case ReplaceOutbox(document, throughId, merged) =>
          var kept := WalkCovered(t.stores.outbox, document, throughId);
          next := t.(stores := t.stores.(outbox := Put(kept, Row(throughId, Owed(document, merged)))));
        case Retire(document) => next := RunRetire(t, document);
      }
    }

    /** The operations of a batch, in order, on the transaction's stores and working books. */
    static method RunOps(start: Transaction, ops: seq<Op>) returns (t: Transaction)
      requires Sound(start)
      ensures t == StepAll(start, ops)
      ensures t.touched <= t.stores.updates.Keys && t.touched <= t.seqs.Keys && t.touched <= t.counts.Keys
    {
      t := start;
      for i := 0 to |ops|
        invariant t == StepAll(start, ops[..i])
      {
        assert ops[..i + 1][..i] == ops[..i];
        t := RunOne(t, ops[i]);
      }
      assert ops[..|ops|] == ops;
      StepAllRefines(start, ops);
      TouchedBooked(t);
    }

    /** One batch. `aborts` is the transaction failing at any point: nothing it wrote stays, and the books
        are published only past `await transaction.done`. */
    method CommitBatch(ops: seq<Op>, aborts: bool) returns (ok: bool)
      requires Valid()
      modifies this
      ensures Valid() && ok == !aborts
      ensures var t := Batch(old(stores), old(nextSeq), old(updateCount), ops);
              if ok then stores == t.stores && nextSeq == t.seqs && updateCount == t.counts
              else stores == old(stores) && nextSeq == old(nextSeq) && updateCount == old(updateCount)
    {
      var t := RunOps(Transaction(stores, nextSeq, updateCount, {}), ops);
      BatchRefines(stores, nextSeq, updateCount, ops);
      t := FoldTouched(t);
      ok := !aborts;
      if aborts { return; }
      Publish(t);
    }

    method Publish(t: Transaction)
      modifies this
      ensures stores == t.stores && nextSeq == t.seqs && updateCount == t.counts
    {
      stores := t.stores;
      nextSeq := nextSeq + t.seqs;
      nextSeq := nextSeq - (nextSeq.Keys - t.seqs.Keys);
      updateCount := updateCount + t.counts;
      updateCount := updateCount - (updateCount.Keys - t.counts.Keys);
      assert nextSeq == t.seqs && updateCount == t.counts;
    }
  }
}
