/** The two engines implement one specification. */
module Engines {
  import opened Relations
  import opened Updates
  import opened Facts
  import S = SqliteLog
  import I = IndexedDb
  import opened Wrappers

  /** A browser engine between commits: its stores and its books. */
  datatype Browser = Browser(stores: I.Stores, seqs: map<Address, int>, counts: map<Address, int>) {
    ghost predicate Valid() { S.Chained(stores.updates) && I.Exact(stores.updates, seqs, counts) }

    function Commit(ops: seq<Op>): Browser {
      var t := I.Batch(stores, seqs, counts, ops);
      Browser(t.stores, t.seqs, t.counts)
    }
  }

  /** One call of `commit`: its batch, and whether its transaction aborts. */
  datatype Call = Call(ops: seq<Op>, aborts: bool)

  function RunBrowser(b: Browser, calls: seq<Call>): Browser {
    if calls == [] then b else
      var r, last := RunBrowser(b, calls[..|calls| - 1]), calls[|calls| - 1];
      if last.aborts then r else r.Commit(last.ops)
  }

  /** A batch SQLite refuses leaves its tables as they were. */
  function AfterCommit(t: S.Tables, ops: seq<Op>): S.Tables {
    var c := S.Commit(t, ops);
    if c.None? then t else c.value
  }

  function RunSqlite(t: S.Tables, calls: seq<Call>): S.Tables {
    if calls == [] then t else
      var r, last := RunSqlite(t, calls[..|calls| - 1]), calls[|calls| - 1];
      if last.aborts then r else AfterCommit(r, last.ops)
  }

  /** The operations of the calls that did not abort. */
  function Landed(calls: seq<Call>): seq<Op> {
    if calls == [] then [] else
      var last := calls[|calls| - 1];
      Landed(calls[..|calls| - 1]) + (if last.aborts then [] else last.ops)
  }

  /** Over every run of successful and failed commits the browser's books stay exact, so no append ever
      overwrites a stored update, and chains stay below the threshold between commits. */
  lemma {:induction false} BooksStayExact(b: Browser, calls: seq<Call>)
    requires b.Valid()
    ensures RunBrowser(b, calls).Valid()
    ensures I.Short(b.stores.updates) ==> I.Short(RunBrowser(b, calls).stores.updates)
  {
    if calls != [] {
      BooksStayExact(b, calls[..|calls| - 1]);
      var r := RunBrowser(b, calls[..|calls| - 1]);
      I.BatchRefines(r.stores, r.seqs, r.counts, calls[|calls| - 1].ops);
    }
  }

  // ---------------------------------------------------------------- when exactly the engines agree

  /** The same per-document joins, outbox, cursor, identity and tombstones. */
  ghost predicate Related(t: S.Tables, b: Browser) { S.Abstract(t) == I.Abstracted(b.stores) }

  /** The facts a browser engine over `f` ends with: it refuses nothing, and the last stamp wins. */
  function BrowserFacts(f: Durable, ops: seq<Op>): Durable {
    ApplyAll(f, ops).(identity := I.LastWins(f.identity, ops))
  }

  /** Over the facts `f` the batch parts nothing: if SQLite takes it, nothing is stamped or the last stamp repeats
      the identity in force; if SQLite refuses it, it comes to nothing in the browser. */
  ghost predicate Alike(f: Durable, ops: seq<Op>) {
    var st := I.Stamps(ops);
    if S.Admitted(f, ops) then st == [] || st[|st| - 1] == (if f.identity.Some? then f.identity.value else st[0])
    else BrowserFacts(f, ops) == f
  }

  /** After any batch, taken or refused, related engines are related again exactly when it is alike. */
  lemma AgreeExactly(t: S.Tables, b: Browser, ops: seq<Op>)
    requires S.Chained(t.updates) && b.Valid() && Related(t, b)
    ensures Related(AfterCommit(t, ops), b.Commit(ops)) <==> Alike(S.Abstract(t), ops)
  {
    S.CommitRefines(t, ops);
    I.BatchRefines(b.stores, b.seqs, b.counts, ops);
    I.IdentityAgrees(S.Abstract(t), ops);
  }

  /** The facts after every call: what SQLite admits is applied. */
  ghost function Kept(f: Durable, calls: seq<Call>): Durable {
    if calls == [] then f else
      var r, last := Kept(f, calls[..|calls| - 1]), calls[|calls| - 1];
      if last.aborts || !S.Admitted(r, last.ops) then r else ApplyAll(r, last.ops)
  }

  lemma {:induction false} SqliteKeeps(t: S.Tables, calls: seq<Call>)
    requires S.Chained(t.updates)
    ensures S.Chained(RunSqlite(t, calls).updates) && S.Abstract(RunSqlite(t, calls)) == Kept(S.Abstract(t), calls)
  {
    if calls != [] {
      SqliteKeeps(t, calls[..|calls| - 1]);
      S.CommitRefines(RunSqlite(t, calls[..|calls| - 1]), calls[|calls| - 1].ops);
    }
  }

  /** Related now and after each call before. */
  ghost predicate Together(t: S.Tables, b: Browser, calls: seq<Call>) {
    && Related(RunSqlite(t, calls), RunBrowser(b, calls))
    && (calls != [] ==> Together(t, b, calls[..|calls| - 1]))
  }

  ghost predicate AllAlike(f: Durable, calls: seq<Call>) {
    calls == [] ||
    (AllAlike(f, calls[..|calls| - 1]) &&
     (calls[|calls| - 1].aborts || Alike(Kept(f, calls[..|calls| - 1]), calls[|calls| - 1].ops)))
  }

  /** From related states the engines stay together through a run of commits exactly when every batch that does
      not abort is alike over the facts it finds; they then hold what the admitted batches make, although one folds
      on every append and the other once per batch. */
  lemma {:induction false} EnginesAgree(t: S.Tables, b: Browser, calls: seq<Call>)
    requires S.Chained(t.updates) && b.Valid() && Related(t, b)
    ensures Together(t, b, calls) <==> AllAlike(S.Abstract(t), calls)
    ensures S.Abstract(RunSqlite(t, calls)) == Kept(S.Abstract(t), calls)
    ensures Together(t, b, calls) ==> I.Abstracted(RunBrowser(b, calls).stores) == Kept(S.Abstract(t), calls)
  {
    hide Alike, AfterCommit;
    SqliteKeeps(t, calls);
    if calls != [] {
      var front := calls[..|calls| - 1];
      EnginesAgree(t, b, front);
      SqliteKeeps(t, front);
      BooksStayExact(b, front);
      if Together(t, b, front) {
        AgreeExactly(RunSqlite(t, front), RunBrowser(b, front), calls[|calls| - 1].ops);
      }
    }
  }

  lemma ReadySplit(f: Durable, a: seq<Op>, b: seq<Op>)
    requires ReadyAll(f, a + b)
    ensures ReadyAll(f, a) && ReadyAll(ApplyAll(f, a), b)
  {
    forall i | 0 <= i < |a| ensures Ready(ApplyAll(f, a[..i]), a[i]) {
      assert (a + b)[..i] == a[..i] && (a + b)[i] == a[i];
    }
    forall i | 0 <= i < |b| ensures Ready(ApplyAll(ApplyAll(f, a), b[..i]), b[i]) {
      assert (a + b)[..|a| + i] == a + b[..i] && (a + b)[|a| + i] == b[i];
      ApplyConcat(f, a, b[..i]);
    }
  }

  lemma {:induction false} ReadyAdmitted(f: Durable, ops: seq<Op>)
    requires ReadyAll(f, ops)
    ensures S.Admitted(f, ops)
  {
    if ops != [] {
      ReadyFront(f, ops);
      ReadyAdmitted(f, ops[..|ops| - 1]);
    }
  }

  /** The operations the store's verbs produce are alike in every run, and all of them are kept. */
  lemma {:induction false} ReadyIsAlike(f: Durable, calls: seq<Call>)
    requires ReadyAll(f, Landed(calls))
    ensures AllAlike(f, calls) && Kept(f, calls) == ApplyAll(f, Landed(calls))
  {
    hide ReadyAll, Ready, Apply;
    if calls != [] {
      var front, last := calls[..|calls| - 1], calls[|calls| - 1];
      ReadySplit(f, Landed(front), if last.aborts then [] else last.ops);
      ReadyIsAlike(f, front);
      ApplyConcat(f, Landed(front), if last.aborts then [] else last.ops);
      if !last.aborts {
        var g := ApplyAll(f, Landed(front));
        ReadyAdmitted(g, last.ops);
        I.ReadyIdentity(g, last.ops);
        I.IdentityAgrees(g, last.ops);
      }
    }
  }

  /** Two stamps in one batch do part them: SQLite keeps the first, the browser the last. */
  lemma SecondStampParts()
    ensures var ops := [Identity("a"), Identity("b")];
            var t := S.Tables(map[], [], map[], map[], {});
            var b := Browser(I.Stores(map[], [], {}, None, None), map[], map[]);
            && S.Abstract(t) == I.Abstracted(b.stores) && S.Commit(t, ops).Some?
            && S.Abstract(S.Commit(t, ops).value).identity == Some("a")
            && I.Abstracted(b.Commit(ops).stores).identity == Some("b")
  {
    var ops := [Identity("a"), Identity("b")];
    var t := S.Tables(map[], [], map[], map[], {});
    var b := Browser(I.Stores(map[], [], {}, None, None), map[], map[]);
    assert ops[..1] == [Identity("a")] && ops[..1][..0] == [];
    assert S.Commit(t, ops[..1]) == S.Step(t, Identity("a"));
    S.CommitRefines(t, ops);
    I.BatchRefines(b.stores, b.seqs, b.counts, ops);
    assert I.LastWins(None, ops) == Some("b");
  }

  /** So does a batch only SQLite refuses, although nothing is stamped: a negative cursor. */
  lemma NegativeCursorParts()
    ensures
      var ops := [Cursor(-1)];
      var t := S.Tables(map[], [], map[], map[], {});
      var b := Browser(I.Stores(map[], [], {}, None, None), map[], map[]);
      && Related(t, b) && I.Stamps(ops) == [] && S.Commit(t, ops) == None
      && S.Abstract(t).cursor == 0 && I.Abstracted(b.Commit(ops).stores).cursor == -1
  {
    var ops := [Cursor(-1)];
    var b := Browser(I.Stores(map[], [], {}, None, None), map[], map[]);
    assert ops[..0] == [];
    I.BatchRefines(b.stores, b.seqs, b.counts, ops);
  }
}
