/** CRDT bytes. An update is the finite set of items (structs and deletions, each with its own
    identity) that it carries; applying it to a document is set union. This is the free
    join-semilattice over items, and `AnyLattice` carries every equality proved about it to any
    other semilattice in which the items are interpreted. */
module Updates {
  datatype Item = Item(client: nat, clock: nat)

  type Update = set<Item>

  /** The document a chain replays to, oldest update first. */
  function JoinAll(chain: seq<Update>): Update {
    if chain == [] then {} else JoinAll(chain[..|chain| - 1]) + chain[|chain| - 1]
  }

  lemma {:induction false} JoinConcat(a: seq<Update>, b: seq<Update>)
    ensures JoinAll(a + b) == JoinAll(a) + JoinAll(b)
  {
    if b == [] {
      assert a + b == a;
    } else {
      JoinConcat(a, b[..|b| - 1]);
      assert (a + b)[..|a + b| - 1] == a + b[..|b| - 1];
    }
  }

  /** A bounded join-semilattice: the only thing assumed of a CRDT's states. */
  datatype Semilattice<!T(!new)> = Semilattice(bottom: T, join: (T, T) -> T) {
    ghost predicate Associates(x: T, y: T, z: T) { join(join(x, y), z) == join(x, join(y, z)) }
    ghost predicate Commutes(x: T, y: T) { join(x, y) == join(y, x) }
    ghost predicate Idempotent(x: T) { join(x, x) == x && join(x, bottom) == x }

    ghost predicate Lawful() {
      && (forall x, y, z :: Associates(x, y, z))
      && (forall x, y :: Commutes(x, y))
      && (forall x :: Idempotent(x))
    }
  }

  /** What an update means in `l`, given what each item means there. */
  ghost function Eval<T(!new)>(l: Semilattice<T>, item: Item -> T, u: Update): T {
    if u == {} then l.bottom else
      var x :| x in u;
      l.join(item(x), Eval(l, item, u - {x}))
  }

  /** Replay in `l`: start from the empty document and apply each update in turn. */
  ghost function Replay<T(!new)>(l: Semilattice<T>, chain: seq<T>): T {
    if chain == [] then l.bottom else l.join(Replay(l, chain[..|chain| - 1]), chain[|chain| - 1])
  }

  lemma {:induction false} EvalPick<T(!new)>(l: Semilattice<T>, item: Item -> T, u: Update, x: Item)
    requires l.Lawful() && x in u
    ensures Eval(l, item, u) == l.join(item(x), Eval(l, item, u - {x}))
    decreases |u|
  {
    var y :| y in u && Eval(l, item, u) == l.join(item(y), Eval(l, item, u - {y}));
    if x != y {
      EvalPick(l, item, u - {y}, x);
      EvalPick(l, item, u - {x}, y);
      assert u - {y} - {x} == u - {x} - {y};
      var r := Eval(l, item, u - {x} - {y});
      assert l.Associates(item(y), item(x), r) && l.Associates(item(x), item(y), r) && l.Commutes(item(x), item(y));
    }
  }

  /** Adding an item joins its meaning in, whether or not it was there. */
  lemma EvalInsert<T(!new)>(l: Semilattice<T>, item: Item -> T, u: Update, x: Item)
    requires l.Lawful()
    ensures Eval(l, item, u + {x}) == l.join(item(x), Eval(l, item, u))
  {
    EvalPick(l, item, u + {x}, x);
    if x in u {
      assert u + {x} == u;
      EvalPick(l, item, u, x);
      assert l.Associates(item(x), item(x), Eval(l, item, u - {x})) && l.Idempotent(item(x));
    } else {
      assert u + {x} - {x} == u;
    }
  }

  lemma {:induction false} EvalJoin<T(!new)>(l: Semilattice<T>, item: Item -> T, u: Update, v: Update)
    requires l.Lawful()
    ensures Eval(l, item, u + v) == l.join(Eval(l, item, u), Eval(l, item, v))
    decreases |u|
  {
    var ev := Eval(l, item, v);
    if u == {} {
      assert u + v == v;
      assert l.Commutes(l.bottom, ev) && l.Idempotent(ev);
    } else {
      var x :| x in u;
      EvalPick(l, item, u, x);
      EvalJoin(l, item, u - {x}, v);
      EvalInsert(l, item, u - {x} + v, x);
      assert u + v == u - {x} + v + {x};
      assert l.Associates(item(x), Eval(l, item, u - {x}), ev);
    }
  }

  /** Replaying a chain in any semilattice gives the meaning of `JoinAll`. So whenever two chains
      (a stored one and its fold, say) have the same `JoinAll`, they replay alike everywhere. */
  lemma {:induction false} AnyLattice<T(!new)>(l: Semilattice<T>, item: Item -> T, chain: seq<Update>)
    requires l.Lawful()
    ensures Replay(l, seq(|chain|, i requires 0 <= i < |chain| => Eval(l, item, chain[i])))
         == Eval(l, item, JoinAll(chain))
  {
    if chain != [] {
      var front := chain[..|chain| - 1];
      AnyLattice(l, item, front);
      var image := seq(|chain|, i requires 0 <= i < |chain| => Eval(l, item, chain[i]));
      assert image[..|chain| - 1] == seq(|front|, i requires 0 <= i < |front| => Eval(l, item, front[i]));
      EvalJoin(l, item, JoinAll(front), chain[|chain| - 1]);
    }
  }
}
