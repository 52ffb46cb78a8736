/** A stored relation with an integer primary key, read in key order: a SQLite table `WITHOUT ROWID`
    and an IndexedDB object store are both one of these. */
module Relations {
  datatype Row<+V> = Row(key: int, value: V)

  type Relation<V> = seq<Row<V>>

  ghost predicate Sorted<V>(s: Relation<V>) {
    forall i, j :: 0 <= i < j < |s| ==> s[i].key < s[j].key
  }

  function Filter<V>(s: Relation<V>, keep: Row<V> -> bool): Relation<V> {
    if s == [] then []
    else Filter(s[..|s| - 1], keep) + (if keep(s[|s| - 1]) then [s[|s| - 1]] else [])
  }

  function Under<V>(s: Relation<V>, key: int): Relation<V> { Filter(s, (r: Row<V>) => r.key < key) }

  function Over<V>(s: Relation<V>, key: int): Relation<V> { Filter(s, (r: Row<V>) => r.key > key) }

  predicate HasKey<V>(s: Relation<V>, key: int) { exists i :: 0 <= i < |s| && s[i].key == key }

  /** Store a row under its key, replacing whatever held that key. */
  function Put<V>(s: Relation<V>, row: Row<V>): Relation<V> { Under(s, row.key) + [row] + Over(s, row.key) }

  /** SQL's `COALESCE(MAX(key), 0)`. */
  function MaxKey<V>(s: Relation<V>): int {
    if s == [] then 0 else if |s| == 1 then s[0].key
    else var m := MaxKey(s[..|s| - 1]); if s[|s| - 1].key > m then s[|s| - 1].key else m
  }

  function Values<V>(s: Relation<V>): seq<V> { seq(|s|, i requires 0 <= i < |s| => s[i].value) }

  lemma {:induction false} FilterMember<V>(s: Relation<V>, keep: Row<V> -> bool, r: Row<V>)
    ensures r in Filter(s, keep) <==> r in s && keep(r)
  {
    if s != [] {
      FilterMember(s[..|s| - 1], keep, r);
      assert s == s[..|s| - 1] + [s[|s| - 1]];
    }
  }

  lemma {:induction false} FilterSorted<V>(s: Relation<V>, keep: Row<V> -> bool)
    requires Sorted(s)
    ensures Sorted(Filter(s, keep))
  {
    if s != [] {
      var front := s[..|s| - 1];
      FilterSorted(front, keep);
      var kept := Filter(front, keep);
      forall i | 0 <= i < |kept| ensures kept[i].key < s[|s| - 1].key {
        FilterMember(front, keep, kept[i]);
        var j :| 0 <= j < |front| && front[j] == kept[i];
      }
    }
  }

  lemma {:induction false} FilterKeepsAll<V>(s: Relation<V>, keep: Row<V> -> bool)
    requires forall i :: 0 <= i < |s| ==> keep(s[i])
    ensures Filter(s, keep) == s
  {
    if s != [] {
      FilterKeepsAll(s[..|s| - 1], keep);
    }
  }

  lemma {:induction false} FilterKeepsNone<V>(s: Relation<V>, keep: Row<V> -> bool)
    requires forall i :: 0 <= i < |s| ==> !keep(s[i])
    ensures Filter(s, keep) == []
  {
    if s != [] {
      FilterKeepsNone(s[..|s| - 1], keep);
    }
  }

  lemma {:induction false} FilterConcat<V>(a: Relation<V>, b: Relation<V>, keep: Row<V> -> bool)
    ensures Filter(a + b, keep) == Filter(a, keep) + Filter(b, keep)
  {
    if b == [] {
      assert a + b == a;
    } else {
      FilterConcat(a, b[..|b| - 1], keep);
      assert (a + b)[..|a + b| - 1] == a + b[..|b| - 1];
    }
  }

  lemma PutMember<V>(s: Relation<V>, row: Row<V>, r: Row<V>)
    ensures r in Put(s, row) <==> r == row || (r in s && r.key != row.key)
  {
    FilterMember(s, (r: Row<V>) => r.key < row.key, r);
    FilterMember(s, (r: Row<V>) => r.key > row.key, r);
  }

  lemma PutSorted<V>(s: Relation<V>, row: Row<V>)
    requires Sorted(s)
    ensures Sorted(Put(s, row))
  {
    var less, more := (r: Row<V>) => r.key < row.key, (r: Row<V>) => r.key > row.key;
    FilterSorted(s, less);
    FilterSorted(s, more);
    forall i | 0 <= i < |Under(s, row.key)| ensures Under(s, row.key)[i].key < row.key {
      FilterMember(s, less, Under(s, row.key)[i]);
    }
    forall i | 0 <= i < |Over(s, row.key)| ensures Over(s, row.key)[i].key > row.key {
      FilterMember(s, more, Over(s, row.key)[i]);
    }
  }

  /** A key past every stored one appends: nothing is overwritten. */
  lemma PutPastEnd<V>(s: Relation<V>, row: Row<V>)
    requires forall i :: 0 <= i < |s| ==> s[i].key < row.key
    ensures Put(s, row) == s + [row]
  {
    FilterKeepsAll(s, (r: Row<V>) => r.key < row.key);
    FilterKeepsNone(s, (r: Row<V>) => r.key > row.key);
  }

  lemma {:induction false} MaxKeyBounds<V>(s: Relation<V>, i: nat)
    requires i < |s|
    ensures s[i].key <= MaxKey(s)
  {
    if |s| > 1 && i < |s| - 1 {
      MaxKeyBounds(s[..|s| - 1], i);
    }
  }

  lemma {:induction false} MaxKeyIsLast<V>(s: Relation<V>)
    requires Sorted(s)
    ensures s != [] ==> MaxKey(s) == s[|s| - 1].key
  {
    if |s| > 1 {
      MaxKeyIsLast(s[..|s| - 1]);
    }
  }
}
