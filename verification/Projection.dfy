/** The SQL projection: an in-memory database the caller hands over, brought up to the declaration and refilled from
    the live data before a query runs over it, whenever anything was committed since the last refill. */
module Projection {
  import opened Canonical
  import JsonReader
  import opened Utf16
  import opened Wrappers

  // ---------------------------------------------------------------- values

  /** A JSON value, as the live document holds it. */
  type jsonvalue = v: Json | Plain(v) witness Json.Null

  type Payload = map<string, jsonvalue>

  datatype SqlValue = SqlNull | SqlText(s: text) | SqlNumber(n: Number)

  const ONE: numeral := [0x31]

  function ValueAt(payload: Payload, name: string): jsonvalue { if name in payload then payload[name] else Json.Null }

  function ProjectValue(v: jsonvalue): SqlValue {
    match v
    case Null => SqlNull
    case Str(s) => SqlText(s)
    case Num(n) => SqlNumber(n)
    case Bool(b) => SqlNumber(Finite(if b then ONE else ZERO))
    case _ => SqlText(Render(v))
  }

  /** An array or object is bound as text that reads back as itself, so SQL's JSON functions see the value. */
  lemma CompoundReadsBack(v: jsonvalue)
    requires v.Arr? || v.Obj?
    ensures ProjectValue(v).SqlText? && ProjectValue(v).s == Render(v)
    ensures JsonReader.Parse(Render(v)) == Some(v)
  {
    JsonReader.RenderReads(v, []);
    assert Render(v) + [] == Render(v);
  }

  const STORED_TRUE: numeral := [0x31]
  const STORED_FALSE: numeral := [0x30]

  /** A boolean is stored as the number 1 or 0, text as itself, a number as itself, and null as SQL's. */
  lemma ScalarsAreStored(v: jsonvalue)
    ensures v == Bool(true) ==> ProjectValue(v) == SqlNumber(Finite(STORED_TRUE))
    ensures v == Bool(false) ==> ProjectValue(v) == SqlNumber(Finite(STORED_FALSE))
    ensures v.Bool? ==> (v.b <==> ProjectValue(v) == SqlNumber(Finite(STORED_TRUE)))
    ensures v.Str? ==> ProjectValue(v) == SqlText(v.s)
    ensures v.Num? ==> ProjectValue(v) == SqlNumber(v.n)
    ensures v.Null? <==> ProjectValue(v) == SqlNull
  {
    assert STORED_TRUE[0] != STORED_FALSE[0];
  }

  /** The cell is what SQL should find for the value a payload has under `name`, or has not. */
  ghost predicate Stands(cell: SqlValue, payload: Payload, name: string) {
    if name !in payload then cell == SqlNull
    else match payload[name]
      case Null => cell == SqlNull
      case Bool(b) => cell == SqlNumber(Finite(if b then STORED_TRUE else STORED_FALSE))
      case Str(s) => cell == SqlText(s)
      case Num(n) => cell == SqlNumber(n)
      case _ => cell.SqlText? && JsonReader.Parse(cell.s) == Some(payload[name])
  }

  lemma ProjectedStands(payload: Payload, name: string)
    ensures Stands(ProjectValue(ValueAt(payload, name)), payload, name)
  {
    var v := ValueAt(payload, name);
    ScalarsAreStored(v);
    if v.Arr? || v.Obj? { CompoundReadsBack(v); }
  }

  // ---------------------------------------------------------------- the database

  type Cells = map<string, SqlValue>

  /** A relation under the name it was created with: its columns, and its rows by primary key. */
  datatype Table = Table(name: string, columns: set<string>, rows: map<string, Cells>)

  /** Relations by what SQLite finds them under, which is their name without regard to case. */
  type Database = map<string, Table>

  datatype Statement =
    | Drop(name: string)
    | Create(name: string, fields: seq<string>)
    | Clear(name: string)
    | Insert(name: string, fields: seq<string>, id: string, payload: Payload)

  function Lower(c: char): char { if 'A' <= c <= 'Z' then (c as int + 32) as char else c }

  /** What SQLite compares names by. */
  function Key(name: string): string { seq(|name|, i requires 0 <= i < |name| => Lower(name[i])) }

  function Keys(names: set<string>): set<string> { set c | c in names :: Key(c) }

  /** The columns of a relation differ without regard to case. */
  predicate Tidy(columns: set<string>) {
    forall c, d :: c in columns && d in columns && Key(c) == Key(d) ==> c == d
  }

  function Columns(fields: seq<string>): set<string> { {"id"} + set f | f in fields }

  /** SQLite creates a relation with these columns and the key: no two alike without regard to case. */
  predicate Creatable(fields: seq<string>) {
    && (forall i :: 0 <= i < |fields| ==> Key(fields[i]) != Key("id"))
    && forall i, j :: 0 <= i < j < |fields| ==> Key(fields[i]) != Key(fields[j])
  }

  /** The named column that `c` is, if one is. */
  function FieldFor(fields: seq<string>, c: string): Option<string> {
    if fields == [] then None
    else if Key(fields[|fields| - 1]) == Key(c) then Some(fields[|fields| - 1])
    else FieldFor(fields[..|fields| - 1], c)
  }

  function CellOf(fields: seq<string>, c: string, payload: Payload): SqlValue {
    var f := FieldFor(fields, c);
    if f.Some? then ProjectValue(ValueAt(payload, f.value)) else SqlNull
  }

  /** What an insert that names `fields` puts into a relation with these columns. */
  function CellsOf(columns: set<string>, fields: seq<string>, payload: Payload): Cells {
    map c | c in columns && Key(c) != Key("id") :: CellOf(fields, c, payload)
  }

  /** What one statement does to the database; `None` when SQLite refuses it. */
  function Exec(db: Database, s: Statement): Option<Database> {
    var k := Key(s.name);
    match s
    case Drop(_) => Some(db - {k})
    case Create(name, fields) =>
      if k in db then Some(db)
      else if Creatable(fields) then Some(db[k := Table(name, Columns(fields), map[])])
      else None
    case Clear(_) => if k in db then Some(db[k := db[k].(rows := map[])]) else None
    case Insert(_, fields, id, payload) =>
      if k !in db || !(Keys(Columns(fields)) <= Keys(db[k].columns)) then None
      else Some(db[k := db[k].(rows := db[k].rows[id := CellsOf(db[k].columns, fields, payload)])])
  }

  // ---------------------------------------------------------------- the declaration and the live data

  datatype Relation = Relation(name: string, fields: seq<string>)

  predicate Prefixed(p: string, name: string) { |p| <= |name| && name[..|p|] == p }

  /** Names the projection never touches. */
  predicate Reserved(name: string) { Prefixed("_", name) || Prefixed("sqlite_", name) }

  predicate FieldsOk(fields: seq<string>) {
    && (forall i, j :: 0 <= i < j < |fields| ==> fields[i] != fields[j])
    && forall i :: 0 <= i < |fields| ==> Key(fields[i]) != Key("id")
  }

  /** What the parser makes sure of. The tables differ from each other without regard to case, but from `kv`,
      which comes first, only in their exact text. */
  predicate Declared(relations: seq<Relation>) {
    && |relations| > 0 && relations[0].name == "kv"
    && (forall i :: 1 <= i < |relations| ==> relations[i].name != "kv")
    && (forall i, j :: 1 <= i < j < |relations| ==> Key(relations[i].name) != Key(relations[j].name))
    && (forall i :: 0 <= i < |relations| ==> !Reserved(Key(relations[i].name)) && FieldsOk(relations[i].fields))
  }

  /** No table is `kv` without regard to case. */
  predicate KvAlone(relations: seq<Relation>) {
    forall i :: 1 <= i < |relations| ==> Key(relations[i].name) != Key("kv")
  }

  predicate AllCreatable(relations: seq<Relation>, n: nat)
    requires n <= |relations|
  {
    forall i :: 0 <= i < n ==> Creatable(relations[i].fields)
  }

  function Names(relations: seq<Relation>): set<string> { set i | 0 <= i < |relations| :: relations[i].name }

  datatype Row = Row(id: string, payload: Payload)

  /** The rows of each table that has a handle, those that conform before those that do not; and the kv row. */
  datatype Live = Live(tables: map<string, seq<Row>>, kv: Payload)

  function Listed(live: Live, name: string): Option<seq<Row>> {
    if name == "kv" then Some([Row("kv", live.kv)])
    else if name in live.tables then Some(live.tables[name])
    else None
  }

  // ---------------------------------------------------------------- what the projection promises

  /** The last of the first `k` rows with its id. */
  predicate Last(rows: seq<Row>, k: nat, i: int)
    requires k <= |rows|
  {
    0 <= i < k && forall j :: i < j < k ==> rows[j].id != rows[i].id
  }

  predicate IdListed(rows: seq<Row>, k: nat, id: string)
    requires k <= |rows|
  {
    exists i :: 0 <= i < k && rows[i].id == id
  }

  /** A row as the projection shows it. */
  function Shown(fields: seq<string>, payload: Payload): Cells {
    map f | f in fields :: ProjectValue(ValueAt(payload, f))
  }

  /** Exactly the first `k` rows, each under its id; a later row replaces an earlier one. */
  ghost predicate Holds(fields: seq<string>, rows: seq<Row>, k: nat, stored: map<string, Cells>)
    requires k <= |rows|
  {
    && (forall id :: id in stored <==> IdListed(rows, k, id))
    && forall i :: Last(rows, k, i) ==> rows[i].id in stored && stored[rows[i].id] == Shown(fields, rows[i].payload)
  }

  /** SQL finds exactly the listed rows, under their ids, each with one cell for each declared field, which stands
      for what the row's payload has there. */
  ghost predicate Finds(table: Table, fields: seq<string>, rows: seq<Row>) {
    && (forall id :: id in table.rows <==> exists i :: 0 <= i < |rows| && rows[i].id == id)
    && forall i :: 0 <= i < |rows| && (forall j :: i < j < |rows| ==> rows[j].id != rows[i].id) ==>
      RowStands(table, fields, rows[i])
  }

  ghost predicate RowStands(table: Table, fields: seq<string>, row: Row) {
    && row.id in table.rows && (forall f :: f in table.rows[row.id] <==> f in fields)
    && forall f :: f in fields && f in table.rows[row.id] ==> Stands(table.rows[row.id][f], row.payload, f)
  }

  lemma HoldsFinds(table: Table, fields: seq<string>, rows: seq<Row>)
    requires Holds(fields, rows, |rows|, table.rows)
    ensures Finds(table, fields, rows)
  {
    forall id ensures id in table.rows <==> exists i :: 0 <= i < |rows| && rows[i].id == id {
      assert id in table.rows <==> IdListed(rows, |rows|, id);
    }
    forall i | 0 <= i < |rows| && (forall j :: i < j < |rows| ==> rows[j].id != rows[i].id)
      ensures RowStands(table, fields, rows[i])
    {
      assert Last(rows, |rows|, i);
      forall f | f in fields ensures Stands(Shown(fields, rows[i].payload)[f], rows[i].payload, f) {
        ProjectedStands(rows[i].payload, f);
      }
    }
  }

  /** With different ids every listed row is there. */
  lemma EveryRowIsThere(table: Table, fields: seq<string>, rows: seq<Row>, i: nat)
    requires Finds(table, fields, rows) && i < |rows|
    requires forall j, k :: 0 <= j < k < |rows| ==> rows[j].id != rows[k].id
    ensures RowStands(table, fields, rows[i])
  {
  }

  /** What SQL finds under the name has the declared columns and, when the table has a handle, exactly the
      listed rows. */
  ghost predicate Filled(r: Relation, live: Live, db: Database) {
    var k := Key(r.name);
    && k in db && db[k].columns == {"id"} + (set f | f in r.fields)
    && (r.name == "kv" ==> Finds(db[k], r.fields, [Row("kv", live.kv)]))
    && (r.name != "kv" && r.name in live.tables ==> Finds(db[k], r.fields, live.tables[r.name]))
  }

  /** A query may run over this: the reserved relations aside, only declared ones, each filled. */
  ghost predicate Current(relations: seq<Relation>, live: Live, db: Database) {
    && (forall k :: k in db && !Reserved(db[k].name) ==> db[k].name in Names(relations))
    && forall i :: 0 <= i < |relations| ==> Filled(relations[i], live, db)
  }

  /** Any SQLite database whose relations, the reserved ones aside, have the key column; those that earlier
      declarations left do, and no other statement of the projection makes one. */
  ghost predicate Owned(db: Database) {
    forall k :: k in db ==>
      && Key(db[k].name) == k && Tidy(db[k].columns)
      && (!Reserved(db[k].name) ==> "id" in db[k].columns)
  }

  function ReservedPart(db: Database): Database { map k | k in db && Reserved(db[k].name) :: db[k] }

  // ---------------------------------------------------------------- what a rebuild computes

  /** `columnsMatch`: as the source computes it, which does not look for the key column. */
  predicate ColumnsMatch(db: Database, r: Relation) {
    Key(r.name) in db && db[Key(r.name)].columns != {} ==>
      var found := db[Key(r.name)].columns - {"id"};
      |found| == |r.fields| && forall i :: 0 <= i < |r.fields| ==> r.fields[i] in found
  }

  /** The relations no longer declared are gone. */
  function Swept(db: Database, relations: seq<Relation>): Database {
    map k | k in db && (Reserved(db[k].name) || db[k].name in Names(relations)) :: db[k]
  }

  /** One relation is dropped if its columns differ, and created if it is not there. */
  function Brought(db: Database, r: Relation): Option<Database> {
    Exec(if ColumnsMatch(db, r) then db else db - {Key(r.name)}, Create(r.name, r.fields))
  }

  function Schema(db: Database, relations: seq<Relation>, k: nat): Option<Database>
    requires k <= |relations|
  {
    if k == 0 then Some(db)
    else
      var front := Schema(db, relations, k - 1);
      if front.None? then None else Brought(front.value, relations[k - 1])
  }

  /** One relation is cleared and the first `k` rows are put in. */
  function Put(db: Database, r: Relation, rows: seq<Row>, k: nat): Option<Database>
    requires k <= |rows|
  {
    if k == 0 then Exec(db, Clear(r.name))
    else
      var front := Put(db, r, rows, k - 1);
      if front.None? then None
      else Exec(front.value, Insert(r.name, r.fields, rows[k - 1].id, rows[k - 1].payload))
  }

  /** A table without a handle is passed over. */
  function Refilled(db: Database, r: Relation, live: Live): Option<Database> {
    var listed := Listed(live, r.name);
    if listed.None? then Some(db) else Put(db, r, listed.value, |listed.value|)
  }

  /** The tables before the `k`th; `kv`, at 0, is not one. */
  function Tables(db: Database, relations: seq<Relation>, live: Live, k: nat): Option<Database>
    requires 1 <= k <= |relations|
  {
    if k == 1 then Some(db)
    else
      var front := Tables(db, relations, live, k - 1);
      if front.None? then None else Refilled(front.value, relations[k - 1], live)
  }

  /** The transaction: the tables, then `kv`. */
  function Rows(db: Database, relations: seq<Relation>, live: Live): Option<Database>
    requires |relations| > 0
  {
    var front := Tables(db, relations, live, |relations|);
    if front.None? then None else Refilled(front.value, relations[0], live)
  }

  /** What a rebuild makes of a database that answers; `None` when SQLite refuses one of its statements. */
  function Rebuilt(db: Database, relations: seq<Relation>, live: Live): Option<Database>
    requires |relations| > 0
  {
    var schema := Schema(Swept(db, relations), relations, |relations|);
    if schema.None? then None else Rows(schema.value, relations, live)
  }

  // ---------------------------------------------------------------- names

  lemma KvKey()
    ensures Key("kv") == "kv"
  {
    assert |Key("kv")| == 2 && Key("kv")[0] == 'k' && Key("kv")[1] == 'v';
  }

  lemma ReservedKey(name: string)
    requires Reserved(name)
    ensures Reserved(Key(name))
  {
    var k := Key(name);
    if Prefixed("_", name) {
      assert name[0] == name[..1][0] == '_';
      assert k[..1] == "_";
    } else {
      var p := "sqlite_";
      forall i | 0 <= i < |p| ensures k[i] == p[i] {
        assert name[i] == name[..|p|][i] == p[i];
      }
      assert k[..|p|] == p;
    }
  }

  lemma {:induction false} FieldCount(fields: seq<string>)
    requires forall i, j :: 0 <= i < j < |fields| ==> fields[i] != fields[j]
    ensures |set f | f in fields| == |fields|
  {
    if fields != [] {
      var rest := fields[..|fields| - 1];
      var last := fields[|fields| - 1];
      FieldCount(rest);
      assert (set f | f in fields) == (set f | f in rest) + {last};
      assert last !in rest;
    }
  }

  lemma SameSize(a: set<string>, b: set<string>)
    requires a <= b && |a| == |b|
    ensures a == b
  {
    assert b == a + (b - a);
    assert |b| == |a| + |b - a|;
  }

  /** The test is exact on relations that have the key column. */
  lemma MatchIsExact(db: Database, r: Relation)
    requires Key(r.name) in db && "id" in db[Key(r.name)].columns && FieldsOk(r.fields)
    ensures ColumnsMatch(db, r) <==> db[Key(r.name)].columns == Columns(r.fields)
  {
    var columns := db[Key(r.name)].columns;
    var found := columns - {"id"};
    var declared := set f | f in r.fields;
    FieldCount(r.fields);
    assert "id" !in declared;
    if ColumnsMatch(db, r) {
      assert declared <= found;
      SameSize(declared, found);
      assert columns == Columns(r.fields);
    }
    if columns == Columns(r.fields) {
      assert found == declared;
    }
  }

  /** The test does not ask for the key column. A relation that lacks it (no declaration made it) and has the
      other declared columns, or none, is left as it is; every other relation gets the declared columns. */
  lemma BringsExactly(db: Database, r: Relation)
    requires FieldsOk(r.fields) && Brought(db, r).Some?
    ensures
      var made := Brought(db, r).value;
      var missed := Key(r.name) in db && db[Key(r.name)].columns in {{}, set f | f in r.fields};
      Key(r.name) in made && (made[Key(r.name)].columns == Columns(r.fields) <==> !missed)
  {
    var declared := set f | f in r.fields;
    assert "id" in Columns(r.fields) && "id" !in declared;
    if Key(r.name) in db {
      var c := db[Key(r.name)].columns;
      if "id" in c {
        MatchIsExact(db, r);
      } else if c != {} {
        KeylessMatch(c, r);
      }
    }
  }

  lemma KeylessMatch(c: set<string>, r: Relation)
    requires "id" !in c && FieldsOk(r.fields) && c != {}
    ensures
      var matches := |c - {"id"}| == |r.fields| && forall i :: 0 <= i < |r.fields| ==> r.fields[i] in c - {"id"};
      matches <==> c == set f | f in r.fields
  {
    var declared := set f | f in r.fields;
    FieldCount(r.fields);
    assert c - {"id"} == c;
    if |c| == |r.fields| && forall i :: 0 <= i < |r.fields| ==> r.fields[i] in c {
      assert declared <= c;
      SameSize(declared, c);
    }
  }

  /** A relation `notes` with the one column `title` and no key stays as it is for ever. */
  lemma KeylessStays()
    ensures
      var keyless := Table("notes", {"title"}, map[]);
      var made := Brought(map[Key("notes") := keyless], Relation("notes", ["title"]));
      made == Some(map[Key("notes") := keyless]) && keyless.columns != Columns(["title"])
  {
    var r := Relation("notes", ["title"]);
    assert {"title"} - {"id"} == {"title"};
    assert "id" in Columns(r.fields) && "id" !in {"title"};
  }

  /** Letters that differ in case only. */
  predicate SameLetter(c: char, d: char) {
    || c == d
    || ('A' <= c <= 'Z' && d as int == c as int + 32)
    || ('A' <= d <= 'Z' && c as int == d as int + 32)
  }

  /** SQLite takes two names for one when they differ in the case of letters only. */
  lemma KeysMeet(a: string, b: string)
    ensures Key(a) == Key(b) <==> |a| == |b| && forall i :: 0 <= i < |a| ==> SameLetter(a[i], b[i])
  {
    if Key(a) == Key(b) {
      assert |Key(a)| == |a| && |Key(b)| == |b|;
      forall i | 0 <= i < |a| ensures SameLetter(a[i], b[i]) { assert Key(a)[i] == Key(b)[i]; }
    }
    if |a| == |b| && forall i :: 0 <= i < |a| ==> SameLetter(a[i], b[i]) {
      assert forall i :: 0 <= i < |a| ==> Lower(a[i]) == Lower(b[i]);
    }
  }

  /** The names the sweep passes over. */
  lemma ReservedExactly(name: string)
    ensures Reserved(name) <==> exists rest :: name == "_" + rest || name == "sqlite_" + rest
  {
    if Prefixed("_", name) { assert name == "_" + name[1..]; }
    if Prefixed("sqlite_", name) { assert name == "sqlite_" + name[7..]; }
    if rest :| name == "_" + rest || name == "sqlite_" + rest {
      assert name == "_" + rest ==> name[..1] == "_";
      assert name == "sqlite_" + rest ==> name[..7] == "sqlite_";
    }
  }

  /** SQLite creates a relation when no two of its columns, the key among them, are one name. */
  lemma CreatableExactly(fields: seq<string>)
    ensures Creatable(fields) <==>
      var columns := ["id"] + fields;
      forall i, j :: 0 <= i < j < |columns| ==> Key(columns[i]) != Key(columns[j])
  {
    hide Key;
    var columns := ["id"] + fields;
    if forall i, j :: 0 <= i < j < |columns| ==> Key(columns[i]) != Key(columns[j]) {
      forall i | 0 <= i < |fields| ensures Key(fields[i]) != Key("id") {
        assert columns[i + 1] == fields[i] && Key(columns[0]) != Key(columns[i + 1]);
      }
      forall i, j | 0 <= i < j < |fields| ensures Key(fields[i]) != Key(fields[j]) {
        assert columns[i + 1] == fields[i] && columns[j + 1] == fields[j] && Key(columns[i + 1]) != Key(columns[j + 1]);
      }
    }
    if Creatable(fields) {
      forall i, j | 0 <= i < j < |columns| ensures Key(columns[i]) != Key(columns[j]) {
        assert columns[j] == fields[j - 1] && (i > 0 ==> columns[i] == fields[i - 1]);
      }
    }
  }

  // ---------------------------------------------------------------- what statements keep

  /** Neither the name nor what SQLite finds under it is reserved. */
  predicate Ours(db: Database, name: string) {
    !Reserved(name) && (Key(name) in db ==> !Reserved(db[Key(name)].name))
  }

  lemma UnreservedIsOurs(db: Database, name: string)
    requires Owned(db) && !Reserved(Key(name))
    ensures Ours(db, name)
  {
    hide Key, Tidy;
    if Reserved(name) { ReservedKey(name); }
    if Key(name) in db && Reserved(db[Key(name)].name) { ReservedKey(db[Key(name)].name); }
  }

  /** No statement on such a name touches a reserved relation, and the relations stay owned. */
  lemma StatementKeeps(db: Database, s: Statement)
    requires Owned(db) && Ours(db, s.name) && Exec(db, s).Some?
    ensures Owned(Exec(db, s).value) && ReservedPart(Exec(db, s).value) == ReservedPart(db)
  {
    StatementOwned(db, s);
    StatementReserved(db, s);
  }

  lemma StatementOwned(db: Database, s: Statement)
    requires Owned(db) && Exec(db, s).Some?
    ensures Owned(Exec(db, s).value)
  {
    if s.Create? && Key(s.name) !in db { CreatableTidy(s.fields); }
    hide Key, Tidy, Reserved, Creatable, Keys, CellsOf;
  }

  /** The databases differ under `key` at most. */
  ghost predicate Beside(db: Database, key: string, after: Database) {
    && (forall k :: k != key ==> (k in after <==> k in db))
    && forall k :: k != key && k in db && k in after ==> after[k] == db[k]
  }

  lemma StatementBeside(db: Database, s: Statement)
    requires Exec(db, s).Some?
    ensures Beside(db, Key(s.name), Exec(db, s).value)
  {
    hide Key, Creatable, Keys, Columns, CellsOf;
  }

  lemma StatementNames(db: Database, s: Statement)
    requires Ours(db, s.name) && Exec(db, s).Some?
    ensures Ours(Exec(db, s).value, s.name)
  {
    hide Key, Reserved, Creatable, Keys, Columns, CellsOf;
  }

  lemma StatementReserved(db: Database, s: Statement)
    requires Ours(db, s.name) && Exec(db, s).Some?
    ensures ReservedPart(Exec(db, s).value) == ReservedPart(db)
  {
    StatementBeside(db, s);
    StatementNames(db, s);
    hide Key, Reserved, Exec;
  }

  lemma CreatableTidy(fields: seq<string>)
    requires Creatable(fields)
    ensures Tidy(Columns(fields))
  {
    forall c, d | c in Columns(fields) && d in Columns(fields) && Key(c) == Key(d) ensures c == d {
      if c in fields && d in fields {
        var i :| 0 <= i < |fields| && fields[i] == c;
        var j :| 0 <= j < |fields| && fields[j] == d;
      }
    }
  }

  lemma TidyCreatable(fields: seq<string>)
    requires FieldsOk(fields) && Tidy(Columns(fields))
    ensures Creatable(fields)
  {
    forall i, j | 0 <= i < j < |fields| ensures Key(fields[i]) != Key(fields[j]) {
      assert fields[i] in Columns(fields) && fields[j] in Columns(fields);
    }
  }

  // ---------------------------------------------------------------- the schema

  /** The relation the refill finds: the one that was there, rows and all, if its columns are the declared
      ones, and an empty one otherwise. */
  function Opening(db: Database, r: Relation): Table {
    if Key(r.name) in db && db[Key(r.name)].columns == Columns(r.fields) then db[Key(r.name)]
    else Table(r.name, Columns(r.fields), map[])
  }

  /** Dropping a relation whose columns differ and creating what is missing leaves the opening relation. */
  lemma BroughtIs(db: Database, r: Relation)
    requires Owned(db) && !Reserved(Key(r.name)) && FieldsOk(r.fields)
    ensures Brought(db, r)
      == if Creatable(r.fields) then Some(db[Key(r.name) := Opening(db, r)]) else None
  {
    hide Owned, Reserved, Creatable, Columns, Key, ColumnsMatch;
    var k := Key(r.name);
    if k in db {
      OwnedTable(db, k, r);
      if db[k].columns == Columns(r.fields) {
        TidyCreatable(r.fields);
        assert db == db[k := db[k]];
      } else {
        assert db[k := Opening(db, r)] == (db - {k})[k := Opening(db, r)];
      }
    }
  }

  lemma OwnedTable(db: Database, k: string, r: Relation)
    requires Owned(db) && k == Key(r.name) && k in db && !Reserved(k) && FieldsOk(r.fields)
    ensures Tidy(db[k].columns)
    ensures ColumnsMatch(db, r) <==> db[k].columns == Columns(r.fields)
  {
    hide Key, Tidy, Reserved, ColumnsMatch, Columns, FieldsOk;
    UnreservedIsOurs(db, r.name);
    MatchIsExact(db, r);
  }

  lemma BroughtKeeps(db: Database, r: Relation)
    requires Owned(db) && !Reserved(Key(r.name))
    ensures Brought(db, r).Some? ==>
      Owned(Brought(db, r).value) && ReservedPart(Brought(db, r).value) == ReservedPart(db)
  {
    hide Owned, Reserved, ReservedPart, ColumnsMatch, Key, Creatable, Columns, Ours;
    var dropped := if ColumnsMatch(db, r) then db else db - {Key(r.name)};
    UnreservedIsOurs(db, r.name);
    if !ColumnsMatch(db, r) { StatementKeeps(db, Drop(r.name)); }
    UnreservedIsOurs(dropped, r.name);
    if Brought(db, r).Some? { StatementKeeps(dropped, Create(r.name, r.fields)); }
  }

  lemma RelationDeclared(relations: seq<Relation>, k: nat)
    requires Declared(relations) && k < |relations|
    ensures !Reserved(Key(relations[k].name)) && FieldsOk(relations[k].fields)
  {
  }

  /** The schema is refused exactly when SQLite cannot create one of the relations. */
  lemma {:induction false} SchemaSome(db: Database, relations: seq<Relation>, k: nat)
    requires Owned(db) && Declared(relations) && k <= |relations|
    ensures Schema(db, relations, k).Some? <==> AllCreatable(relations, k)
    ensures Schema(db, relations, k).Some? ==>
      Owned(Schema(db, relations, k).value) && ReservedPart(Schema(db, relations, k).value) == ReservedPart(db)
  {
    hide Owned, Reserved, ReservedPart, Declared, FieldsOk, Creatable, Brought;
    if k > 0 {
      SchemaSome(db, relations, k - 1);
      var front := Schema(db, relations, k - 1);
      if front.Some? {
        RelationDeclared(relations, k - 1);
        BroughtIs(front.value, relations[k - 1]);
        BroughtKeeps(front.value, relations[k - 1]);
      }
    }
  }

  /** One more relation: the opening one, under its key. */
  lemma SchemaNext(db: Database, relations: seq<Relation>, k: nat)
    requires Owned(db) && Declared(relations) && k < |relations| && AllCreatable(relations, k + 1)
    ensures Schema(db, relations, k).Some?
    ensures
      var front, r := Schema(db, relations, k).value, relations[k];
      Schema(db, relations, k + 1) == Some(front[Key(r.name) := Opening(front, r)])
  {
    hide Owned, Declared, Reserved, FieldsOk, Creatable, Opening, Key, Brought;
    SchemaSome(db, relations, k);
    SchemaSome(db, relations, k + 1);
    RelationDeclared(relations, k);
    BroughtIs(Schema(db, relations, k).value, relations[k]);
  }

  lemma NothingYet(db: Database, relations: seq<Relation>)
    ensures Schema(db, relations, 0) == Some(db)
  {
  }

  /** None of the first `k` relations is found under `key`. */
  predicate NotAmong(relations: seq<Relation>, from: nat, k: nat, key: string)
    requires k <= |relations|
  {
    forall i :: from <= i < k ==> Key(relations[i].name) != key
  }

  /** What the schema makes of the relation last declared under its key: its columns are the declared ones
      and, when no earlier one shares the key, it is the opening relation. */
  lemma {:induction false} SchemaMakes(db: Database, relations: seq<Relation>, k: nat, i: nat)
    requires Owned(db) && Declared(relations) && i < k <= |relations| && AllCreatable(relations, k)
    requires NotAmong(relations, i + 1, k, Key(relations[i].name))
    ensures Schema(db, relations, k).Some?
    ensures
      var after, key := Schema(db, relations, k).value, Key(relations[i].name);
      && key in after && after[key].columns == Columns(relations[i].fields)
      && (NotAmong(relations, 0, i, key) ==> after[key] == Opening(db, relations[i]))
  {
    hide Owned, Declared, Schema, Columns, Key;
    SchemaNext(db, relations, k - 1);
    if i < k - 1 {
      SchemaMakes(db, relations, k - 1, i);
    } else if NotAmong(relations, 0, i, Key(relations[i].name)) {
      SchemaLeaves(db, relations, k - 1, Key(relations[i].name));
    }
  }

  lemma {:induction false} SchemaLeaves(db: Database, relations: seq<Relation>, k: nat, key: string)
    requires Owned(db) && Declared(relations) && k <= |relations| && AllCreatable(relations, k)
    requires NotAmong(relations, 0, k, key)
    ensures Schema(db, relations, k).Some?
    ensures key in Schema(db, relations, k).value <==> key in db
    ensures key in db ==> Schema(db, relations, k).value[key] == db[key]
  {
    hide Owned, Declared, Schema, Opening, Key;
    if k > 0 {
      SchemaNext(db, relations, k - 1);
      SchemaLeaves(db, relations, k - 1, key);
    } else {
      NothingYet(db, relations);
    }
  }

  lemma SweptKeeps(db: Database, relations: seq<Relation>)
    requires Owned(db)
    ensures Owned(Swept(db, relations)) && ReservedPart(Swept(db, relations)) == ReservedPart(db)
  {
    hide Key, Tidy, Reserved;
  }

  /** Every relation the schema leaves is reserved or declared. */
  lemma {:induction false} SchemaNames(db: Database, relations: seq<Relation>, k: nat)
    requires Owned(db) && Declared(relations) && k <= |relations| && AllCreatable(relations, k)
    ensures Schema(Swept(db, relations), relations, k).Some?
    ensures
      var after := Schema(Swept(db, relations), relations, k).value;
      forall key :: key in after ==> Reserved(after[key].name) || after[key].name in Names(relations)
  {
    hide Owned, Declared, Schema, Reserved, Columns, Key;
    SweptKeeps(db, relations);
    if k > 0 {
      SchemaNext(Swept(db, relations), relations, k - 1);
      SchemaNames(db, relations, k - 1);
    } else {
      NothingYet(Swept(db, relations), relations);
    }
  }

  // ---------------------------------------------------------------- the rows

  lemma {:induction false} FieldForSelf(fields: seq<string>, c: string)
    requires Creatable(fields) && c in fields
    ensures FieldFor(fields, c) == Some(c)
  {
    var front, last := fields[..|fields| - 1], fields[|fields| - 1];
    assert fields == front + [last];
    if c != last {
      var i :| 0 <= i < |front| && front[i] == c;
      assert fields[i] == c;
      assert Creatable(front);
      FieldForSelf(front, c);
    }
  }

  /** In a relation with the declared columns a row is stored as the projection shows it. */
  lemma CellsAreShown(fields: seq<string>, payload: Payload)
    requires Creatable(fields)
    ensures CellsOf(Columns(fields), fields, payload) == Shown(fields, payload)
  {
    forall c | c in fields ensures Key(c) != Key("id") && FieldFor(fields, c) == Some(c) {
      var i :| 0 <= i < |fields| && fields[i] == c;
      FieldForSelf(fields, c);
    }
    hide Key, FieldFor;
  }

  lemma IdNext(rows: seq<Row>, k: nat, id: string)
    requires k < |rows|
    ensures IdListed(rows, k + 1, id) <==> id == rows[k].id || IdListed(rows, k, id)
  {
    if IdListed(rows, k, id) { var i :| 0 <= i < k && rows[i].id == id; }
    assert rows[k].id == id ==> IdListed(rows, k + 1, id);
  }

  lemma LastNext(rows: seq<Row>, k: nat, i: int)
    requires k < |rows| && Last(rows, k + 1, i)
    ensures 0 <= i <= k && (i < k ==> Last(rows, k, i) && rows[i].id != rows[k].id)
  {
  }

  lemma HoldsNext(fields: seq<string>, rows: seq<Row>, k: nat, stored: map<string, Cells>)
    requires k < |rows| && Holds(fields, rows, k, stored)
    ensures Holds(fields, rows, k + 1, stored[rows[k].id := Shown(fields, rows[k].payload)])
  {
    hide Shown, Last, IdListed;
    var after := stored[rows[k].id := Shown(fields, rows[k].payload)];
    forall id ensures id in after <==> IdListed(rows, k + 1, id) {
      IdNext(rows, k, id);
    }
    forall i | Last(rows, k + 1, i)
      ensures 0 <= i <= k
      ensures rows[i].id in after && after[rows[i].id] == Shown(fields, rows[i].payload)
    {
      LastNext(rows, k, i);
    }
  }

  /** One relation holds the first `k` rows; nothing else changed. */
  ghost predicate RowsPut(before: Database, r: Relation, rows: seq<Row>, k: nat, after: Database)
    requires k <= |rows|
  {
    var key := Key(r.name);
    && key in before && key in after && after == before[key := before[key].(rows := after[key].rows)]
    && Holds(r.fields, rows, k, after[key].rows)
  }

  lemma InsertPuts(before: Database, r: Relation, rows: seq<Row>, k: nat, now: Database)
    requires k < |rows| && RowsPut(before, r, rows, k, now)
    requires before[Key(r.name)].columns == Columns(r.fields) && Creatable(r.fields)
    ensures Exec(now, Insert(r.name, r.fields, rows[k].id, rows[k].payload)).Some?
    ensures RowsPut(before, r, rows, k + 1, Exec(now, Insert(r.name, r.fields, rows[k].id, rows[k].payload)).value)
  {
    hide Holds, Columns, CellsOf, Shown, Creatable, Key;
    var key := Key(r.name);
    HoldsNext(r.fields, rows, k, now[key].rows);
    InsertShows(now, r, rows[k]);
    hide Exec;
    var put := now[key].rows[rows[k].id := Shown(r.fields, rows[k].payload)];
    UpdatedTwice(before, key, now[key], now[key].(rows := put));
  }

  lemma InsertShows(db: Database, r: Relation, row: Row)
    requires Key(r.name) in db && db[Key(r.name)].columns == Columns(r.fields) && Creatable(r.fields)
    ensures
      var key := Key(r.name);
      Exec(db, Insert(r.name, r.fields, row.id, row.payload))
        == Some(db[key := db[key].(rows := db[key].rows[row.id := Shown(r.fields, row.payload)])])
  {
    hide Columns, CellsOf, Shown, Creatable, Key;
    CellsAreShown(r.fields, row.payload);
  }

  lemma UpdatedTwice(db: Database, n: string, a: Table, b: Table)
    ensures db[n := a][n := b] == db[n := b]
  {
  }

  lemma ClearPuts(before: Database, r: Relation, rows: seq<Row>)
    requires Key(r.name) in before
    ensures Exec(before, Clear(r.name)).Some? && RowsPut(before, r, rows, 0, Exec(before, Clear(r.name)).value)
  {
    hide Key;
    assert Holds(r.fields, rows, 0, map[]);
  }

  lemma {:induction false} PutPuts(db: Database, r: Relation, rows: seq<Row>, k: nat)
    requires Key(r.name) in db && db[Key(r.name)].columns == Columns(r.fields) && Creatable(r.fields) && k <= |rows|
    ensures Put(db, r, rows, k).Some? && RowsPut(db, r, rows, k, Put(db, r, rows, k).value)
  {
    hide RowsPut, Columns, Creatable, Key, Exec;
    if k > 0 {
      PutPuts(db, r, rows, k - 1);
      InsertPuts(db, r, rows, k - 1, Put(db, r, rows, k - 1).value);
    } else {
      ClearPuts(db, r, rows);
    }
  }

  /** A relation after the refill that started at `start`: the listed rows, or what it was without a handle. */
  ghost predicate FilledFrom(start: Database, r: Relation, live: Live, db: Database) {
    var key := Key(r.name);
    && key in db && key in start && db[key].columns == start[key].columns == Columns(r.fields)
    && match Listed(live, r.name)
       case Some(rows) => Holds(r.fields, rows, |rows|, db[key].rows)
       case None => db[key] == start[key]
  }

  /** No relation appears, goes or is renamed, and no columns change. */
  ghost predicate SameShape(start: Database, db: Database) {
    && db.Keys == start.Keys
    && forall key :: key in start ==> db[key].name == start[key].name && db[key].columns == start[key].columns
  }

  lemma RefilledIs(db: Database, r: Relation, live: Live)
    requires Key(r.name) in db && db[Key(r.name)].columns == Columns(r.fields) && Creatable(r.fields)
    ensures Refilled(db, r, live).Some?
    ensures var after := Refilled(db, r, live).value;
      && FilledFrom(db, r, live, after) && SameShape(db, after)
      && forall key :: key in db && key != Key(r.name) ==> after[key] == db[key]
  {
    var listed := Listed(live, r.name);
    if listed.Some? { PutPuts(db, r, listed.value, |listed.value|); }
    hide Put, Holds, Columns, Creatable, Key;
  }

  /** The tables' relations as the schema leaves them. */
  ghost predicate TablesReady(relations: seq<Relation>, db: Database) {
    forall i :: 1 <= i < |relations| ==>
      && Key(relations[i].name) in db && db[Key(relations[i].name)].columns == Columns(relations[i].fields)
      && Creatable(relations[i].fields)
  }

  /** The tables before the `k`th are filled; nothing else changed. */
  ghost predicate Progress(start: Database, relations: seq<Relation>, live: Live, k: nat, db: Database)
    requires 1 <= k <= |relations|
  {
    && SameShape(start, db)
    && (forall i :: 1 <= i < k ==> FilledFrom(start, relations[i], live, db))
    && forall key :: key in start && NotAmong(relations, 1, k, key) ==> key in db && db[key] == start[key]
  }

  lemma {:induction false} TablesFill(start: Database, relations: seq<Relation>, live: Live, k: nat)
    requires Declared(relations) && TablesReady(relations, start) && 1 <= k <= |relations|
    ensures Tables(start, relations, live, k).Some?
    ensures Progress(start, relations, live, k, Tables(start, relations, live, k).value)
  {
    hide Progress, TablesReady, Declared, Refilled;
    if k > 1 {
      TablesFill(start, relations, live, k - 1);
      ProgressNext(start, relations, live, k - 1, Tables(start, relations, live, k - 1).value);
    } else {
      NoProgress(start, relations, live);
    }
  }

  lemma NoProgress(start: Database, relations: seq<Relation>, live: Live)
    requires |relations| > 0
    ensures Progress(start, relations, live, 1, start)
  {
    hide FilledFrom;
  }

  lemma ProgressNext(start: Database, relations: seq<Relation>, live: Live, k: nat, db: Database)
    requires Declared(relations) && TablesReady(relations, start) && 1 <= k < |relations|
    requires Progress(start, relations, live, k, db)
    ensures Refilled(db, relations[k], live).Some?
    ensures Progress(start, relations, live, k + 1, Refilled(db, relations[k], live).value)
  {
    var r := relations[k];
    RefilledIs(db, r, live);
    var after := Refilled(db, r, live).value;
    assert NotAmong(relations, 1, k, Key(r.name));
    hide Refilled, Columns, Creatable, Holds, Listed, Key;
    forall i | 1 <= i < k + 1 ensures FilledFrom(start, relations[i], live, after) {
      if i < k { assert Key(relations[i].name) != Key(r.name); }
    }
    forall key | key in start && NotAmong(relations, 1, k + 1, key) ensures key in after && after[key] == start[key] {
      assert NotAmong(relations, 1, k, key) && key != Key(r.name);
    }
  }

  // ---------------------------------------------------------------- what a rebuild leaves

  /** Whatever is declared, the relation found as `kv` ends with the kv row alone. */
  lemma KvRows(db: Database, relations: seq<Relation>, live: Live)
    requires Declared(relations)
    ensures
      var after := Refilled(db, relations[0], live);
      after.Some? ==> "kv" in after.value && after.value["kv"].rows.Keys == {"kv"}
  {
    KvKey();
    hide Key, Keys, Columns, CellsOf;
    assert Put(db, relations[0], [Row("kv", live.kv)], 0) == Exec(db, Clear("kv"));
  }

  /** The kv row goes in exactly when the relation found as `kv` has columns for its fields. */
  lemma KvTaken(db: Database, relations: seq<Relation>, live: Live)
    requires Declared(relations) && "kv" in db
    ensures Refilled(db, relations[0], live).Some? <==> Keys(Columns(relations[0].fields)) <= Keys(db["kv"].columns)
  {
    KvKey();
    hide Key, Keys, Columns, CellsOf;
    assert Put(db, relations[0], [Row("kv", live.kv)], 0) == Exec(db, Clear("kv"));
  }

  lemma LastUnderKey(relations: seq<Relation>, i: nat)
    requires Declared(relations) && 1 <= i < |relations|
    ensures NotAmong(relations, i + 1, |relations|, Key(relations[i].name))
  {
  }

  lemma SchemaReady(db: Database, relations: seq<Relation>)
    requires Owned(db) && Declared(relations) && AllCreatable(relations, |relations|)
    ensures Schema(db, relations, |relations|).Some?
    ensures TablesReady(relations, Schema(db, relations, |relations|).value)
  {
    hide Owned, Declared, Schema, Opening, Key, Columns, NotAmong;
    SchemaSome(db, relations, |relations|);
    hide Creatable;
    forall i | 1 <= i < |relations|
      ensures
        var after, key := Schema(db, relations, |relations|).value, Key(relations[i].name);
        key in after && after[key].columns == Columns(relations[i].fields)
    {
      LastUnderKey(relations, i);
      SchemaMakes(db, relations, |relations|, i);
    }
  }

  // ---------------------------------------------------------------- a declaration in which kv is alone

  lemma AloneUnderKey(relations: seq<Relation>, i: nat)
    requires Declared(relations) && KvAlone(relations) && i < |relations|
    ensures NotAmong(relations, 0, i, Key(relations[i].name))
    ensures NotAmong(relations, i + 1, |relations|, Key(relations[i].name))
  {
  }

  /** Every relation opens: as it was if its columns are the declared ones, and empty otherwise. */
  lemma SchemaOpens(db: Database, relations: seq<Relation>)
    requires Owned(db) && Declared(relations) && KvAlone(relations) && AllCreatable(relations, |relations|)
    ensures Schema(db, relations, |relations|).Some?
    ensures
      var start := Schema(db, relations, |relations|).value;
      forall i :: 0 <= i < |relations| ==> Opened(db, relations[i], start)
  {
    hide Owned, Declared, KvAlone, Schema, Opening, Key, Columns, NotAmong;
    SchemaSome(db, relations, |relations|);
    forall i | 0 <= i < |relations| ensures Opened(db, relations[i], Schema(db, relations, |relations|).value) {
      AloneUnderKey(relations, i);
      SchemaMakes(db, relations, |relations|, i);
    }
  }

  predicate Opened(db: Database, r: Relation, start: Database) {
    Key(r.name) in start && start[Key(r.name)].columns == Columns(r.fields) && start[Key(r.name)] == Opening(db, r)
  }

  /** All relations are filled from where they started; nothing else changed. */
  lemma RowsFill(start: Database, relations: seq<Relation>, live: Live)
    requires Declared(relations) && KvAlone(relations) && TablesReady(relations, start)
    requires "kv" in start && start["kv"].columns == Columns(relations[0].fields) && Creatable(relations[0].fields)
    ensures Rows(start, relations, live).Some?
    ensures
      var after := Rows(start, relations, live).value;
      SameShape(start, after) && forall i :: 0 <= i < |relations| ==> FilledFrom(start, relations[i], live, after)
  {
    KvKey();
    hide Columns, Creatable, Key, Listed, Holds;
    TablesFill(start, relations, live, |relations|);
    hide TablesReady;
    var front := Tables(start, relations, live, |relations|).value;
    AloneUnderKey(relations, 0);
    RefilledIs(front, relations[0], live);
    hide Refilled, NotAmong, Tables;
    var after := Rows(start, relations, live).value;
    forall i | 0 <= i < |relations| ensures FilledFrom(start, relations[i], live, after) {
      if i > 0 { assert Key(relations[i].name) != "kv"; }
    }
  }

  lemma FilledIs(start: Database, r: Relation, live: Live, db: Database)
    requires FilledFrom(start, r, live, db)
    ensures Filled(r, live, db)
  {
    hide Holds, Finds, Key;
    var listed := Listed(live, r.name);
    if listed.Some? { HoldsFinds(db[Key(r.name)], r.fields, listed.value); }
  }

  lemma ShapeKeepsNames(relations: seq<Relation>, start: Database, db: Database)
    requires SameShape(start, db)
    requires forall key :: key in start ==> Reserved(start[key].name) || start[key].name in Names(relations)
    ensures forall key :: key in db && !Reserved(db[key].name) ==> db[key].name in Names(relations)
  {
  }

  /** No table shares the name of `kv`: a rebuild succeeds exactly when SQLite can create the relations, leaves
      them current, and keeps the rows of a table without a handle if its columns still are the declared ones. */
  lemma RebuiltAlone(db: Database, relations: seq<Relation>, live: Live)
    requires Owned(db) && Declared(relations) && KvAlone(relations)
    ensures Rebuilt(db, relations, live).Some? <==> AllCreatable(relations, |relations|)
    ensures Rebuilt(db, relations, live).Some? ==>
      var after := Rebuilt(db, relations, live).value;
      && Current(relations, live, after)
      && forall i :: 0 <= i < |relations| && Listed(live, relations[i].name).None? ==>
        Opened(Swept(db, relations), relations[i], after)
  {
    KvKey();
    hide Owned, Declared, Reserved, Schema, Rows, Creatable, Columns, Key, Listed, Opening, KvAlone;
    var swept := Swept(db, relations);
    SweptKeeps(db, relations);
    SchemaSome(swept, relations, |relations|);
    if AllCreatable(relations, |relations|) {
      var start := Schema(swept, relations, |relations|).value;
      SchemaReady(swept, relations);
      SchemaOpens(swept, relations);
      SchemaNames(db, relations, |relations|);
      FirstIsKv(relations);
      assert AllCreatable(relations, |relations|) ==> Creatable(relations[0].fields);
      assert Opened(swept, relations[0], start);
      RowsFill(start, relations, live);
      var after := Rows(start, relations, live).value;
      ShapeKeepsNames(relations, start, after);
      forall i | 0 <= i < |relations| ensures Filled(relations[i], live, after) {
        FilledIs(start, relations[i], live, after);
      }
      hide Filled, Holds, Swept, SameShape, TablesReady;
      forall i | 0 <= i < |relations| && Listed(live, relations[i].name).None?
        ensures Opened(swept, relations[i], after)
      {
        assert FilledFrom(start, relations[i], live, after) && Opened(swept, relations[i], start);
      }
    }
  }

  lemma FirstIsKv(relations: seq<Relation>)
    requires Declared(relations)
    ensures |relations| > 0 && relations[0].name == "kv"
  {
  }

  /** What a rebuild leaves, cell by cell. */
  lemma RebuiltFinds(db: Database, relations: seq<Relation>, live: Live, k: nat, rows: seq<Row>)
    requires Owned(db) && Declared(relations) && KvAlone(relations) && k < |relations|
    requires
      if relations[k].name == "kv" then rows == [Row("kv", live.kv)]
      else relations[k].name in live.tables && rows == live.tables[relations[k].name]
    ensures Rebuilt(db, relations, live).Some? ==>
      var after, key := Rebuilt(db, relations, live).value, Key(relations[k].name);
      && key in after && after[key].columns == {"id"} + (set f | f in relations[k].fields)
      && Finds(after[key], relations[k].fields, rows)
  {
    hide Owned, Declared, KvAlone, Rebuilt, Finds;
    RebuiltAlone(db, relations, live);
    if Rebuilt(db, relations, live).Some? { assert Filled(relations[k], live, Rebuilt(db, relations, live).value); }
  }

  // ---------------------------------------------------------------- a declaration with a twin of kv

  /** A table shares the name of `kv`: its columns are the relation's, and a rebuild fails for ever when they do
      not cover the fields of `kv`. When it succeeds the one relation holds the kv row alone. */
  lemma RebuiltTwin(db: Database, relations: seq<Relation>, live: Live, t: nat)
    requires Owned(db) && Declared(relations) && 1 <= t < |relations| && Key(relations[t].name) == Key("kv")
    ensures Rebuilt(db, relations, live).Some? <==>
      && AllCreatable(relations, |relations|)
      && Keys(Columns(relations[0].fields)) <= Keys(Columns(relations[t].fields))
    ensures Rebuilt(db, relations, live).Some? ==>
      var after := Rebuilt(db, relations, live).value;
      "kv" in after && after["kv"].rows.Keys == {"kv"}
  {
    KvKey();
    hide Owned, Declared, Reserved, Schema, Tables, Refilled, Creatable, Columns, Key, Keys, Listed, Opening;
    var swept := Swept(db, relations);
    SweptKeeps(db, relations);
    SchemaSome(swept, relations, |relations|);
    if AllCreatable(relations, |relations|) {
      var start := Schema(swept, relations, |relations|).value;
      SchemaReady(swept, relations);
      TablesFill(start, relations, live, |relations|);
      var front := Tables(start, relations, live, |relations|).value;
      assert front["kv"].columns == start["kv"].columns == Columns(relations[t].fields);
      KvTaken(front, relations, live);
      KvRows(front, relations, live);
    }
  }

  /** SQLite can create every relation, and the columns of a table that shares the name of `kv` cover its fields. */
  predicate Rebuildable(relations: seq<Relation>)
    requires Declared(relations)
  {
    && AllCreatable(relations, |relations|)
    && forall t :: 1 <= t < |relations| && Key(relations[t].name) == Key("kv") ==>
      Keys(Columns(relations[0].fields)) <= Keys(Columns(relations[t].fields))
  }

  /** Whether SQLite takes a rebuild depends on the declaration alone. */
  lemma RebuildsExactly(db: Database, relations: seq<Relation>, live: Live)
    requires Owned(db) && Declared(relations)
    ensures Rebuilt(db, relations, live).Some? <==> Rebuildable(relations)
  {
    KvKey();
    hide Owned, Rebuilt, Key, Keys, Columns, Creatable, FieldsOk, Current;
    if t :| 1 <= t < |relations| && Key(relations[t].name) == Key("kv") {
      RebuiltTwin(db, relations, live, t);
      assert forall i :: 1 <= i < |relations| && Key(relations[i].name) == Key("kv") ==> i == t;
    } else {
      RebuiltAlone(db, relations, live);
    }
  }

  /** The twin's rows are not there. */
  lemma TwinIsWrong(db: Database, relations: seq<Relation>, live: Live, t: nat, rows: seq<Row>, i: nat)
    requires Owned(db) && Declared(relations) && 1 <= t < |relations| && Key(relations[t].name) == Key("kv")
    requires Listed(live, relations[t].name) == Some(rows) && i < |rows| && rows[i].id != "kv"
    ensures Rebuilt(db, relations, live).Some? ==> !Current(relations, live, Rebuilt(db, relations, live).value)
  {
    KvKey();
    hide Owned, Declared, Rebuilt, Key, Filled;
    RebuiltTwin(db, relations, live, t);
    if Rebuilt(db, relations, live).Some? {
      KvRowAlone(Rebuilt(db, relations, live).value, relations[t], live, rows, i);
    }
  }

  lemma KvRowAlone(db: Database, r: Relation, live: Live, rows: seq<Row>, i: nat)
    requires Key(r.name) == "kv" && "kv" in db && db["kv"].rows.Keys == {"kv"}
    requires Listed(live, r.name) == Some(rows) && i < |rows| && rows[i].id != "kv"
    ensures !Filled(r, live, db)
  {
    hide RowStands, Key;
    assert rows[i].id !in db["kv"].rows;
    assert r.name != "kv" && r.name in live.tables && live.tables[r.name] == rows;
    assert !Finds(db[Key(r.name)], r.fields, live.tables[r.name]);
  }

  /** A rebuild over `db` answers, over what is declared and listed. */
  ghost predicate Serves(relations: seq<Relation>, db: Database, live: Live)
    requires |relations| > 0
  {
    Rebuilt(db, relations, live).Some? && Current(relations, live, Rebuilt(db, relations, live).value)
  }

  /** The projection does what it promises, whatever is left behind and whatever the data, exactly when no table
      shares the name of `kv` without regard to case and SQLite can create every relation. */
  lemma ServesExactly(relations: seq<Relation>)
    requires Declared(relations)
    ensures (forall db: Database, live: Live :: Owned(db) ==> Serves(relations, db, live))
      <==> KvAlone(relations) && AllCreatable(relations, |relations|)
  {
    FirstIsKv(relations);
    hide Owned, Declared, Rebuilt, Current, Key, Listed;
    if KvAlone(relations) && AllCreatable(relations, |relations|) {
      forall db: Database, live: Live | Owned(db) ensures Serves(relations, db, live) {
        RebuiltAlone(db, relations, live);
      }
    } else {
      NothingOwned();
      if !KvAlone(relations) {
        KvKey();
        var t :| 1 <= t < |relations| && Key(relations[t].name) == Key("kv");
        var rows := [Row("a", map[])];
        var live := Live(map[relations[t].name := rows], map[]);
        TwinListed(relations, t, rows);
        TwinIsWrong(map[], relations, live, t, rows, 0);
        assert !Serves(relations, map[], live);
      } else {
        RebuiltAlone(map[], relations, Live(map[], map[]));
        assert !Serves(relations, map[], Live(map[], map[]));
      }
    }
  }

  lemma NothingOwned()
    ensures Owned(map[])
  {
  }

  lemma TwinListed(relations: seq<Relation>, t: nat, rows: seq<Row>)
    requires Declared(relations) && 1 <= t < |relations|
    ensures Listed(Live(map[relations[t].name := rows], map[]), relations[t].name) == Some(rows)
  {
  }

  /** `KV` beside `kv`, both with the one field `title`: the parser takes it, the rebuild succeeds, and `SELECT`
      from `KV` finds the kv row and not the row `a` that the table lists. */
  lemma TwinAnswers()
    ensures
      var relations := [Relation("kv", ["title"]), Relation("KV", ["title"])];
      var live := Live(map["KV" := [Row("a", map[])]], map[]);
      var answered := Rebuilt(map[], relations, live);
      && Declared(relations) && answered.Some? && !Current(relations, live, answered.value)
      && Key("KV") in answered.value && answered.value[Key("KV")].rows.Keys == {"kv"}
  {
    var relations := [Relation("kv", ["title"]), Relation("KV", ["title"])];
    var live := Live(map["KV" := [Row("a", map[])]], map[]);
    KvKey();
    assert |Key("KV")| == 2 && Key("KV")[0] == 'k' && Key("KV")[1] == 'v';
    assert Key("KV") == "kv";
    TitleIsField();
    assert Declared(relations) by {
      assert !Reserved("kv") by { assert "kv"[..1][0] == 'k'; }
    }
    NothingOwned();
    assert AllCreatable(relations, |relations|);
    hide Rebuilt, Key, Creatable, FieldsOk, Owned, Current, Columns, Declared;
    RebuiltTwin(map[], relations, live, 1);
    TwinIsWrong(map[], relations, live, 1, [Row("a", map[])], 0);
  }

  lemma TitleIsField()
    ensures Creatable(["title"]) && FieldsOk(["title"])
  {
    assert |Key("title")| == 5 && |Key("id")| == 2;
  }

  // ---------------------------------------------------------------- the projection

  lemma {:induction false} SchemaStops(db: Database, relations: seq<Relation>, k: nat, n: nat)
    requires k <= n <= |relations| && Schema(db, relations, k).None?
    ensures Schema(db, relations, n).None?
    decreases n
  {
    hide Brought;
    if k < n { SchemaStops(db, relations, k, n - 1); }
  }

  lemma {:induction false} PutStops(db: Database, r: Relation, rows: seq<Row>, k: nat, n: nat)
    requires k <= n <= |rows| && Put(db, r, rows, k).None?
    ensures Put(db, r, rows, n).None?
    decreases n
  {
    hide Exec;
    if k < n { PutStops(db, r, rows, k, n - 1); }
  }

  lemma {:induction false} TablesStop(db: Database, relations: seq<Relation>, live: Live, k: nat, n: nat)
    requires 1 <= k <= n <= |relations| && Tables(db, relations, live, k).None?
    ensures Tables(db, relations, live, n).None?
    decreases n
  {
    hide Refilled;
    if k < n { TablesStop(db, relations, live, k, n - 1); }
  }

  /** What a query finds: everything as declared and listed when no table shares the name of `kv`; and, whatever
      is declared, the kv row alone in the relation found as `kv`. */
  ghost predicate Answers(relations: seq<Relation>, live: Live, db: Database) {
    && (KvAlone(relations) ==> Current(relations, live, db))
    && "kv" in db && db["kv"].rows.Keys == {"kv"}
  }

  lemma RebuiltAnswers(db: Database, relations: seq<Relation>, live: Live)
    requires Owned(db) && Declared(relations)
    ensures Rebuilt(db, relations, live).Some? ==> Answers(relations, live, Rebuilt(db, relations, live).value)
  {
    FirstIsKv(relations);
    if KvAlone(relations) { RebuiltAlone(db, relations, live); }
    hide Owned, Declared, Schema, Tables, Refilled, Swept, KvAlone, Current;
    if Rebuilt(db, relations, live).Some? {
      var start := Schema(Swept(db, relations), relations, |relations|).value;
      KvRows(Tables(start, relations, live, |relations|).value, relations, live);
    }
  }

  datatype Outcome = Disposed | QueryFailed | RanOver(db: Database)

  class SqliteProjection {
    const relations: seq<Relation>
    /** The caller's database, and the data followed. */
    var db: Database
    var live: Live
    var dirty: bool
    var disposed: bool
    /** While the database is failing it takes `patience` more statements and refuses the rest. */
    var failing: bool
    var patience: nat
    /** What the database held when it was handed over. */
    ghost const handed: Database

    ghost predicate Valid() reads this {
      && Declared(relations) && Owned(db) && ReservedPart(db) == ReservedPart(handed)
      && (!dirty ==> Rebuildable(relations))
      && (!dirty && !disposed ==> Answers(relations, live, db))
    }

    constructor (declared: seq<Relation>, sqlite: Database, data: Live)
      requires Declared(declared) && Owned(sqlite)
      ensures Valid() && relations == declared && db == sqlite && live == data && dirty && !disposed && handed == sqlite
    {
      relations, db, live, dirty, disposed, failing, patience := declared, sqlite, data, true, false, false, 0;
      handed := sqlite;
    }

    method Run(s: Statement) returns (ok: bool)
      requires Owned(db) && Ours(db, s.name)
      modifies this`db, this`patience
      ensures ok ==> Exec(old(db), s) == Some(db)
      ensures !ok ==> db == old(db)
      ensures !failing ==> (ok <==> Exec(old(db), s).Some?)
      ensures Owned(db) && ReservedPart(db) == ReservedPart(old(db))
    {
      if failing {
        if patience == 0 { return false; }
        patience := patience - 1;
      }
      var after := Exec(db, s);
      if after.None? { return false; }
      StatementKeeps(db, s);
      db := after.value;
      ok := true;
    }

    /** A statement that only reads. */
    method Ask() returns (ok: bool)
      modifies this`patience
      ensures !failing ==> ok
    {
      ok := true;
      if failing {
        if patience == 0 { return false; }
        patience := patience - 1;
      }
    }

    method DropLeftBehind() returns (ok: bool)
      requires Owned(db)
      modifies this`db, this`patience
      ensures Owned(db) && ReservedPart(db) == ReservedPart(old(db))
      ensures ok ==> db == Swept(old(db), relations)
      ensures !failing ==> ok
    {
      hide Reserved, ReservedPart, Key, Tidy;
      ok := Ask();
      if !ok { return; }
      var left := set k | k in db && !Reserved(db[k].name) && db[k].name !in Names(relations) :: db[k].name;
      ghost var all := left;
      while left != {}
        invariant left <= all && ok && Owned(db) && ReservedPart(db) == ReservedPart(old(db))
        invariant forall k :: k in db <==> k in old(db) && old(db)[k].name !in all - left
        invariant forall k :: k in db ==> db[k] == old(db)[k]
        decreases |left|
      {
        var n :| n in left;
        ok := Run(Drop(n));
        if !ok { return; }
        left := left - {n};
      }
      ghost var swept := Swept(old(db), relations);
      assert forall k :: k in db <==> k in swept;
      assert db == swept;
    }

    /** One declared relation is dropped if its columns differ, and created if it is not there. */
    method Bring(r: Relation) returns (ok: bool)
      requires Owned(db) && !Reserved(Key(r.name))
      modifies this`db, this`patience
      ensures Owned(db) && ReservedPart(db) == ReservedPart(old(db))
      ensures ok ==> Brought(old(db), r) == Some(db)
      ensures !failing ==> (ok <==> Brought(old(db), r).Some?)
    {
      hide Owned, Ours, Reserved, ReservedPart, Key, Creatable, Columns, ColumnsMatch;
      ok := Ask();
      if !ok { return; }
      UnreservedIsOurs(db, r.name);
      if !ColumnsMatch(db, r) {
        ok := Run(Drop(r.name));
        if !ok { return; }
      }
      UnreservedIsOurs(db, r.name);
      ok := Run(Create(r.name, r.fields));
    }

    /** `applyProjectionSchema`, outside any transaction: what was done stays when a later statement is refused. */
    method ApplySchema() returns (ok: bool)
      requires Declared(relations) && Owned(db)
      modifies this`db, this`patience
      ensures Owned(db) && ReservedPart(db) == ReservedPart(old(db))
      ensures ok ==> Schema(Swept(old(db), relations), relations, |relations|) == Some(db)
      ensures !failing ==> (ok <==> Schema(Swept(old(db), relations), relations, |relations|).Some?)
    {
      hide Declared, Owned, Reserved, ReservedPart, Swept, Brought, Key;
      ok := DropLeftBehind();
      if !ok { return; }
      ghost var swept := db;
      for k := 0 to |relations|
        invariant ok && Owned(db) && ReservedPart(db) == ReservedPart(old(db))
        invariant Schema(swept, relations, k) == Some(db)
      {
        RelationDeclared(relations, k);
        ok := Bring(relations[k]);
        if !ok {
          if !failing { SchemaStops(swept, relations, k + 1, |relations|); }
          return;
        }
      }
    }

    /** One relation is cleared and its rows are put in. */
    method Refill(r: Relation, rows: seq<Row>) returns (ok: bool)
      requires Owned(db) && !Reserved(Key(r.name))
      modifies this`db, this`patience
      ensures Owned(db) && ReservedPart(db) == ReservedPart(old(db))
      ensures ok ==> Put(old(db), r, rows, |rows|) == Some(db)
      ensures !failing ==> (ok <==> Put(old(db), r, rows, |rows|).Some?)
    {
      hide Owned, Ours, Reserved, ReservedPart, Key, Exec;
      ghost var before := db;
      UnreservedIsOurs(db, r.name);
      ok := Run(Clear(r.name));
      if !ok {
        if !failing { PutStops(before, r, rows, 0, |rows|); }
        return;
      }
      for k := 0 to |rows|
        invariant ok && Owned(db) && ReservedPart(db) == ReservedPart(before)
        invariant Put(before, r, rows, k) == Some(db)
      {
        UnreservedIsOurs(db, r.name);
        ok := Run(Insert(r.name, r.fields, rows[k].id, rows[k].payload));
        if !ok {
          if !failing { PutStops(before, r, rows, k + 1, |rows|); }
          return;
        }
      }
    }

    /** The turn of one relation; a table without a handle is passed over. */
    method Turn(r: Relation) returns (ok: bool)
      requires Owned(db) && !Reserved(Key(r.name))
      modifies this`db, this`patience
      ensures Owned(db) && ReservedPart(db) == ReservedPart(old(db))
      ensures ok ==> Refilled(old(db), r, live) == Some(db)
      ensures !failing ==> (ok <==> Refilled(old(db), r, live).Some?)
    {
      hide Owned, Reserved, ReservedPart, Key, Put;
      var listed := Listed(live, r.name);
      if listed.None? { return true; }
      ok := Refill(r, listed.value);
    }

    /** The transaction: the tables, then `kv`; a refusal undoes all of it. */
    method RefillAll() returns (ok: bool)
      requires Declared(relations) && Owned(db)
      modifies this`db, this`patience
      ensures Owned(db) && ReservedPart(db) == ReservedPart(old(db))
      ensures if ok then Rows(old(db), relations, live) == Some(db) else db == old(db)
      ensures !failing ==> (ok <==> Rows(old(db), relations, live).Some?)
    {
      FirstIsKv(relations);
      hide Declared, Owned, Reserved, ReservedPart, Refilled, Key;
      var saved := db;
      for k := 1 to |relations|
        invariant Owned(db) && ReservedPart(db) == ReservedPart(saved)
        invariant Tables(saved, relations, live, k) == Some(db)
      {
        RelationDeclared(relations, k);
        assert Tables(saved, relations, live, k + 1) == Refilled(db, relations[k], live);
        ok := Turn(relations[k]);
        if !ok {
          if !failing { TablesStop(saved, relations, live, k + 1, |relations|); }
          db := saved;
          return;
        }
      }
      RelationDeclared(relations, 0);
      assert Rows(saved, relations, live) == Refilled(db, relations[0], live);
      ok := Turn(relations[0]);
      if !ok { db := saved; }
    }

    /** A refused statement leaves a database that a rebuild can still start from. */
    method Rebuild() returns (ok: bool)
      requires Declared(relations) && Owned(db)
      modifies this`db, this`patience
      ensures Owned(db) && ReservedPart(db) == ReservedPart(old(db))
      ensures ok ==> Rebuilt(old(db), relations, live) == Some(db) && Answers(relations, live, db)
      ensures !failing ==> (ok <==> Rebuilt(old(db), relations, live).Some?)
    {
      FirstIsKv(relations);
      hide Declared, Owned, ReservedPart, Schema, Rows, Swept, Answers;
      ghost var before := db;
      ok := ApplySchema();
      if !ok { return; }
      ok := RefillAll();
      if ok { RebuiltAnswers(before, relations, live); }
    }

    /** Answered over the rebuilt rows, or not at all. */
    method Query() returns (r: Outcome)
      requires Valid()
      modifies this`db, this`patience, this`dirty
      ensures Valid() && (dirty ==> old(dirty))
      ensures r == Disposed <==> disposed
      ensures r.RanOver? ==> r.db == db && !dirty && Answers(relations, live, db)
      ensures r.RanOver? ==> if old(dirty) then Rebuilt(old(db), relations, live) == Some(db) else db == old(db)
      ensures r.QueryFailed? ==> dirty && old(dirty)
      ensures r.RanOver? ==> Rebuildable(relations)
      ensures !failing && !disposed && Rebuildable(relations) ==> r.RanOver?
    {
      if disposed { return Disposed; }
      FirstIsKv(relations);
      if dirty {
        hide Owned, Answers, Declared, Rebuilt, ReservedPart, Rebuildable;
        RebuildsExactly(db, relations, live);
        var ok := Rebuild();
        if !ok { return QueryFailed; }
        dirty := false;
      }
      r := RanOver(db);
    }

    /** A commit of the live data; the listener marks the projection until it is disposed. */
    method Commit(next: Live)
      requires Valid()
      modifies this`live, this`dirty
      ensures Valid() && live == next && dirty == (old(dirty) || !disposed)
    {
      live := next;
      if !disposed { dirty := true; }
    }

    method Dispose()
      requires Valid()
      modifies this`disposed
      ensures Valid() && disposed
    {
      disposed := true;
    }
  }

  // ---------------------------------------------------------------- whole sessions

  /** What happens to a projection: the data commits, a query is asked while the database may be refusing, or the
      projection is disposed. */
  datatype Event = Committed(live: Live) | Queried(failing: bool, patience: nat) | Disposing

  /** The data as last committed before event `k`. */
  function LiveAt(first: Live, events: seq<Event>, k: nat): Live
    requires k <= |events|
  {
    if k == 0 then first
    else if events[k - 1].Committed? then events[k - 1].live
    else LiveAt(first, events, k - 1)
  }

  predicate DisposedBefore(events: seq<Event>, k: nat)
    requires k <= |events|
  {
    exists i :: 0 <= i < k && events[i].Disposing?
  }

  /** Whatever relations earlier declarations left, and however often the database refused: when no table shares
      the name of `kv`, every query that is answered runs over the declared relations, columns and rows as last
      committed; otherwise it finds the kv row alone where the table's rows should be. Unless the projection is
      disposed or the database refuses, a query is answered exactly when the declaration is rebuildable. */
  method Session(relations: seq<Relation>, left: Database, first: Live, events: seq<Event>)
      returns (outcomes: map<nat, Outcome>)
    requires Declared(relations) && Owned(left)
    ensures forall k :: k in outcomes <==> 0 <= k < |events| && events[k].Queried?
    ensures forall k :: k in outcomes ==> (outcomes[k] == Disposed <==> DisposedBefore(events, k))
    ensures forall k :: k in outcomes && outcomes[k].RanOver? ==>
      && Answers(relations, LiveAt(first, events, k), outcomes[k].db)
      && ReservedPart(outcomes[k].db) == ReservedPart(left)
    ensures forall k :: k in outcomes && outcomes[k].RanOver? ==> Rebuildable(relations)
    ensures Rebuildable(relations) ==>
      forall k :: k in outcomes ==> outcomes[k].RanOver? || events[k].failing || DisposedBefore(events, k)
  {
    hide Answers, ReservedPart, Declared, Owned, Rebuilt, Rebuildable;
    outcomes := map[];
    var projection := new SqliteProjection(relations, left, first);
    for k := 0 to |events|
      invariant fresh(projection) && projection.Valid()
      invariant projection.relations == relations && projection.handed == left
      invariant projection.live == LiveAt(first, events, k)
      invariant projection.disposed <==> DisposedBefore(events, k)
      invariant forall j :: j in outcomes <==> 0 <= j < k && events[j].Queried?
      invariant forall j :: j in outcomes ==> (outcomes[j] == Disposed <==> DisposedBefore(events, j))
      invariant forall j :: j in outcomes && outcomes[j].RanOver? ==>
        && Answers(relations, LiveAt(first, events, j), outcomes[j].db)
        && ReservedPart(outcomes[j].db) == ReservedPart(left)
      invariant forall j :: j in outcomes && outcomes[j].RanOver? ==> Rebuildable(relations)
      invariant Rebuildable(relations) ==>
        forall j :: j in outcomes ==> outcomes[j].RanOver? || events[j].failing || DisposedBefore(events, j)
    {
      match events[k]
      case Committed(live) => projection.Commit(live);
      case Disposing => projection.Dispose();
      case Queried(failing, patience) =>
        projection.failing, projection.patience := failing, patience;
        var r := projection.Query();
        outcomes := outcomes[k := r];
    }
  }
}
