/** The database while its schema is still being upgraded: tables whose columns come
    and go, and the statements that change them. */
module SchemaTables {
  import opened Wrappers
  import opened Codec

  datatype Column =
    | Email
    | LowercaseEmail
    | DisplayName
    | LowercaseDisplayName
    | FirstName
    | LastName
    | Avatar
    | CreationDate
    | PasswordHash
    | TotpSecret
    | MfaType
    | Uuid
    | TempName

  datatype Cell = Null | Str(text: string) | Blob(bytes: seq<byte>)

  type Row = map<Column, Cell>

  /** A table of rows by primary key; every row has exactly the table's columns. */
  datatype Table<!T> = Table(columns: set<Column>, rows: map<T, Row>)

  predicate HasItsColumns<T>(t: Table<T>) {
    forall k :: k in t.rows ==> t.rows[k].Keys == t.columns
  }

  function Get(row: Row, c: Column): Cell {
    if c in row then row[c] else Null
  }

  // ----- Statements -----

  function MapRows<T(==)>(rows: map<T, Row>, f: Row -> Row): (r: map<T, Row>)
    ensures r.Keys == rows.Keys && forall k :: k in rows ==> r[k] == f(rows[k])
  {
    map k | k in rows :: f(rows[k])
  }

  function RenameColumn<T(==)>(t: Table<T>, c: Column, d: Column): Option<Table<T>> {
    if c !in t.columns || d in t.columns then None
    else Some(Table(t.columns - {c} + {d}, MapRows(t.rows, (row: Row) => (row - {c})[d := Get(row, c)])))
  }

  function AddColumn<T(==)>(t: Table<T>, c: Column, default: Cell): Option<Table<T>> {
    if c in t.columns then None
    else Some(Table(t.columns + {c}, MapRows(t.rows, (row: Row) => row[c := default])))
  }

  function DropColumn<T(==)>(t: Table<T>, c: Column): Option<Table<T>> {
    if c !in t.columns then None
    else Some(Table(t.columns - {c}, MapRows(t.rows, (row: Row) => row - {c})))
  }

  /** Sets a column of every row to an expression over the row. */
  function UpdateColumn<T(==)>(t: Table<T>, c: Column, value: Row -> Cell): Option<Table<T>> {
    if c !in t.columns then None
    else Some(t.(rows := MapRows(t.rows, (row: Row) => row[c := value(row)])))
  }

  /** Only the named column of each row is mapped, by all updates in turn. */
  function MapColumn<T(==)>(t: Table<T>, c: Column, updates: seq<Cell -> Cell>): Table<T> {
    t.(rows := MapRows(t.rows, (row: Row) => row[c := ApplyAll(updates, Get(row, c))]))
  }

  function ApplyAll(updates: seq<Cell -> Cell>, cell: Cell): Cell {
    if updates == [] then cell else updates[|updates| - 1](ApplyAll(updates[..|updates| - 1], cell))
  }

  function EmptyToNull(cell: Cell): Cell {
    if cell == Str("") then Null else cell
  }

  /** A row in the middle of a replacement: the old value under a temporary name, and
      the new one after some updates. */
  function WorkingRow(row: Row, c: Column, updates: seq<Cell -> Cell>): Row {
    row[TempName := Get(row, c)][c := ApplyAll(updates, Get(row, c))]
  }

  /** What a table is in the middle of a replacement. */
  ghost predicate IsWorking<T(!new)>(w: Table<T>, t: Table<T>, c: Column, updates: seq<Cell -> Cell>) {
    && w.columns == t.columns + {TempName}
    && w.rows.Keys == t.rows.Keys
    && forall k :: k in t.rows ==> w.rows[k] == WorkingRow(t.rows[k], c, updates)
  }

  lemma StartRow(row: Row, c: Column)
    requires c in row && c != TempName
    ensures (row - {c})[TempName := row[c]][c := Null][c := row[c]] == WorkingRow(row, c, [])
  {
  }

  lemma StepRow(row: Row, c: Column, updates: seq<Cell -> Cell>, update: Cell -> Cell)
    requires c != TempName
    ensures var w := WorkingRow(row, c, updates);
      w[c := update(Get(w, c))] == WorkingRow(row, c, updates + [update])
  {
    var all := updates + [update];
    assert all[..|all| - 1] == updates;
  }

  lemma EndRow(row: Row, c: Column, updates: seq<Cell -> Cell>)
    requires c in row && c != TempName && TempName !in row
    ensures WorkingRow(row, c, updates) - {TempName} == row[c := ApplyAll(updates, row[c])]
  {
  }

  lemma Started<T(!new)>(t: Table<T>, c: Column, renamed: Table<T>, added: Table<T>, value: Row -> Cell)
    requires HasItsColumns(t) && c != TempName && Some(renamed) == RenameColumn(t, c, TempName)
    requires Some(added) == AddColumn(renamed, c, Null)
    requires forall row :: value(row) == Get(row, TempName)
    ensures UpdateColumn(added, c, value).Some? && IsWorking(UpdateColumn(added, c, value).value, t, c, [])
  {
    hide ApplyAll, WorkingRow;
    var w := UpdateColumn(added, c, value).value;
    forall k | k in t.rows
      ensures w.rows[k] == WorkingRow(t.rows[k], c, [])
    {
      StartRow(t.rows[k], c);
    }
  }

  lemma Stepped<T(!new)>(w: Table<T>, t: Table<T>, c: Column, updates: seq<Cell -> Cell>, update: Cell -> Cell,
                         value: Row -> Cell)
    requires c in t.columns && c != TempName && IsWorking(w, t, c, updates)
    requires forall row :: value(row) == update(Get(row, c))
    ensures UpdateColumn(w, c, value).Some? && IsWorking(UpdateColumn(w, c, value).value, t, c, updates + [update])
  {
    hide ApplyAll, WorkingRow;
    var w' := UpdateColumn(w, c, value).value;
    forall k | k in t.rows
      ensures w'.rows[k] == WorkingRow(t.rows[k], c, updates + [update])
    {
      StepRow(t.rows[k], c, updates, update);
    }
  }

  lemma Dropped<T(!new)>(w: Table<T>, t: Table<T>, c: Column, updates: seq<Cell -> Cell>)
    requires HasItsColumns(t) && c in t.columns && TempName !in t.columns && c != TempName
    requires IsWorking(w, t, c, updates)
    ensures DropColumn(w, TempName) == Some(MapColumn(t, c, updates))
  {
    hide ApplyAll, WorkingRow;
    var r := DropColumn(w, TempName).value;
    forall k | k in t.rows
      ensures r.rows[k] == MapColumn(t, c, updates).rows[k]
    {
      EndRow(t.rows[k], c, updates);
    }
    assert r.columns == t.columns;
    SameRows(r.rows, MapColumn(t, c, updates).rows);
  }

  lemma SameRows<T(!new)>(a: map<T, Row>, b: map<T, Row>)
    requires a.Keys == b.Keys && forall k :: k in a ==> a[k] == b[k]
    ensures a == b
  {
  }

  /** Replaces a column by one of another definition, since not every database can alter
      it in place: rename, add, copy, update, drop. */
  method ReplaceColumn<T(==, !new)>(t: Table<T>, c: Column, updates: seq<Cell -> Cell>) returns (r: Option<Table<T>>)
    requires HasItsColumns(t) && c != TempName
    ensures r == if c in t.columns && TempName !in t.columns then Some(MapColumn(t, c, updates)) else None
  {
    hide MapRows, MapColumn, IsWorking;
    r := RenameColumn(t, c, TempName);
    if r.None? {
      return;
    }
    ghost var renamed := r.value;
    r := AddColumn(r.value, c, Null);
    var value := (row: Row) => Get(row, TempName);
    Started(t, c, renamed, r.value, value);
    r := UpdateColumn(r.value, c, value);
    var i := 0;
    while i < |updates|
      invariant 0 <= i <= |updates|
      invariant r.Some? && IsWorking(r.value, t, c, updates[..i])
    {
      var update := updates[i];
      value := (row: Row) => update(Get(row, c));
      Stepped(r.value, t, c, updates[..i], update, value);
      assert updates[..i] + [update] == updates[..i + 1];
      r := UpdateColumn(r.value, c, value);
      i := i + 1;
    }
    assert updates[..i] == updates;
    Dropped(r.value, t, c, updates);
    r := DropColumn(r.value, TempName);
  }
}
