/** The `active_session_metadata` table and the behaviour the store relies on
    from the SQL engine that holds it: the UPDATE, INSERT, DELETE, SELECT and
    COUNT statements the store issues, with their failure cases (unknown or
    repeated columns, values that do not fit an integer column, the NOT NULL
    columns, and the foreign key from `user_id` to `licensed_users.id`). */
module SessionTable {
  import opened Wrappers
  import opened Text
  import opened SessionColumns

  /** A stored value. Text columns hold `Str`, integer columns `Int`. */
  datatype Cell = Null | Str(s: string) | Int(n: int)

  /** One row: a value for every column of the table. The table is a sequence
      so that several rows for one session id can be represented. */
  type Row = map<string, Cell>
  type Table = seq<Row>

  /** A `licensed_users` record. */
  datatype LicensedUser = LicensedUser(id: int, userName: string, userId: int)

  /** The columns of the table in their declared order, the integer ones, and
      the ones that must not be NULL. */
  datatype Schema = Schema(columns: seq<string>, intColumns: set<string>, notNull: set<string>)

  predicate Distinct(xs: seq<string>) {
    forall i, j :: 0 <= i < j < |xs| ==> xs[i] != xs[j]
  }

  function ColumnSet(schema: Schema): set<string> {
    set c | c in schema.columns
  }

  /** The shape of the table the store is written against. */
  ghost predicate WellFormedSchema(schema: Schema) {
    && Distinct(schema.columns)
    && SessionIdColumn in schema.columns && UserIdColumn in schema.columns
    && "*" !in schema.columns
    && schema.intColumns <= ColumnSet(schema) && schema.notNull <= ColumnSet(schema)
    && UserIdColumn in schema.intColumns && UserIdColumn in schema.notNull
    && SessionIdColumn !in schema.intColumns && SessionIdColumn in schema.notNull
  }

  /** `cell` is the id of a licensed user. */
  predicate LicensedId(users: seq<LicensedUser>, cell: Cell) {
    cell.Int? && exists u :: u in users && u.id == cell.n
  }

  predicate CellFits(schema: Schema, column: string, cell: Cell) {
    cell.Null? || (cell.Int? <==> column in schema.intColumns)
  }

  /** A row that satisfies the table's constraints. */
  ghost predicate RowFits(schema: Schema, users: seq<LicensedUser>, r: Row) {
    && r.Keys == ColumnSet(schema)
    && (forall c :: c in r ==> CellFits(schema, c, r[c]))
    && (forall c :: c in schema.notNull && c in r ==> !r[c].Null?)
    && (UserIdColumn in r ==> LicensedId(users, r[UserIdColumn]))
  }

  ghost predicate TableFits(schema: Schema, users: seq<LicensedUser>, t: Table) {
    forall i :: 0 <= i < |t| ==> RowFits(schema, users, t[i])
  }

  /** The row belongs to session `sessionId` (`WHERE session_id = :id`). */
  predicate Matches(r: Row, sessionId: string) {
    SessionIdColumn in r && r[SessionIdColumn] == Str(sessionId)
  }

  /** `SELECT COUNT(*) ... WHERE session_id = :id`. */
  function CountMatching(t: Table, sessionId: string): (n: nat)
    ensures n <= |t|
    ensures n == 0 <==> forall i :: 0 <= i < |t| ==> !Matches(t[i], sessionId)
  {
    if |t| == 0 then 0
    else
      assert forall i :: 1 <= i < |t| ==> t[i] == t[1..][i - 1];
      (if Matches(t[0], sessionId) then 1 else 0) + CountMatching(t[1..], sessionId)
  }

  /** Binding a string parameter to a column: integer columns take decimal
      integer literals only. */
  function Bind(schema: Schema, column: string, value: string): (r: Option<Cell>)
    ensures r.Some? ==> !r.value.Null? && CellFits(schema, column, r.value)
  {
    if column in schema.intColumns then
      match ParseInt(value)
      case Some(n) => Some(Int(n))
      case None => None
    else Some(Str(value))
  }

  function BindAll(schema: Schema, columns: seq<string>, values: seq<string>): (r: Option<seq<Cell>>)
    requires |columns| == |values|
    ensures r.Some? ==> |r.value| == |columns|
    ensures r.Some? ==> forall i :: 0 <= i < |columns| ==> Bind(schema, columns[i], values[i]) == Some(r.value[i])
    ensures r.None? ==> exists i :: 0 <= i < |columns| && Bind(schema, columns[i], values[i]).None?
  {
    if |columns| == 0 then Some([])
    else
      match Bind(schema, columns[0], values[0])
      case None => None
      case Some(c) =>
        var rest := BindAll(schema, columns[1..], values[1..]);
        if rest.None? then
          var i :| 0 <= i < |columns[1..]| && Bind(schema, columns[1..][i], values[1..][i]).None?;
          assert Bind(schema, columns[i + 1], values[i + 1]).None?;
          None
        else Some([c] + rest.value)
  }

  /** The row with `columns[i]` set to `cells[i]`; later columns win. */
  function Assign(r: Row, columns: seq<string>, cells: seq<Cell>): (r': Row)
    requires |columns| == |cells|
    ensures r'.Keys == r.Keys + set c | c in columns
    ensures forall c :: c in r && c !in columns ==> r'[c] == r[c]
    decreases |columns|
  {
    if |columns| == 0 then r
    else Assign(r[columns[0] := cells[0]], columns[1..], cells[1..])
  }

  /** With distinct columns, each assigned column holds its own value. */
  lemma {:induction false} AssignAt(r: Row, columns: seq<string>, cells: seq<Cell>, i: nat)
    requires |columns| == |cells| && Distinct(columns) && i < |columns|
    ensures Assign(r, columns, cells)[columns[i]] == cells[i]
    decreases |columns|
  {
    if i > 0 {
      AssignAt(r[columns[0] := cells[0]], columns[1..], cells[1..], i - 1);
    } else {
      assert columns[0] !in columns[1..];
    }
  }

  /** The `user_id` value of the INSERT: `(SELECT id FROM licensed_users
      WHERE user_name = :user_name AND user_id = :user_id)`, NULL when no user
      matches; `None` when several do (a scalar subquery with more than one row). */
  function LicensedIdOf(users: seq<LicensedUser>, userName: string, userId: int): (r: Option<Cell>)
    ensures r.Some? && r.value.Int? ==>
      exists u :: u in users && u.userName == userName && u.userId == userId && u.id == r.value.n
    ensures r.Some? ==> r.value.Null? || LicensedId(users, r.value)
    ensures r == Some(Null) <==> forall u :: u in users ==> !(u.userName == userName && u.userId == userId)
  {
    if |users| == 0 then Some(Null)
    else
      var rest := LicensedIdOf(users[1..], userName, userId);
      assert forall u :: u in users[1..] ==> u in users;
      assert forall u :: u in users ==> u == users[0] || u in users[1..];
      if users[0].userName == userName && users[0].userId == userId then
        (if rest == Some(Null) then Some(Int(users[0].id)) else None)
      else rest
  }

  /** `UPDATE ... SET columns[i] = values[i] ... WHERE session_id = :id`.
      `placeholders` are the parameter names the statement binds. The result
      is the new table and the number of affected rows, or `None` when the
      statement fails. The foreign key is only checked against rows that are
      actually written. */
  function ExecUpdate(schema: Schema, users: seq<LicensedUser>, t: Table, sessionId: string,
                      columns: seq<string>, values: seq<string>, placeholders: seq<string>): (r: Option<(Table, nat)>)
    requires |columns| == |values|
    ensures r.Some? ==> |r.value.0| == |t| && r.value.1 == CountMatching(t, sessionId)
    ensures r.Some? ==> Distinct(columns) && Distinct(placeholders)
    ensures r.Some? ==> (forall c :: c in columns ==> c in schema.columns) && BindAll(schema, columns, values).Some?
    ensures r.Some? ==> forall i :: 0 <= i < |t| ==>
      r.value.0[i] == if Matches(t[i], sessionId) then Assign(t[i], columns, BindAll(schema, columns, values).value) else t[i]
  {
    if !Distinct(columns) || !Distinct(placeholders) || !(forall c :: c in columns ==> c in schema.columns) then None
    else
      match BindAll(schema, columns, values)
      case None => None
      case Some(cells) =>
        var n := CountMatching(t, sessionId);
        var t' := seq(|t|, i requires 0 <= i < |t| => if Matches(t[i], sessionId) then Assign(t[i], columns, cells) else t[i]);
        if n > 0 && (exists i :: 0 <= i < |columns| && columns[i] == UserIdColumn && !LicensedId(users, cells[i])) then None
        else Some((t', n))
  }

  /** A row with every column NULL. */
  function EmptyRow(schema: Schema): (r: Row)
    ensures r.Keys == ColumnSet(schema) && forall c :: c in r ==> r[c] == Null
  {
    map c | c in schema.columns :: Null
  }

  /** The row the INSERT of the store builds. */
  function NewRow(schema: Schema, sessionId: string, userIdCell: Cell, columns: seq<string>, cells: seq<Cell>): Row
    requires |columns| == |cells|
  {
    Assign(EmptyRow(schema), [SessionIdColumn, UserIdColumn] + columns, [Str(sessionId), userIdCell] + cells)
  }

  /** The new row belongs to the session and holds the given `user_id`. */
  lemma NewRowOwner(schema: Schema, sessionId: string, idCell: Cell, columns: seq<string>, cells: seq<Cell>)
    requires |columns| == |cells| && Distinct([SessionIdColumn, UserIdColumn] + columns)
    ensures NewRow(schema, sessionId, idCell, columns, cells)[SessionIdColumn] == Str(sessionId)
    ensures NewRow(schema, sessionId, idCell, columns, cells)[UserIdColumn] == idCell
  {
    var all := [SessionIdColumn, UserIdColumn] + columns;
    var allCells := [Str(sessionId), idCell] + cells;
    AssignAt(EmptyRow(schema), all, allCells, 0);
    AssignAt(EmptyRow(schema), all, allCells, 1);
  }

  /** The new row holds each named column's own cell. */
  lemma NewRowAt(schema: Schema, sessionId: string, idCell: Cell, columns: seq<string>, cells: seq<Cell>, j: nat)
    requires |columns| == |cells| && Distinct([SessionIdColumn, UserIdColumn] + columns) && j < |columns|
    ensures NewRow(schema, sessionId, idCell, columns, cells)[columns[j]] == cells[j]
  {
    var all := [SessionIdColumn, UserIdColumn] + columns;
    var allCells := [Str(sessionId), idCell] + cells;
    AssignAt(EmptyRow(schema), all, allCells, j + 2);
    assert all[j + 2] == columns[j] && allCells[j + 2] == cells[j];
  }

  /** `INSERT INTO ... (session_id, user_id, columns) VALUES (:id, (subquery),
      values)`: appends one row, or fails (`None`). */
  function ExecInsert(schema: Schema, users: seq<LicensedUser>, t: Table, sessionId: string,
                      userName: string, userId: int,
                      columns: seq<string>, values: seq<string>, placeholders: seq<string>): (r: Option<Table>)
    requires |columns| == |values|
    ensures r.Some? ==> |r.value| == |t| + 1 && r.value[..|t|] == t
    ensures r.Some? ==> Distinct([SessionIdColumn, UserIdColumn] + columns) && Distinct(placeholders)
    ensures r.Some? ==> forall c :: c in schema.notNull ==> c == SessionIdColumn || c == UserIdColumn || c in columns
    ensures r.Some? ==> forall c :: c in columns ==> c in schema.columns
    ensures r.Some? ==> BindAll(schema, columns, values).Some? && LicensedIdOf(users, userName, userId).Some?
    ensures r.Some? ==>
      var row := NewRow(schema, sessionId, LicensedIdOf(users, userName, userId).value, columns, BindAll(schema, columns, values).value);
      r.value == t + [row] && forall c :: c in schema.notNull ==> c in row && row[c] != Null
  {
    var all := [SessionIdColumn, UserIdColumn] + columns;
    if !Distinct(all) || !Distinct(placeholders) || !(forall c :: c in all ==> c in schema.columns) then None
    else
      match BindAll(schema, columns, values)
      case None => None
      case Some(cells) =>
        match LicensedIdOf(users, userName, userId)
        case None => None
        case Some(idCell) =>
          var row := NewRow(schema, sessionId, idCell, columns, cells);
          if exists c :: c in schema.notNull && (c !in row || row[c] == Null) then None
          else Some(t + [row])
  }

  /** `DELETE FROM ... WHERE session_id = :id`: the remaining rows and the
      number removed. */
  function ExecDelete(t: Table, sessionId: string): (r: (Table, nat))
    ensures r.1 == CountMatching(t, sessionId)
    ensures forall i :: 0 <= i < |r.0| ==> !Matches(r.0[i], sessionId)
    ensures forall row :: row in r.0 <==> row in t && !Matches(row, sessionId)
  {
    if |t| == 0 then ([], 0)
    else
      var rest := ExecDelete(t[1..], sessionId);
      assert forall row :: row in t <==> row == t[0] || row in t[1..];
      if Matches(t[0], sessionId) then (rest.0, rest.1 + 1) else ([t[0]] + rest.0, rest.1)
  }

  /** The select list with `*` standing for all columns; `None` when an item
      names no column. */
  function ExpandSelectList(schema: Schema, items: seq<string>): (r: Option<seq<string>>)
    ensures r.Some? ==> forall c :: c in r.value ==> c in schema.columns
    ensures r.Some? ==> |r.value| >= |items| || |schema.columns| == 0
    ensures r.None? <==> exists i :: 0 <= i < |items| && items[i] != "*" && items[i] !in schema.columns
  {
    if |items| == 0 then Some([])
    else
      var head: Option<seq<string>> := if items[0] == "*" then Some(schema.columns)
        else if items[0] in schema.columns then Some([items[0]]) else None;
      var rest := ExpandSelectList(schema, items[1..]);
      assert forall i :: 1 <= i < |items| ==> items[i] == items[1..][i - 1];
      if head.None? then None
      else if rest.None? then
        var i :| 0 <= i < |items[1..]| && items[1..][i] != "*" && items[1..][i] !in schema.columns;
        assert items[i + 1] != "*" && items[i + 1] !in schema.columns;
        None
      else Some(head.value + rest.value)
  }

  /** One selected row: the named columns, in select-list order, with their values. */
  type SelectedRow = seq<(string, Cell)>

  function ProjectRow(r: Row, columns: seq<string>): (sr: SelectedRow)
    ensures |sr| == |columns|
    ensures forall i :: 0 <= i < |columns| ==> sr[i] == (columns[i], if columns[i] in r then r[columns[i]] else Null)
  {
    if |columns| == 0 then []
    else [(columns[0], if columns[0] in r then r[columns[0]] else Null)] + ProjectRow(r, columns[1..])
  }

  /** The matching rows, in table order, projected on `columns`. */
  function SelectMatching(t: Table, sessionId: string, columns: seq<string>): (rs: seq<SelectedRow>)
    ensures |rs| == CountMatching(t, sessionId)
    ensures forall k :: 0 <= k < |rs| ==> |rs[k]| == |columns|
  {
    if |t| == 0 then []
    else if Matches(t[0], sessionId) then [ProjectRow(t[0], columns)] + SelectMatching(t[1..], sessionId, columns)
    else SelectMatching(t[1..], sessionId, columns)
  }

  /** `SELECT items FROM ... WHERE session_id = :id`. */
  function ExecSelect(schema: Schema, t: Table, sessionId: string, items: seq<string>): (r: Option<seq<SelectedRow>>)
    ensures r.None? <==> ExpandSelectList(schema, items).None?
    ensures r.Some? ==> |r.value| == CountMatching(t, sessionId)
    ensures r.Some? ==> forall k :: 0 <= k < |r.value| ==> |r.value[k]| == |ExpandSelectList(schema, items).value|
  {
    match ExpandSelectList(schema, items)
    case None => None
    case Some(columns) => Some(SelectMatching(t, sessionId, columns))
  }

  // ---------------------------------------------------------------------
  // The statements keep the table's constraints

  /** Assigning well-typed, non-NULL values to existing columns keeps a row fitting. */
  lemma AssignKeepsFits(schema: Schema, users: seq<LicensedUser>, r: Row, columns: seq<string>, cells: seq<Cell>)
    requires RowFits(schema, users, r) && |columns| == |cells| && Distinct(columns)
    requires forall i :: 0 <= i < |columns| ==> columns[i] in schema.columns
    requires forall i :: 0 <= i < |columns| ==> !cells[i].Null? && CellFits(schema, columns[i], cells[i])
    requires forall i :: 0 <= i < |columns| && columns[i] == UserIdColumn ==> LicensedId(users, cells[i])
    ensures RowFits(schema, users, Assign(r, columns, cells))
  {
    var r' := Assign(r, columns, cells);
    forall c | c in r'
      ensures CellFits(schema, c, r'[c]) && (c in schema.notNull ==> !r'[c].Null?)
      ensures c == UserIdColumn ==> LicensedId(users, r'[c])
    {
      if c in columns {
        var i :| 0 <= i < |columns| && columns[i] == c;
        AssignAt(r, columns, cells, i);
      }
    }
  }

  lemma UpdateKeepsFits(schema: Schema, users: seq<LicensedUser>, t: Table, sessionId: string,
                        columns: seq<string>, values: seq<string>, placeholders: seq<string>)
    requires TableFits(schema, users, t) && |columns| == |values|
    requires ExecUpdate(schema, users, t, sessionId, columns, values, placeholders).Some?
    ensures TableFits(schema, users, ExecUpdate(schema, users, t, sessionId, columns, values, placeholders).value.0)
  {
    var t' := ExecUpdate(schema, users, t, sessionId, columns, values, placeholders).value.0;
    var cells := BindAll(schema, columns, values).value;
    forall i | 0 <= i < |t'|
      ensures RowFits(schema, users, t'[i])
    {
      if Matches(t[i], sessionId) {
        assert CountMatching(t, sessionId) > 0;
        AssignKeepsFits(schema, users, t[i], columns, cells);
      }
    }
  }

  /** The row an INSERT builds fits, provided it passed the NOT NULL check. */
  lemma NewRowFits(schema: Schema, users: seq<LicensedUser>, sessionId: string, idCell: Cell,
                   columns: seq<string>, values: seq<string>, cells: seq<Cell>)
    requires WellFormedSchema(schema) && |columns| == |values|
    requires Distinct([SessionIdColumn, UserIdColumn] + columns)
    requires forall c :: c in columns ==> c in schema.columns
    requires BindAll(schema, columns, values) == Some(cells)
    requires idCell.Null? || LicensedId(users, idCell)
    requires forall c :: c in schema.notNull ==>
      c in NewRow(schema, sessionId, idCell, columns, cells) && NewRow(schema, sessionId, idCell, columns, cells)[c] != Null
    ensures RowFits(schema, users, NewRow(schema, sessionId, idCell, columns, cells))
  {
    var all := [SessionIdColumn, UserIdColumn] + columns;
    var row := NewRow(schema, sessionId, idCell, columns, cells);
    assert row.Keys == ColumnSet(schema);
    NewRowOwner(schema, sessionId, idCell, columns, cells);
    forall c | c in row
      ensures CellFits(schema, c, row[c])
    {
      if c in columns {
        var j :| 0 <= j < |columns| && columns[j] == c;
        NewRowAt(schema, sessionId, idCell, columns, cells, j);
        assert Bind(schema, columns[j], values[j]) == Some(cells[j]);
      } else if c != SessionIdColumn && c != UserIdColumn {
        assert c !in all;
      }
    }
  }

  lemma InsertKeepsFits(schema: Schema, users: seq<LicensedUser>, t: Table, sessionId: string,
                        userName: string, userId: int,
                        columns: seq<string>, values: seq<string>, placeholders: seq<string>)
    requires WellFormedSchema(schema) && TableFits(schema, users, t) && |columns| == |values|
    requires ExecInsert(schema, users, t, sessionId, userName, userId, columns, values, placeholders).Some?
    ensures TableFits(schema, users, ExecInsert(schema, users, t, sessionId, userName, userId, columns, values, placeholders).value)
  {
    var cells := BindAll(schema, columns, values).value;
    var idCell := LicensedIdOf(users, userName, userId).value;
    var row := NewRow(schema, sessionId, idCell, columns, cells);
    var t' := ExecInsert(schema, users, t, sessionId, userName, userId, columns, values, placeholders).value;
    assert t' == t + [row];
    NewRowFits(schema, users, sessionId, idCell, columns, values, cells);
    AppendKeepsFits(schema, users, t, row);
  }

  /** Appending a row that fits to a table that fits gives a table that fits. */
  lemma AppendKeepsFits(schema: Schema, users: seq<LicensedUser>, t: Table, row: Row)
    requires TableFits(schema, users, t) && RowFits(schema, users, row)
    ensures TableFits(schema, users, t + [row])
  {
    forall i | 0 <= i < |t| + 1
      ensures RowFits(schema, users, (t + [row])[i])
    {
      if i < |t| {
        assert (t + [row])[i] == t[i];
      }
    }
  }

  lemma DeleteKeepsFits(schema: Schema, users: seq<LicensedUser>, t: Table, sessionId: string)
    requires TableFits(schema, users, t)
    ensures TableFits(schema, users, ExecDelete(t, sessionId).0)
  {
    var t' := ExecDelete(t, sessionId).0;
    forall i | 0 <= i < |t'|
      ensures RowFits(schema, users, t'[i])
    {
      assert t'[i] in t';
    }
  }
}
