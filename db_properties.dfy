/** Properties of the database session store, proved about the outcome
    functions its methods compute. */
module DBProperties {
  import opened Wrappers
  import opened Text
  import opened SortedMap
  import opened ActiveSessionStorage
  import opened SessionColumns
  import opened SessionTable
  import opened DBOutcomes

  // ---------------------------------------------------------------------
  // Table helpers

  /** The first row of session `sessionId`, in table order. */
  function FirstMatching(t: Table, sessionId: string): (r: Row)
    requires CountMatching(t, sessionId) > 0
    ensures exists i :: (0 <= i < |t| && t[i] == r && Matches(r, sessionId) &&
      forall j :: 0 <= j < i ==> !Matches(t[j], sessionId))
  {
    if Matches(t[0], sessionId) then t[0]
    else
      var r := FirstMatching(t[1..], sessionId);
      var i :| 0 <= i < |t[1..]| && t[1..][i] == r && Matches(r, sessionId) &&
        forall j :: 0 <= j < i ==> !Matches(t[1..][j], sessionId);
      assert t[i + 1] == r;
      assert forall j :: 1 <= j < i + 1 ==> t[j] == t[1..][j - 1];
      r
  }

  /** A SELECT's first row is the first matching row of the table. */
  lemma {:induction false} SelectFirst(t: Table, sessionId: string, columns: seq<string>)
    requires CountMatching(t, sessionId) > 0
    ensures SelectMatching(t, sessionId, columns)[0] == ProjectRow(FirstMatching(t, sessionId), columns)
  {
    if !Matches(t[0], sessionId) {
      SelectFirst(t[1..], sessionId, columns);
    }
  }

  /** An UPDATE that affects no row leaves the table as it was. */
  lemma UpdateNoMatchUnchanged(schema: Schema, users: seq<LicensedUser>, t: Table, sessionId: string,
                               columns: seq<string>, values: seq<string>, placeholders: seq<string>)
    requires |columns| == |values|
    requires ExecUpdate(schema, users, t, sessionId, columns, values, placeholders).Some?
    requires ExecUpdate(schema, users, t, sessionId, columns, values, placeholders).value.1 == 0
    ensures ExecUpdate(schema, users, t, sessionId, columns, values, placeholders).value.0 == t
  {
    var t' := ExecUpdate(schema, users, t, sessionId, columns, values, placeholders).value.0;
    assert forall i :: 0 <= i < |t| ==> t'[i] == t[i];
  }

  /** The value of column `c` in row `r`; every row of a fitting table has
      every column. */
  function CellOf(r: Row, c: string): Cell {
    if c in r then r[c] else Null
  }

  /** How `readProperty` reads a cell: `user_id` as a stringified integer,
      every other property as text with NULL read as "". */
  function ReadCell(name: string, cell: Cell): (r: Option<string>)
    ensures name != UserIdColumn ==> (cell.Null? ==> r == Some("")) && (cell.Str? ==> r == Some(cell.s))
    ensures name != UserIdColumn && cell.Int? ==> r.None?
    ensures name == UserIdColumn ==> (r.Some? <==> cell.Int?) && (cell.Int? ==> r == Some(IntToString(cell.n)))
  {
    if name != UserIdColumn then AsString(cell) else AsIntString(cell)
  }

  // ---------------------------------------------------------------------
  // readProperty

  /** `readProperty`: a connection failure, an unknown column, and a missing
      session each leave the value "", with their own error; otherwise the
      value is read from the first row of the session, and several rows give
      `TooManySessionsReturned` with that value still set. */
  lemma ReadPropertyCases(schema: Schema, rows: Table, sessionId: string, name: string, connected: bool)
    requires WellFormedSchema(schema)
    ensures !connected ==> ReadPropertyOutcome(schema, rows, sessionId, name, connected) == (Failure(ConnectionFailed), "")
    ensures connected && ColumnName(name) != "*" && ColumnName(name) !in schema.columns ==>
      ReadPropertyOutcome(schema, rows, sessionId, name, connected) == (Failure(DBError), "")
    ensures connected && ColumnName(name) in schema.columns && CountMatching(rows, sessionId) == 0 ==>
      ReadPropertyOutcome(schema, rows, sessionId, name, connected) == (Failure(SessionNotFound), "")
    ensures connected && ColumnName(name) in schema.columns && CountMatching(rows, sessionId) > 0 ==>
      var cell := CellOf(FirstMatching(rows, sessionId), ColumnName(name));
      var r := ReadPropertyOutcome(schema, rows, sessionId, name, connected);
      (ReadCell(name, cell).None? ==> r == (Thrown, "")) &&
      (ReadCell(name, cell).Some? ==> (r.1 == ReadCell(name, cell).value &&
        r.0 == if CountMatching(rows, sessionId) > 1 then Failure(TooManySessionsReturned) else Success))
  {
    var c := ColumnName(name);
    if connected && c in schema.columns {
      assert [c][1..] == [];
      assert ExpandSelectList(schema, []) == Some([]);
      assert [c] + [] == [c];
      assert ExpandSelectList(schema, [c]) == Some([c]);
      if CountMatching(rows, sessionId) > 0 {
        SelectFirst(rows, sessionId, [c]);
        var first := FirstMatching(rows, sessionId);
        assert Matches(first, sessionId);
      }
    } else if connected && c != "*" {
      assert [c][0] !in schema.columns;
    }
  }

  // ---------------------------------------------------------------------
  // readProperties

  /** `populateMapWithRow` into a sorted map keeps it sorted, never changes a
      key already present, and otherwise gives each key the value of the
      first readable column that maps to it. */
  lemma {:induction false} PopulateFirstWins(m: Entries, row: SelectedRow, k: string)
    requires Sorted(m)
    ensures Sorted(Populate(m, row))
    ensures Get(Populate(m, row), k) == if HasKey(m, k) then Get(m, k) else FirstEntry(row, k)
    decreases |row|
  {
    if |row| > 0 {
      match ColumnEntry(row[0]) {
        case Some(e) =>
          var m' := Emplace(m, e.0, e.1);
          EmplaceGet(m, e.0, e.1, k);
          PopulateFirstWins(m', row[1..], k);
        case None =>
          PopulateFirstWins(m, row[1..], k);
      }
    }
  }

  /** `readProperties`: the map is cleared first, so every error other than
      `TooManySessionsReturned` leaves it empty; a missing session is
      `SessionNotFound`; otherwise the map holds, for each key, the value of
      the first readable selected column of the session's first row. */
  lemma ReadPropertiesCases(schema: Schema, rows: Table, sessionId: string, names: seq<string>, connected: bool)
    requires |names| > 0
    ensures !connected ==> ReadPropertiesOutcome(schema, rows, sessionId, names, connected) == (Failure(ConnectionFailed), [])
    ensures var r := ReadPropertiesOutcome(schema, rows, sessionId, names, connected);
      r.0 != Success && r.0 != Failure(TooManySessionsReturned) ==> r.1 == []
    ensures connected && ExpandSelectList(schema, SelectList(names)).None? ==>
      ReadPropertiesOutcome(schema, rows, sessionId, names, connected) == (Failure(DBError), [])
    ensures connected && ExpandSelectList(schema, SelectList(names)).Some? && CountMatching(rows, sessionId) == 0 ==>
      ReadPropertiesOutcome(schema, rows, sessionId, names, connected) == (Failure(SessionNotFound), [])
    ensures connected && ExpandSelectList(schema, SelectList(names)).Some? && CountMatching(rows, sessionId) > 0 ==>
      var r := ReadPropertiesOutcome(schema, rows, sessionId, names, connected);
      var selected := ProjectRow(FirstMatching(rows, sessionId), ExpandSelectList(schema, SelectList(names)).value);
      && r.0 == (if CountMatching(rows, sessionId) > 1 then Failure(TooManySessionsReturned) else Success)
      && Sorted(r.1)
      && forall k :: Get(r.1, k) == FirstEntry(selected, k)
  {
    if connected && ExpandSelectList(schema, SelectList(names)).Some? && CountMatching(rows, sessionId) > 0 {
      var columns := ExpandSelectList(schema, SelectList(names)).value;
      SelectFirst(rows, sessionId, columns);
      var selected := ProjectRow(FirstMatching(rows, sessionId), columns);
      forall k {
        PopulateFirstWins([], selected, k);
      }
      PopulateFirstWins([], selected, "");
    }
  }

  /** `readProperties()` selects `*`: every column of the table, in order. */
  lemma ReadAllSelectsEveryColumn(schema: Schema)
    ensures SelectList(["*"]) == ["*"]
    ensures ExpandSelectList(schema, SelectList(["*"])) == Some(schema.columns)
  {
    assert ColumnsOf(["*"]) == ["*"];
    assert ["*"][1..] == [];
    assert ExpandSelectList(schema, []) == Some([]);
    assert schema.columns + [] == schema.columns;
  }

  // ---------------------------------------------------------------------
  // writeProperty

  /** `writeProperty` only ever updates: the table keeps its length, rows of
      other sessions are untouched, and a session without a row is left as it
      was, with success whenever the statement itself is accepted. */
  lemma WritePropertyOnlyUpdates(schema: Schema, users: seq<LicensedUser>, rows: Table, sessionId: string,
                                 name: string, value: string, connected: bool)
    ensures var r := WritePropertyOutcome(schema, users, rows, sessionId, name, value, connected);
      && |r.1| == |rows|
      && (forall i :: 0 <= i < |rows| && !Matches(rows[i], sessionId) ==> r.1[i] == rows[i])
      && (r.0 != Success ==> r.1 == rows)
    ensures (connected && CountMatching(rows, sessionId) == 0 &&
      ColumnName(name) in schema.columns && Bind(schema, ColumnName(name), value).Some?) ==>
      WritePropertyOutcome(schema, users, rows, sessionId, name, value, connected) == (Success, rows)
  {
    var c := ColumnName(name);
    if connected && CountMatching(rows, sessionId) == 0 && c in schema.columns && Bind(schema, c, value).Some? {
      assert [c][1..] == [] && ["value", "id"][1..] == ["id"];
      assert BindAll(schema, [c], [value]).Some?;
      assert ExecUpdate(schema, users, rows, sessionId, [c], [value], ["value", "id"]).Some?;
      UpdateNoMatchUnchanged(schema, users, rows, sessionId, [c], [value], ["value", "id"]);
    }
  }

  /** A successful `writeProperty` on an existing session stores the bound
      value in the property's column of every row of the session and keeps
      the row's other columns. */
  lemma WritePropertyStores(schema: Schema, users: seq<LicensedUser>, rows: Table, sessionId: string,
                            name: string, value: string, connected: bool, i: nat)
    requires WritePropertyOutcome(schema, users, rows, sessionId, name, value, connected).0 == Success
    requires i < |rows| && Matches(rows[i], sessionId)
    ensures Bind(schema, ColumnName(name), value).Some?
    ensures WritePropertyOutcome(schema, users, rows, sessionId, name, value, connected).1[i][ColumnName(name)] ==
      Bind(schema, ColumnName(name), value).value
    ensures var r' := WritePropertyOutcome(schema, users, rows, sessionId, name, value, connected).1[i];
      forall c' :: c' in rows[i] && c' != ColumnName(name) ==> c' in r' && r'[c'] == rows[i][c']
  {
    var c := ColumnName(name);
    var cells := BindAll(schema, [c], [value]).value;
    AssignAt(rows[i], [c], cells, 0);
    var r' := WritePropertyOutcome(schema, users, rows, sessionId, name, value, connected).1[i];
    assert r' == Assign(rows[i], [c], cells);
    forall c' | c' in rows[i] && c' != c
      ensures c' in r' && r'[c'] == rows[i][c']
    {
      assert c' !in [c];
    }
  }

  /** Moving a session to a user id that is no licensed user's id fails with
      `DBError` and changes nothing. */
  lemma WritePropertyForeignKey(schema: Schema, users: seq<LicensedUser>, rows: Table, sessionId: string,
                                value: string, n: int)
    requires WellFormedSchema(schema)
    requires CountMatching(rows, sessionId) > 0
    requires ParseInt(value) == Some(n) && forall u :: u in users ==> u.id != n
    ensures WritePropertyOutcome(schema, users, rows, sessionId, UserIdColumn, value, true) == (Failure(DBError), rows)
  {
    var c := ColumnName(UserIdColumn);
    assert c == UserIdColumn;
    assert [c][1..] == [] && [value][1..] == [];
    assert Bind(schema, c, value) == Some(Int(n));
    assert BindAll(schema, [], []) == Some([]);
    assert [Int(n)] + [] == [Int(n)];
    assert BindAll(schema, [c], [value]) == Some([Int(n)]);
    assert !LicensedId(users, Int(n));
    assert ExecUpdate(schema, users, rows, sessionId, [c], [value], ["value", "id"]).None?;
  }

  /** `writeProperty` succeeds exactly when the column exists, the value
      binds to it and, when the session has rows and the column is `user_id`,
      the new id is a licensed user's. */
  lemma WritePropertyAccepted(schema: Schema, users: seq<LicensedUser>, rows: Table, sessionId: string,
                              name: string, value: string)
    ensures var c := ColumnName(name);
      WritePropertyOutcome(schema, users, rows, sessionId, name, value, true).0 == Success <==>
        && c in schema.columns && Bind(schema, c, value).Some?
        && (CountMatching(rows, sessionId) > 0 && c == UserIdColumn ==> LicensedId(users, Bind(schema, c, value).value))
  {
    var c := ColumnName(name);
    assert [c][1..] == [] && [value][1..] == [];
    assert BindAll(schema, [], []) == Some([]);
    if Bind(schema, c, value).Some? {
      var cell := Bind(schema, c, value).value;
      assert [cell] + [] == [cell];
      assert BindAll(schema, [c], [value]) == Some([cell]);
    } else {
      assert BindAll(schema, [c], [value]).None?;
    }
    assert Distinct(["value", "id"]);
  }

  /** Round trip: after a successful `writeProperty` of a session with one
      row, `readProperty` returns the value written for a text column, and
      the owner's id in its decimal form for `user_id`; any other integer
      column was stored as an integer, and reading it as text throws. */
  lemma WritePropertyThenRead(schema: Schema, users: seq<LicensedUser>, rows: Table, sessionId: string,
                              name: string, value: string)
    requires WellFormedSchema(schema) && CountMatching(rows, sessionId) == 1
    requires ColumnName(name) != SessionIdColumn
    requires WritePropertyOutcome(schema, users, rows, sessionId, name, value, true).0 == Success
    ensures var t' := WritePropertyOutcome(schema, users, rows, sessionId, name, value, true).1;
      && (ColumnName(name) !in schema.intColumns ==> ReadPropertyOutcome(schema, t', sessionId, name, true) == (Success, value))
      && (name == UserIdColumn ==> (ParseInt(value).Some? &&
            ReadPropertyOutcome(schema, t', sessionId, name, true) == (Success, IntToString(ParseInt(value).value))))
      && (ColumnName(name) in schema.intColumns && name != UserIdColumn ==>
            ReadPropertyOutcome(schema, t', sessionId, name, true) == (Thrown, ""))
  {
    var c := ColumnName(name);
    var t' := WritePropertyOutcome(schema, users, rows, sessionId, name, value, true).1;
    UpdateKeepsSessions(schema, users, rows, sessionId, [c], [value], ["value", "id"]);
    CountSameMatches(rows, t', sessionId);
    var first := FirstMatching(t', sessionId);
    var i0 :| 0 <= i0 < |t'| && t'[i0] == first && Matches(first, sessionId);
    WritePropertyStores(schema, users, rows, sessionId, name, value, true, i0);
    assert c in first;
    ReadPropertyCases(schema, t', sessionId, name, true);
  }

  // ---------------------------------------------------------------------
  // writeProperties

  lemma {:induction false} CountAppend(t: Table, r: Row, sessionId: string)
    ensures CountMatching(t + [r], sessionId) == CountMatching(t, sessionId) + if Matches(r, sessionId) then 1 else 0
  {
    if |t| > 0 {
      assert (t + [r])[1..] == t[1..] + [r];
      CountAppend(t[1..], r, sessionId);
    }
  }

  lemma {:induction false} CountSameMatches(t: Table, t': Table, sessionId: string)
    requires |t| == |t'| && forall i :: 0 <= i < |t| ==> (Matches(t[i], sessionId) <==> Matches(t'[i], sessionId))
    ensures CountMatching(t, sessionId) == CountMatching(t', sessionId)
  {
    if |t| > 0 {
      CountSameMatches(t[1..], t'[1..], sessionId);
    }
  }

  /** A failed `writeProperties` leaves the table as it was. */
  lemma WritePropertiesFailureUnchanged(schema: Schema, users: seq<LicensedUser>, rows: Table, sessionId: string,
                                        user: User, properties: Entries, toIso: string -> IsoConversion, connected: bool)
    requires |properties| > 0
    requires WritePropertiesOutcome(schema, users, rows, sessionId, user, properties, toIso, connected).0 != Success
    ensures WritePropertiesOutcome(schema, users, rows, sessionId, user, properties, toIso, connected).1 == rows
  {
    if connected && ConvertedValues(properties, toIso).Some? {
      var values := ConvertedValues(properties, toIso).value;
      var columns := ColumnsOf(Keys(properties));
      var updated := ExecUpdate(schema, users, rows, sessionId, columns, values, columns + [SessionIdColumn]);
      if updated.Some? {
        UpdateNoMatchUnchanged(schema, users, rows, sessionId, columns, values, columns + [SessionIdColumn]);
      }
    }
  }

  /** When the session has a row, a successful `writeProperties` inserts
      nothing and stores each property's converted value in its column of
      every row of the session; other rows are untouched. */
  lemma WritePropertiesUpdatePath(schema: Schema, users: seq<LicensedUser>, rows: Table, sessionId: string,
                                  user: User, properties: Entries, toIso: string -> IsoConversion, i: nat, j: nat)
    requires |properties| > 0 && CountMatching(rows, sessionId) > 0
    requires WritePropertiesOutcome(schema, users, rows, sessionId, user, properties, toIso, true).0 == Success
    requires i < |rows| && j < |properties|
    ensures ConvertedValues(properties, toIso).Some?
    ensures var t' := WritePropertiesOutcome(schema, users, rows, sessionId, user, properties, toIso, true).1;
      var c := ColumnName(properties[j].0);
      && |t'| == |rows|
      && (!Matches(rows[i], sessionId) ==> t'[i] == rows[i])
      && (Matches(rows[i], sessionId) ==>
            Bind(schema, c, ConvertedValues(properties, toIso).value[j]).Some? &&
            t'[i][c] == Bind(schema, c, ConvertedValues(properties, toIso).value[j]).value)
    ensures var t' := WritePropertiesOutcome(schema, users, rows, sessionId, user, properties, toIso, true).1;
      Matches(rows[i], sessionId) ==>
        forall c' :: c' in rows[i] && c' !in ColumnsOf(Keys(properties)) ==> c' in t'[i] && t'[i][c'] == rows[i][c']
  {
    var values := ConvertedValues(properties, toIso).value;
    var columns := ColumnsOf(Keys(properties));
    var cells := BindAll(schema, columns, values).value;
    if Matches(rows[i], sessionId) {
      AssignAt(rows[i], columns, cells, j);
      var t' := WritePropertiesOutcome(schema, users, rows, sessionId, user, properties, toIso, true).1;
      assert t'[i] == Assign(rows[i], columns, cells);
    }
  }

  /** The contents of the row the INSERT builds. */
  lemma NewRowContents(schema: Schema, sessionId: string, idCell: Cell, columns: seq<string>, cells: seq<Cell>)
    requires |columns| == |cells| && Distinct([SessionIdColumn, UserIdColumn] + columns)
    ensures NewRow(schema, sessionId, idCell, columns, cells)[SessionIdColumn] == Str(sessionId)
    ensures NewRow(schema, sessionId, idCell, columns, cells)[UserIdColumn] == idCell
    ensures forall j :: 0 <= j < |columns| ==> NewRow(schema, sessionId, idCell, columns, cells)[columns[j]] == cells[j]
    ensures forall c :: c in schema.columns && c != SessionIdColumn && c != UserIdColumn && c !in columns ==>
      NewRow(schema, sessionId, idCell, columns, cells)[c] == Null
  {
    var all := [SessionIdColumn, UserIdColumn] + columns;
    var allCells := [Str(sessionId), idCell] + cells;
    var row := NewRow(schema, sessionId, idCell, columns, cells);
    assert row == Assign(EmptyRow(schema), all, allCells);
    NewRowOwner(schema, sessionId, idCell, columns, cells);
    forall j | 0 <= j < |columns|
      ensures row[columns[j]] == cells[j]
    {
      NewRowAt(schema, sessionId, idCell, columns, cells, j);
    }
    forall c | c in schema.columns && c != SessionIdColumn && c != UserIdColumn && c !in columns
      ensures row[c] == Null
    {
      assert c !in all;
    }
  }

  /** When the session has no row, a successful `writeProperties` appends
      exactly one row: it belongs to the session, its `user_id` is the id of
      the licensed user whose name and uid are the acting user's, each
      property's converted value is in its column, and every other column is
      NULL. */
  lemma WritePropertiesInsertPath(schema: Schema, users: seq<LicensedUser>, rows: Table, sessionId: string,
                                  user: User, properties: Entries, toIso: string -> IsoConversion)
    requires WellFormedSchema(schema) && |properties| > 0 && CountMatching(rows, sessionId) == 0
    requires WritePropertiesOutcome(schema, users, rows, sessionId, user, properties, toIso, true).0 == Success
    ensures ConvertedValues(properties, toIso).Some?
    ensures var t' := WritePropertiesOutcome(schema, users, rows, sessionId, user, properties, toIso, true).1;
      |t'| == |rows| + 1 && t'[..|rows|] == rows
    ensures var t' := WritePropertiesOutcome(schema, users, rows, sessionId, user, properties, toIso, true).1;
      t'[|rows|][SessionIdColumn] == Str(sessionId)
    ensures var t' := WritePropertiesOutcome(schema, users, rows, sessionId, user, properties, toIso, true).1;
      exists u :: u in users && u.userName == user.name && u.userId == user.uid && t'[|rows|][UserIdColumn] == Int(u.id)
    ensures var t' := WritePropertiesOutcome(schema, users, rows, sessionId, user, properties, toIso, true).1;
      var values := ConvertedValues(properties, toIso).value;
      forall j :: 0 <= j < |properties| ==>
        Bind(schema, ColumnName(properties[j].0), values[j]).Some? &&
        t'[|rows|][ColumnName(properties[j].0)] == Bind(schema, ColumnName(properties[j].0), values[j]).value
    ensures var t' := WritePropertiesOutcome(schema, users, rows, sessionId, user, properties, toIso, true).1;
      forall c :: (c in schema.columns && c != SessionIdColumn && c != UserIdColumn &&
        c !in ColumnsOf(Keys(properties))) ==> t'[|rows|][c] == Null
  {
    var values := ConvertedValues(properties, toIso).value;
    var columns := ColumnsOf(Keys(properties));
    UpdateNoMatchUnchanged(schema, users, rows, sessionId, columns, values, columns + [SessionIdColumn]);
    var inserted := ExecInsert(schema, users, rows, sessionId, user.name, user.uid, columns, values, InsertPlaceholders(columns));
    assert inserted.Some?;
    var cells := BindAll(schema, columns, values).value;
    var idCell := LicensedIdOf(users, user.name, user.uid).value;
    var row := NewRow(schema, sessionId, idCell, columns, cells);
    assert inserted.value == rows + [row];
    NewRowContents(schema, sessionId, idCell, columns, cells);
    assert row[UserIdColumn] != Null;
  }

  /** A new session whose properties leave a NOT NULL column unset cannot be
      inserted: `writeProperties` fails with `DBError`. */
  lemma WritePropertiesMissingRequired(schema: Schema, users: seq<LicensedUser>, rows: Table, sessionId: string,
                                       user: User, properties: Entries, toIso: string -> IsoConversion, c: string)
    requires |properties| > 0 && CountMatching(rows, sessionId) == 0
    requires ConvertedValues(properties, toIso).Some?
    requires c in schema.notNull && c != SessionIdColumn && c != UserIdColumn && c !in ColumnsOf(Keys(properties))
    ensures WritePropertiesOutcome(schema, users, rows, sessionId, user, properties, toIso, true) == (Failure(DBError), rows)
  {
    var values := ConvertedValues(properties, toIso).value;
    var columns := ColumnsOf(Keys(properties));
    var updated := ExecUpdate(schema, users, rows, sessionId, columns, values, columns + [SessionIdColumn]);
    if updated.Some? {
      UpdateNoMatchUnchanged(schema, users, rows, sessionId, columns, values, columns + [SessionIdColumn]);
      assert ExecInsert(schema, users, rows, sessionId, user.name, user.uid, columns, values, InsertPlaceholders(columns)).None?;
    }
  }

  /** A new session for a user with no licensed-user record cannot be inserted
      (its `user_id` would be NULL): `writeProperties` fails with `DBError`
      and changes nothing, unless a conversion throws first. */
  lemma WritePropertiesUnlicensedUser(schema: Schema, users: seq<LicensedUser>, rows: Table, sessionId: string,
                                      user: User, properties: Entries, toIso: string -> IsoConversion)
    requires WellFormedSchema(schema) && |properties| > 0 && CountMatching(rows, sessionId) == 0
    requires forall u :: u in users ==> !(u.userName == user.name && u.userId == user.uid)
    ensures WritePropertiesOutcome(schema, users, rows, sessionId, user, properties, toIso, true).0 != Success
    ensures ConvertedValues(properties, toIso).Some? ==>
      WritePropertiesOutcome(schema, users, rows, sessionId, user, properties, toIso, true) == (Failure(DBError), rows)
    ensures ConvertedValues(properties, toIso).None? ==>
      WritePropertiesOutcome(schema, users, rows, sessionId, user, properties, toIso, true) == (Thrown, rows)
  {
    if WritePropertiesOutcome(schema, users, rows, sessionId, user, properties, toIso, true).0 == Success {
      WritePropertiesInsertPath(schema, users, rows, sessionId, user, properties, toIso);
    } else {
      WritePropertiesFailureUnchanged(schema, users, rows, sessionId, user, properties, toIso, true);
    }
  }

  /** The last of distinct names occurs nowhere before it. */
  lemma DistinctLast(xs: seq<string>, x: string)
    requires Distinct(xs + [x])
    ensures x !in xs
  {
    forall k | 0 <= k < |xs|
      ensures xs[k] != x
    {
      assert (xs + [x])[k] == xs[k] && (xs + [x])[|xs|] == x;
    }
  }

  /** An UPDATE that does not assign `session_id` keeps every row's session. */
  lemma UpdateKeepsSessions(schema: Schema, users: seq<LicensedUser>, t: Table, sessionId: string,
                            columns: seq<string>, values: seq<string>, placeholders: seq<string>)
    requires |columns| == |values| && SessionIdColumn !in columns
    requires ExecUpdate(schema, users, t, sessionId, columns, values, placeholders).Some?
    ensures var t' := ExecUpdate(schema, users, t, sessionId, columns, values, placeholders).value.0;
      forall i :: 0 <= i < |t| ==> (Matches(t[i], sessionId) <==> Matches(t'[i], sessionId))
  {
  }

  /** After a successful `writeProperties` on a session that had one row,
      the session still has exactly one row and it holds the written cells. */
  lemma WrittenRowUpdated(schema: Schema, users: seq<LicensedUser>, rows: Table, sessionId: string,
                          user: User, properties: Entries, toIso: string -> IsoConversion, j: nat)
    requires |properties| > 0 && CountMatching(rows, sessionId) == 1 && j < |properties|
    requires WritePropertiesOutcome(schema, users, rows, sessionId, user, properties, toIso, true).0 == Success
    ensures ConvertedValues(properties, toIso).Some?
    ensures var t' := WritePropertiesOutcome(schema, users, rows, sessionId, user, properties, toIso, true).1;
      var c := ColumnName(properties[j].0);
      && CountMatching(t', sessionId) == 1
      && Bind(schema, c, ConvertedValues(properties, toIso).value[j]).Some?
      && c in FirstMatching(t', sessionId)
      && FirstMatching(t', sessionId)[c] == Bind(schema, c, ConvertedValues(properties, toIso).value[j]).value
  {
    var values := ConvertedValues(properties, toIso).value;
    var columns := ColumnsOf(Keys(properties));
    var placeholders := columns + [SessionIdColumn];
    var updated := ExecUpdate(schema, users, rows, sessionId, columns, values, placeholders);
    var t' := updated.value.0;
    assert WritePropertiesOutcome(schema, users, rows, sessionId, user, properties, toIso, true).1 == t';
    var cells := BindAll(schema, columns, values).value;
    DistinctLast(columns, SessionIdColumn);
    UpdateKeepsSessions(schema, users, rows, sessionId, columns, values, placeholders);
    CountSameMatches(rows, t', sessionId);
    var first := FirstMatching(t', sessionId);
    var i0 :| 0 <= i0 < |t'| && t'[i0] == first && Matches(first, sessionId);
    assert Matches(rows[i0], sessionId);
    assert first == Assign(rows[i0], columns, cells);
    AssignAt(rows[i0], columns, cells, j);
    assert Bind(schema, columns[j], values[j]) == Some(cells[j]);
  }

  /** After a successful `writeProperties` on a session that had no row, the
      session has exactly one row, the inserted one. */
  lemma WrittenRowInserted(schema: Schema, users: seq<LicensedUser>, rows: Table, sessionId: string,
                           user: User, properties: Entries, toIso: string -> IsoConversion, j: nat)
    requires WellFormedSchema(schema)
    requires |properties| > 0 && CountMatching(rows, sessionId) == 0 && j < |properties|
    requires WritePropertiesOutcome(schema, users, rows, sessionId, user, properties, toIso, true).0 == Success
    ensures ConvertedValues(properties, toIso).Some?
    ensures var t' := WritePropertiesOutcome(schema, users, rows, sessionId, user, properties, toIso, true).1;
      var c := ColumnName(properties[j].0);
      && CountMatching(t', sessionId) == 1
      && Bind(schema, c, ConvertedValues(properties, toIso).value[j]).Some?
      && c in FirstMatching(t', sessionId)
      && FirstMatching(t', sessionId)[c] == Bind(schema, c, ConvertedValues(properties, toIso).value[j]).value
  {
    var values := ConvertedValues(properties, toIso).value;
    var columns := ColumnsOf(Keys(properties));
    UpdateNoMatchUnchanged(schema, users, rows, sessionId, columns, values, columns + [SessionIdColumn]);
    var inserted := ExecInsert(schema, users, rows, sessionId, user.name, user.uid, columns, values, InsertPlaceholders(columns));
    var t' := inserted.value;
    assert WritePropertiesOutcome(schema, users, rows, sessionId, user, properties, toIso, true).1 == t';
    var cells := BindAll(schema, columns, values).value;
    var idCell := LicensedIdOf(users, user.name, user.uid).value;
    var row := NewRow(schema, sessionId, idCell, columns, cells);
    assert t' == rows + [row];
    NewRowContents(schema, sessionId, idCell, columns, cells);
    CountAppend(rows, row, sessionId);
    var first := FirstMatching(t', sessionId);
    var i0 :| 0 <= i0 < |t'| && t'[i0] == first && Matches(first, sessionId);
    assert i0 == |rows|;
    assert Bind(schema, columns[j], values[j]) == Some(cells[j]);
  }

  /** Round trip: once `writeProperties` succeeds on a session with at most
      one row, `readProperty` of any written text property returns the value
      written (after timestamp conversion). */
  lemma WritePropertiesThenRead(schema: Schema, users: seq<LicensedUser>, rows: Table, sessionId: string,
                                user: User, properties: Entries, toIso: string -> IsoConversion, j: nat)
    requires WellFormedSchema(schema)
    requires |properties| > 0 && CountMatching(rows, sessionId) <= 1 && j < |properties|
    requires ColumnName(properties[j].0) !in schema.intColumns
    requires WritePropertiesOutcome(schema, users, rows, sessionId, user, properties, toIso, true).0 == Success
    ensures ConvertedValues(properties, toIso).Some?
    ensures var t' := WritePropertiesOutcome(schema, users, rows, sessionId, user, properties, toIso, true).1;
      ReadPropertyOutcome(schema, t', sessionId, properties[j].0, true) == (Success, ConvertedValues(properties, toIso).value[j])
  {
    var t' := WritePropertiesOutcome(schema, users, rows, sessionId, user, properties, toIso, true).1;
    var values := ConvertedValues(properties, toIso).value;
    var columns := ColumnsOf(Keys(properties));
    var c := ColumnName(properties[j].0);
    assert c == columns[j];
    if CountMatching(rows, sessionId) == 1 {
      WrittenRowUpdated(schema, users, rows, sessionId, user, properties, toIso, j);
    } else {
      WrittenRowInserted(schema, users, rows, sessionId, user, properties, toIso, j);
    }
    assert c in schema.columns;
    assert properties[j].0 != UserIdColumn;
    ReadPropertyCases(schema, t', sessionId, properties[j].0, true);
  }

  // ---------------------------------------------------------------------
  // destroy, isEmpty, isValid

  /** `destroy` removes exactly the session's rows, so `isEmpty` afterwards
      reports an empty session; a DELETE the engine rejects is a `DBError`
      that changes nothing. */
  lemma DestroyEmpties(rows: Table, sessionId: string)
    ensures var t' := DestroyOutcome(rows, sessionId, true, true).1;
      && (forall row :: row in t' <==> row in rows && !Matches(row, sessionId))
      && IsEmptyOutcome(t', sessionId, true) == (Success, true)
    ensures DestroyOutcome(rows, sessionId, true, false) == (Failure(DBError), rows)
  {
  }

  /** `isEmpty` over a reachable connection: a single row is "not empty",
      no row is "empty", and several rows are `TooManySessionsReturned` with
      the flag left at its initial true. */
  lemma IsEmptyCounts(rows: Table, sessionId: string)
    ensures IsEmptyOutcome(rows, sessionId, true) == (Success, false) <==> CountMatching(rows, sessionId) == 1
    ensures IsEmptyOutcome(rows, sessionId, true) == (Success, true) <==>
      forall i :: 0 <= i < |rows| ==> !Matches(rows[i], sessionId)
    ensures IsEmptyOutcome(rows, sessionId, true).0.IsError() <==> CountMatching(rows, sessionId) > 1
    ensures CountMatching(rows, sessionId) > 1 ==>
      IsEmptyOutcome(rows, sessionId, true) == (Failure(TooManySessionsReturned), true)
  {
  }

  /** `isValid` turns a failed read of the editor or the project into an
      invalid session, and passes an `isEmpty` error through unchanged. */
  lemma IsValidReadFailure(schema: Schema, rows: Table, sessionId: string, c1: bool, c2: bool, c3: bool)
    requires WellFormedSchema(schema)
    ensures IsEmptyOutcome(rows, sessionId, c1).0.IsError() ==>
      IsValidOutcome(schema, rows, sessionId, c1, c2, c3) == (IsEmptyOutcome(rows, sessionId, c1).0, false)
    ensures var editorStatus := ReadPropertyOutcome(schema, rows, sessionId, Editor, c2).0;
      IsEmptyOutcome(rows, sessionId, c1) == (Success, false) && editorStatus.IsError() && !editorStatus.Thrown? ==>
        IsValidOutcome(schema, rows, sessionId, c1, c2, c3) == (Success, false)
    ensures var (editorStatus, editor) := ReadPropertyOutcome(schema, rows, sessionId, Editor, c2);
      var projectStatus := ReadPropertyOutcome(schema, rows, sessionId, Project, c3).0;
      && IsEmptyOutcome(rows, sessionId, c1) == (Success, false) && editorStatus == Success
      && (editor == WorkbenchRStudio || editor == "")
      && projectStatus.IsError() && !projectStatus.Thrown? ==>
        IsValidOutcome(schema, rows, sessionId, c1, c2, c3) == (Success, false)
    ensures !c2 && IsEmptyOutcome(rows, sessionId, c1) == (Success, false) ==>
      IsValidOutcome(schema, rows, sessionId, c1, c2, c3) == (Success, false)
  {
    ReadPropertyCases(schema, rows, sessionId, Editor, c2);
  }

  /** `isValid` only reports a valid session that has exactly one row. */
  lemma IsValidNeedsOneRow(schema: Schema, rows: Table, sessionId: string, c1: bool, c2: bool, c3: bool)
    requires WellFormedSchema(schema)
    requires IsValidOutcome(schema, rows, sessionId, c1, c2, c3) == (Success, true)
    ensures c1 && c2 && CountMatching(rows, sessionId) == 1
    ensures IsEmptyOutcome(rows, sessionId, c1) == (Success, false)
  {
  }

  /** With one row for the session and every column readable as text, a
      session is valid exactly when its editor is not RStudio's (neither
      "RStudio" nor unset) or its project is set. */
  lemma IsValidDecision(schema: Schema, rows: Table, sessionId: string)
    requires WellFormedSchema(schema) && CountMatching(rows, sessionId) == 1
    requires EditorColumn in schema.columns && ProjectColumn in schema.columns
    requires !CellOf(FirstMatching(rows, sessionId), EditorColumn).Int?
    requires !CellOf(FirstMatching(rows, sessionId), ProjectColumn).Int?
    ensures var editor := AsString(CellOf(FirstMatching(rows, sessionId), EditorColumn)).value;
      var project := AsString(CellOf(FirstMatching(rows, sessionId), ProjectColumn)).value;
      IsValidOutcome(schema, rows, sessionId, true, true, true) ==
        (Success, !(editor == WorkbenchRStudio || editor == "") || project != "")
  {
    ReadPropertyCases(schema, rows, sessionId, Editor, true);
    ReadPropertyCases(schema, rows, sessionId, Project, true);
  }
}
