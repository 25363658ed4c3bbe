/** `DBActiveSessionStorage`: the property store of one session, kept in the
    `active_session_metadata` table. Every method first acquires a connection
    and then issues its statements against the table. */
module DBStorage {
  import opened Wrappers
  import opened Text
  import opened SortedMap
  import opened ActiveSessionStorage
  import opened SessionColumns
  import opened SessionTable
  import opened DBOutcomes

  /** The database: the session table, which the store changes, and the
      licensed users it refers to. */
  class Database {
    const schema: Schema
    const users: seq<LicensedUser>
    var rows: Table

    ghost predicate Valid()
      reads this
    {
      WellFormedSchema(schema) && TableFits(schema, users, rows)
    }

    constructor (schema: Schema, users: seq<LicensedUser>, rows: Table)
      requires WellFormedSchema(schema) && TableFits(schema, users, rows)
      ensures Valid()
      ensures this.schema == schema && this.users == users && this.rows == rows
    {
      this.schema := schema;
      this.users := users;
      this.rows := rows;
    }
  }

  class DBActiveSessionStorage {
    const sessionId: string
    const user: User
    /** The database every connection, pooled or override, reaches. */
    const db: Database
    /** Whether an override connection was given to the constructor. */
    const hasOverride: bool

    constructor (sessionId: string, user: User, db: Database)
      ensures this.sessionId == sessionId && this.user == user && this.db == db && !hasOverride
    {
      this.sessionId := sessionId;
      this.user := user;
      this.db := db;
      hasOverride := false;
    }

    /** The constructor taking an override connection. */
    constructor WithOverride(sessionId: string, user: User, db: Database)
      ensures this.sessionId == sessionId && this.user == user && this.db == db && hasOverride
    {
      this.sessionId := sessionId;
      this.user := user;
      this.db := db;
      hasOverride := true;
    }

    /** `getConnectionOrOverride`. */
    method GetConnectionOrOverride(poolAcquired: bool) returns (status: Status)
      ensures status.Success? <==> Connected(hasOverride, poolAcquired)
      ensures !status.Success? ==> status == Failure(ConnectionFailed)
    {
      if !hasOverride {
        if !poolAcquired {
          return Failure(ConnectionFailed);
        }
        return Success;
      }
      return Success;
    }

    method ReadProperty(name: string, poolAcquired: bool) returns (status: Status, value: string)
      requires db.Valid()
      ensures (status, value) == ReadPropertyOutcome(db.schema, db.rows, sessionId, name, Connected(hasOverride, poolAcquired))
    {
      value := "";
      status := GetConnectionOrOverride(poolAcquired);
      if !status.Success? {
        return;
      }
      var selected := ExecSelect(db.schema, db.rows, sessionId, [ColumnName(name)]);
      if selected.None? {
        return Failure(DBError), value;
      }
      var rowset: seq<SelectedRow> := selected.value;
      if |rowset| == 0 {
        return Failure(SessionNotFound), value;
      }
      var cell := rowset[0][0].1;
      var read := if name != UserIdColumn then AsString(cell) else AsIntString(cell);
      if read.None? {
        return Thrown, value;
      }
      value := read.value;
      if |rowset| > 1 {
        return Failure(TooManySessionsReturned), value;
      }
      return Success, value;
    }

    /** `readProperties(names)`; `names` lists the set's elements in order. */
    method ReadProperties(names: seq<string>, poolAcquired: bool) returns (status: Status, values: Entries)
      requires |names| > 0
      ensures (status, values) == ReadPropertiesOutcome(db.schema, db.rows, sessionId, names, Connected(hasOverride, poolAcquired))
    {
      values := [];
      status := GetConnectionOrOverride(poolAcquired);
      if !status.Success? {
        return;
      }
      var columns := ColumnsOf(names);
      if Project in names {
        columns := columns + [ProjectColumn];
      }
      assert columns == SelectList(names);
      var selected := ExecSelect(db.schema, db.rows, sessionId, columns);
      if selected.None? {
        return Failure(DBError), values;
      }
      var rowset: seq<SelectedRow> := selected.value;
      if |rowset| == 0 {
        return Failure(SessionNotFound), values;
      }
      values := PopulateMapWithRow(rowset[0], values);
      if |rowset| > 1 {
        return Failure(TooManySessionsReturned), values;
      }
      return Success, values;
    }

    /** `readProperties()`: all columns. */
    method ReadAllProperties(poolAcquired: bool) returns (status: Status, values: Entries)
      ensures (status, values) == ReadAllPropertiesOutcome(db.schema, db.rows, sessionId, Connected(hasOverride, poolAcquired))
    {
      status, values := ReadProperties(["*"], poolAcquired);
    }

    method WriteProperty(name: string, value: string, poolAcquired: bool) returns (status: Status)
      requires db.Valid()
      modifies db
      ensures db.Valid()
      ensures (status, db.rows) ==
        WritePropertyOutcome(db.schema, db.users, old(db.rows), sessionId, name, value, Connected(hasOverride, poolAcquired))
    {
      status := GetConnectionOrOverride(poolAcquired);
      if !status.Success? {
        return;
      }
      var updated := ExecUpdate(db.schema, db.users, db.rows, sessionId, [ColumnName(name)], [value], ["value", "id"]);
      if updated.None? {
        return Failure(DBError);
      }
      UpdateKeepsFits(db.schema, db.users, db.rows, sessionId, [ColumnName(name)], [value], ["value", "id"]);
      db.rows := updated.value.0;
      return Success;
    }

    method WriteProperties(properties: Entries, toIso: string -> IsoConversion, poolAcquired: bool)
      returns (status: Status)
      requires db.Valid() && |properties| > 0
      modifies db
      ensures db.Valid()
      ensures (status, db.rows) == WritePropertiesOutcome(db.schema, db.users, old(db.rows), sessionId, user,
                                                          properties, toIso, Connected(hasOverride, poolAcquired))
    {
      status := GetConnectionOrOverride(poolAcquired);
      if !status.Success? {
        return;
      }
      var setClause, names, values, thrown := GetUpdateStringAndValues(properties, toIso);
      if thrown {
        return Thrown;
      }
      var columns := BindColumns(names);
      var placeholders := columns + [SessionIdColumn];
      var updated := ExecUpdate(db.schema, db.users, db.rows, sessionId, columns, values, placeholders);
      if updated.None? {
        return Failure(DBError);
      }
      UpdateKeepsFits(db.schema, db.users, db.rows, sessionId, columns, values, placeholders);
      db.rows := updated.value.0;
      if updated.value.1 == 0 {
        var insertNames, insertValues, insertThrown := ConvertAllProperties(properties, toIso);
        assert !insertThrown;
        var insertColumns := BindColumns(insertNames);
        var inserted := ExecInsert(db.schema, db.users, db.rows, sessionId, user.name, user.uid,
                                   insertColumns, insertValues, InsertPlaceholders(insertColumns));
        if inserted.None? {
          return Failure(DBError);
        }
        InsertKeepsFits(db.schema, db.users, db.rows, sessionId, user.name, user.uid,
                        insertColumns, insertValues, InsertPlaceholders(insertColumns));
        db.rows := inserted.value;
      }
      return Success;
    }

    /** `destroy`; `deleteExecutes` says whether the engine runs the DELETE. */
    method Destroy(poolAcquired: bool, deleteExecutes: bool) returns (status: Status)
      requires db.Valid()
      modifies db
      ensures db.Valid()
      ensures (status, db.rows) == DestroyOutcome(old(db.rows), sessionId, Connected(hasOverride, poolAcquired), deleteExecutes)
    {
      status := GetConnectionOrOverride(poolAcquired);
      if !status.Success? {
        return;
      }
      if !deleteExecutes {
        return Failure(DBError);
      }
      DeleteKeepsFits(db.schema, db.users, db.rows, sessionId);
      db.rows := ExecDelete(db.rows, sessionId).0;
      return Success;
    }

    /** `clearScratchPath`: the database store has no scratch path. */
    method ClearScratchPath() returns (status: Status)
      ensures status == Success
    {
      return Success;
    }

    /** `computeSuspendSize`: not overridden, so the interface default. */
    method ComputeSuspendSize() returns (size: nat)
      ensures size == DefaultComputeSuspendSize()
    {
      return DefaultComputeSuspendSize();
    }

    method IsEmpty(poolAcquired: bool) returns (status: Status, isEmpty: bool)
      ensures (status, isEmpty) == IsEmptyOutcome(db.rows, sessionId, Connected(hasOverride, poolAcquired))
    {
      isEmpty := true;
      status := GetConnectionOrOverride(poolAcquired);
      if !status.Success? {
        return;
      }
      var count := CountMatching(db.rows, sessionId);
      if count > 1 {
        return Failure(TooManySessionsReturned), isEmpty;
      } else if count == 1 {
        isEmpty := false;
      }
      return Success, isEmpty;
    }

    /** `isValid`; the three flags say whether each of the three connection
        requests (for `isEmpty` and the two property reads) succeeds. */
    method IsValid(pool1: bool, pool2: bool, pool3: bool) returns (status: Status, valid: bool)
      requires db.Valid()
      ensures (status, valid) == IsValidOutcome(db.schema, db.rows, sessionId,
        Connected(hasOverride, pool1), Connected(hasOverride, pool2), Connected(hasOverride, pool3))
    {
      valid := false;
      var emptyStatus, isEmpty := IsEmpty(pool1);
      if emptyStatus.IsError() {
        return emptyStatus, valid;
      }
      if isEmpty {
        return Success, valid;
      }
      var editorStatus, editor := ReadProperty(Editor, pool2);
      if editorStatus.Thrown? {
        return Thrown, valid;
      }
      if editorStatus.IsError() {
        return Success, valid;
      }
      var isRSession := editor == WorkbenchRStudio || editor == "";
      if !isRSession {
        return Success, true;
      }
      var projectStatus, project := ReadProperty(Project, pool3);
      if projectStatus.Thrown? {
        return Thrown, valid;
      }
      if projectStatus.IsError() {
        return Success, valid;
      }
      return Success, project != "";
    }
  }

  /** `populateMapWithRow`: emplaces each column of the row into the map. */
  method PopulateMapWithRow(row: SelectedRow, target: Entries) returns (result: Entries)
    ensures result == Populate(target, row)
  {
    result := target;
    var i := 0;
    while i < |row|
      invariant 0 <= i <= |row|
      invariant Populate(result, row[i..]) == Populate(target, row)
    {
      assert row[i..][1..] == row[i + 1..];
      match ColumnEntry(row[i]) {
        case Some(e) => result := Emplace(result, e.0, e.1);
        case None =>
      }
      i := i + 1;
    }
  }

  /** The bind loops of `writeProperties`: parameter `i` is named after the
      column of `names[i]`. */
  method BindColumns(names: seq<string>) returns (columns: seq<string>)
    ensures columns == ColumnsOf(names)
  {
    columns := [];
    for i := 0 to |names|
      invariant |columns| == i && forall j :: 0 <= j < i ==> columns[j] == ColumnName(names[j])
    {
      columns := columns + [ColumnName(names[i])];
    }
  }
}
