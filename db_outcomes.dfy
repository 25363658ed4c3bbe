/** What each operation of `DBActiveSessionStorage` returns and leaves in the
    table, as functions of the table before the call. The methods of the
    store are proved to compute exactly these; the properties of the store
    are proved about them. */
module DBOutcomes {
  import opened Wrappers
  import opened Text
  import opened SortedMap
  import opened ActiveSessionStorage
  import opened SessionColumns
  import opened SessionTable

  /** The acting system user: login name and numeric uid. */
  datatype User = User(name: string, uid: int)

  /** `getConnectionOrOverride`: an override connection is always there;
      otherwise the pool must hand out a connection within 500 ms, which
      `poolAcquired` reports. */
  predicate Connected(hasOverride: bool, poolAcquired: bool) {
    hasOverride || poolAcquired
  }

  // ---------------------------------------------------------------------
  // Reading cells

  /** `get<std::string>(column, "")`: NULL reads as the default "", an integer
      cell throws `std::bad_cast`. */
  function AsString(cell: Cell): Option<string> {
    match cell
    case Null => Some("")
    case Str(s) => Some(s)
    case Int(_) => None
  }

  /** `std::to_string(get<int>(column))`: only an integer cell can be read;
      NULL and text throw. */
  function AsIntString(cell: Cell): Option<string> {
    match cell
    case Int(n) => Some(IntToString(n))
    case _ => None
  }

  /** The map entry `populateMapWithRow` makes of one selected column, or
      `None` when reading it throws (the column is then skipped). The integer
      columns keep their names; the others are renamed by `propertyName`. */
  function ColumnEntry(column: (string, Cell)): Option<(string, string)> {
    if column.0 == UserIdColumn || column.0 == SuspendSizeColumn then
      match AsIntString(column.1)
      case Some(v) => Some((column.0, v))
      case None => None
    else
      match AsString(column.1)
      case Some(v) => Some((PropertyName(column.0), v))
      case None => None
  }

  /** `populateMapWithRow`: emplaces the entry of every readable column into
      `m`, in select-list order. */
  function Populate(m: Entries, row: SelectedRow): Entries
    decreases |row|
  {
    if |row| == 0 then m
    else
      var m' := match ColumnEntry(row[0]) case Some(e) => Emplace(m, e.0, e.1) case None => m;
      Populate(m', row[1..])
  }

  /** The value of the first readable column of `row` that populates key `k`. */
  function FirstEntry(row: SelectedRow, k: string): Option<string> {
    if |row| == 0 then None
    else match ColumnEntry(row[0])
      case Some(e) => if e.0 == k then Some(e.1) else FirstEntry(row[1..], k)
      case None => FirstEntry(row[1..], k)
  }

  // ---------------------------------------------------------------------
  // Operation outcomes

  /** `readProperty(name)`: the status and the value left in `*pValue`. */
  function ReadPropertyOutcome(schema: Schema, rows: Table, sessionId: string, name: string,
                               connected: bool): (Status, string)
    requires WellFormedSchema(schema)
  {
    if !connected then (Failure(ConnectionFailed), "")
    else match ExecSelect(schema, rows, sessionId, [ColumnName(name)])
      case None => (Failure(DBError), "")
      case Some(selected) =>
        if |selected| == 0 then (Failure(SessionNotFound), "")
        else
          var cell := selected[0][0].1;
          var value := if name != UserIdColumn then AsString(cell) else AsIntString(cell);
          if value.None? then (Thrown, "")
          else if |selected| > 1 then (Failure(TooManySessionsReturned), value.value)
          else (Success, value.value)
  }

  /** The select list of `readProperties(names)`: the names' columns, plus
      "project" again when the project property is asked for. */
  function SelectList(names: seq<string>): seq<string> {
    ColumnsOf(names) + if Project in names then [ProjectColumn] else []
  }

  /** `readProperties(names)`: the status and the map left in `*pValues`.
      `names` are the elements of the `std::set` in ascending order; the
      source dereferences the first without a check, so the set is non-empty. */
  function ReadPropertiesOutcome(schema: Schema, rows: Table, sessionId: string, names: seq<string>,
                                 connected: bool): (Status, Entries)
    requires |names| > 0
  {
    if !connected then (Failure(ConnectionFailed), [])
    else match ExecSelect(schema, rows, sessionId, SelectList(names))
      case None => (Failure(DBError), [])
      case Some(selected) =>
        if |selected| == 0 then (Failure(SessionNotFound), [])
        else
          var m := Populate([], selected[0]);
          if |selected| > 1 then (Failure(TooManySessionsReturned), m) else (Success, m)
  }

  /** `readProperties()`: every column, through the select list `*`. */
  function ReadAllPropertiesOutcome(schema: Schema, rows: Table, sessionId: string,
                                    connected: bool): (Status, Entries)
  {
    ReadPropertiesOutcome(schema, rows, sessionId, ["*"], connected)
  }

  /** `writeProperty(name, value)`: the status and the new table. */
  function WritePropertyOutcome(schema: Schema, users: seq<LicensedUser>, rows: Table, sessionId: string,
                                name: string, value: string, connected: bool): (Status, Table)
  {
    if !connected then (Failure(ConnectionFailed), rows)
    else match ExecUpdate(schema, users, rows, sessionId, [ColumnName(name)], [value], ["value", "id"])
      case None => (Failure(DBError), rows)
      case Some(updated) => (Success, updated.0)
  }

  /** The parameter names of the INSERT of `writeProperties`. */
  function InsertPlaceholders(columns: seq<string>): seq<string> {
    ["id", "user_name", "user_id"] + columns
  }

  /** `writeProperties(properties)`: one UPDATE of the converted values and,
      when it affects no row, one INSERT of a new row owned by the licensed
      user matching `user`. A conversion exception escapes before any
      statement runs. */
  function WritePropertiesOutcome(schema: Schema, users: seq<LicensedUser>, rows: Table, sessionId: string,
                                  user: User, properties: Entries, toIso: string -> IsoConversion,
                                  connected: bool): (Status, Table)
    requires |properties| > 0
  {
    if !connected then (Failure(ConnectionFailed), rows)
    else match ConvertedValues(properties, toIso)
      case None => (Thrown, rows)
      case Some(values) =>
        var columns := ColumnsOf(Keys(properties));
        match ExecUpdate(schema, users, rows, sessionId, columns, values, columns + [SessionIdColumn])
        case None => (Failure(DBError), rows)
        case Some(updated) =>
          if updated.1 > 0 then (Success, updated.0)
          else match ExecInsert(schema, users, updated.0, sessionId, user.name, user.uid,
                                columns, values, InsertPlaceholders(columns))
            case None => (Failure(DBError), updated.0)
            case Some(inserted) => (Success, inserted)
  }

  /** `destroy()`: removes every row of the session; removing none is no error.
      `executes` says whether the engine runs the DELETE; when it reports an
      error the store returns `DBError`. */
  function DestroyOutcome(rows: Table, sessionId: string, connected: bool, executes: bool): (Status, Table) {
    if !connected then (Failure(ConnectionFailed), rows)
    else if !executes then (Failure(DBError), rows)
    else (Success, ExecDelete(rows, sessionId).0)
  }

  /** `isEmpty()`: the status and the flag left in `*pIsEmpty`. */
  function IsEmptyOutcome(rows: Table, sessionId: string, connected: bool): (Status, bool) {
    if !connected then (Failure(ConnectionFailed), true)
    else
      var count := CountMatching(rows, sessionId);
      if count > 1 then (Failure(TooManySessionsReturned), true)
      else if count == 1 then (Success, false)
      else (Success, true)
  }

  /** `isValid()`: the status and the flag left in `*pValue`. Each of the three
      calls it makes acquires its own connection. */
  function IsValidOutcome(schema: Schema, rows: Table, sessionId: string,
                          connected1: bool, connected2: bool, connected3: bool): (Status, bool)
    requires WellFormedSchema(schema)
  {
    var (emptyStatus, isEmpty) := IsEmptyOutcome(rows, sessionId, connected1);
    if emptyStatus.IsError() then (emptyStatus, false)
    else if isEmpty then (Success, false)
    else
      var (editorStatus, editor) := ReadPropertyOutcome(schema, rows, sessionId, Editor, connected2);
      if editorStatus.Thrown? then (Thrown, false)
      else if editorStatus.IsError() then (Success, false)
      else if !(editor == WorkbenchRStudio || editor == "") then (Success, true)
      else
        var (projectStatus, project) := ReadPropertyOutcome(schema, rows, sessionId, Project, connected3);
        if projectStatus.Thrown? then (Thrown, false)
        else if projectStatus.IsError() then (Success, false)
        else (Success, project != "")
  }
}
