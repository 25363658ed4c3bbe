/** The scenarios of the store's test suite, over the table the suite
    creates: one licensed user (id 7) for the acting user and one more
    ("test2", uid 5002, id 8). */
module DBScenarios {
  import opened Wrappers
  import opened Text
  import opened SortedMap
  import opened SessionColumns
  import opened SessionTable
  import opened ActiveSessionStorage
  import opened DBOutcomes
  import opened DBProperties

  /** The columns of `active_session_metadata` the suite relies on. */
  const TestSchema := Schema(
    ["session_id", "user_id", "workbench", "created", "last_used", "activity_state", "label",
     "launch_parameters", "r_version", "r_version_label", "project", "suspend_size"],
    {"user_id", "suspend_size"},
    {"session_id", "user_id", "workbench", "created", "last_used", "activity_state", "label", "launch_parameters"})

  function TestUsers(user: User): seq<LicensedUser> {
    [LicensedUser(7, user.name, user.uid), LicensedUser(8, "test2", 5002)]
  }

  /** The suite's `initialProps`, in key order. */
  const InitialProps: Entries := [
    ("activity_state", "launching"), ("created", "2020-04-30T00:00:00.000Z"), ("editor", "RStudio"),
    ("label", "initial session"), ("last_used", "2020-04-30T00:00:00.000Z"), ("launch_parameters", "{}")]

  // ---------------------------------------------------------------------
  // Proof plumbing: facts about the suite's literal schema, properties and
  // initial row (TestColumnsNoStar, TestColumnsListed, PlainConversion,
  // InitialPropsPlain, InitialCellsText, SameCells, InitialRowColumn and the
  // like), each kept small so that the solver proves it cheaply. The test
  // scenarios themselves start at `SingleRow` below.
  // ---------------------------------------------------------------------

  lemma TestSchemaWellFormed()
    ensures WellFormedSchema(TestSchema)
  {
    TestColumnsDistinct();
    TestColumnsKeyed();
  }

  lemma TestColumnsDistinct()
    ensures Distinct(TestSchema.columns)
  {
  }

  lemma TestColumnsKeyed()
    ensures SessionIdColumn in TestSchema.columns && UserIdColumn in TestSchema.columns
    ensures "*" !in TestSchema.columns
    ensures TestSchema.intColumns <= ColumnSet(TestSchema) && TestSchema.notNull <= ColumnSet(TestSchema)
  {
    TestColumnsListed();
    TestColumnsNoStar();
  }

  /** No column is named `*`. */
  lemma TestColumnsNoStar()
    ensures "*" !in TestSchema.columns
  {
    var cs := TestSchema.columns;
    forall i | 0 <= i < |cs|
      ensures |cs[i]| > 1
    {
    }
  }

  /** The integer and NOT NULL columns are columns of the table. */
  lemma TestColumnsListed()
    ensures TestSchema.intColumns <= ColumnSet(TestSchema) && TestSchema.notNull <= ColumnSet(TestSchema)
  {
    var cs := TestSchema.columns;
    assert cs[0] == "session_id" && cs[1] == "user_id" && cs[2] == "workbench" && cs[3] == "created";
    assert cs[4] == "last_used" && cs[5] == "activity_state" && cs[6] == "label";
    assert cs[7] == "launch_parameters" && cs[11] == "suspend_size";
  }

  const InitialValues := ["launching", "2020-04-30T00:00:00.000Z", "RStudio", "initial session", "2020-04-30T00:00:00.000Z", "{}"]

  /** Properties that are not timestamps are stored unconverted. */
  lemma PlainConversion(properties: Entries, toIso: string -> IsoConversion, values: seq<string>)
    requires |values| == |properties|
    requires forall i :: 0 <= i < |properties| ==> !IsTimestampProperty(properties[i].0) && properties[i].1 == values[i]
    ensures ConvertedValues(properties, toIso) == Some(values)
  {
    forall i | 0 <= i < |properties|
      ensures ConvertProperty(properties[i].0, properties[i].1, toIso) == Some(values[i])
    {
    }
    var v := ConvertedValues(properties, toIso).value;
    assert |v| == |values|;
    forall i | 0 <= i < |v|
      ensures v[i] == values[i]
    {
    }
    assert v == values;
  }

  /** The initial properties are not timestamps, and their values in key order. */
  lemma InitialPropsPlain()
    ensures forall i :: 0 <= i < |InitialProps| ==>
      !IsTimestampProperty(InitialProps[i].0) && InitialProps[i].1 == InitialValues[i]
  {
    forall i | 0 <= i < |InitialProps|
      ensures !IsTimestampProperty(InitialProps[i].0)
    {
    }
  }

  lemma InitialPropsConvert(toIso: string -> IsoConversion)
    ensures ConvertedValues(InitialProps, toIso) == Some(InitialValues)
  {
    InitialPropsPlain();
    PlainConversion(InitialProps, toIso, InitialValues);
  }

  /** The columns `writeProperties` binds for `InitialProps`: "editor" is
      stored in "workbench". */
  const InitialColumns := ["activity_state", "created", "workbench", "label", "last_used", "launch_parameters"]

  lemma InitialColumnsOf()
    ensures ColumnsOf(Keys(InitialProps)) == InitialColumns
  {
    var cs := ColumnsOf(Keys(InitialProps));
    assert cs[0] == "activity_state" && cs[1] == "created" && cs[2] == "workbench";
    assert cs[3] == "label" && cs[4] == "last_used" && cs[5] == "launch_parameters";
  }

  const InitialCells: seq<Cell> := [Str("launching"), Str("2020-04-30T00:00:00.000Z"), Str("RStudio"),
                                    Str("initial session"), Str("2020-04-30T00:00:00.000Z"), Str("{}")]

  /** Values bound to text columns are stored as text. */
  lemma BindAllText(schema: Schema, columns: seq<string>, values: seq<string>)
    requires |columns| == |values| && forall i :: 0 <= i < |columns| ==> columns[i] !in schema.intColumns
    ensures BindAll(schema, columns, values).Some?
    ensures forall i :: 0 <= i < |columns| ==> BindAll(schema, columns, values).value[i] == Str(values[i])
  {
    forall i | 0 <= i < |columns|
      ensures Bind(schema, columns[i], values[i]) == Some(Str(values[i]))
    {
    }
  }

  lemma InitialCellsBound()
    ensures BindAll(TestSchema, InitialColumns, InitialValues) == Some(InitialCells)
  {
    BindAllText(TestSchema, InitialColumns, InitialValues);
    InitialCellsText();
    SameCells(BindAll(TestSchema, InitialColumns, InitialValues).value, InitialCells);
  }

  /** The initial cells are the initial values as text. */
  lemma InitialCellsText()
    ensures |InitialCells| == |InitialValues|
    ensures forall i :: 0 <= i < |InitialCells| ==> InitialCells[i] == Str(InitialValues[i])
  {
  }

  /** Cell sequences that agree element by element are equal. */
  lemma SameCells(a: seq<Cell>, b: seq<Cell>)
    requires |a| == |b| && forall i :: 0 <= i < |a| ==> a[i] == b[i]
    ensures a == b
  {
  }

  lemma InitialColumnsDistinct()
    ensures Distinct(InitialColumns) && Distinct(InitialColumns + [SessionIdColumn])
    ensures Distinct([SessionIdColumn, UserIdColumn] + InitialColumns)
    ensures Distinct(InitialPlaceholders())
    ensures forall c :: c in InitialColumns ==> c in TestSchema.columns
  {
  }

  function InitialPlaceholders(): seq<string> {
    InsertPlaceholders(InitialColumns)
  }

  /** The suite's acting user is the licensed user with id 7. */
  lemma CurrentUserId(user: User)
    requires !(user.name == "test2" && user.uid == 5002)
    ensures LicensedIdOf(TestUsers(user), user.name, user.uid) == Some(Int(7))
  {
    var users := TestUsers(user);
    assert LicensedIdOf(users[1..][1..], user.name, user.uid) == Some(Null);
    assert LicensedIdOf(users[1..], user.name, user.uid) == Some(Null);
  }

  /** The row the first `writeProperties(initialProps)` inserts. */
  function InitialRow(sessionId: string): Row {
    NewRow(TestSchema, sessionId, Int(7), InitialColumns, InitialCells)
  }

  /** A new row with non-NULL cells fills every NOT NULL column it names. */
  lemma NewRowComplete(schema: Schema, sessionId: string, idCell: Cell, columns: seq<string>, cells: seq<Cell>)
    requires |columns| == |cells| && Distinct([SessionIdColumn, UserIdColumn] + columns)
    requires idCell != Null && forall i :: 0 <= i < |cells| ==> cells[i] != Null
    requires schema.notNull <= ColumnSet(schema)
    requires forall c :: c in schema.notNull ==> c == SessionIdColumn || c == UserIdColumn || c in columns
    ensures forall c :: c in schema.notNull ==>
      c in NewRow(schema, sessionId, idCell, columns, cells) && NewRow(schema, sessionId, idCell, columns, cells)[c] != Null
  {
    NewRowContents(schema, sessionId, idCell, columns, cells);
  }

  lemma InitialPropsCoverNotNull()
    ensures forall c :: c in TestSchema.notNull ==> c == SessionIdColumn || c == UserIdColumn || c in InitialColumns
  {
  }

  lemma InitialCellsNotNull()
    ensures forall i :: 0 <= i < |InitialCells| ==> InitialCells[i] != Null
  {
  }

  lemma InitialRowComplete(sessionId: string)
    ensures forall c :: c in TestSchema.notNull ==> c in InitialRow(sessionId) && InitialRow(sessionId)[c] != Null
  {
    InitialColumnsDistinct();
    InitialPropsCoverNotNull();
    assert TestSchema.notNull <= ColumnSet(TestSchema);
    InitialCellsNotNull();
    NewRowComplete(TestSchema, sessionId, Int(7), InitialColumns, InitialCells);
  }

  lemma InitialUpdateNoRow(users: seq<LicensedUser>, sessionId: string)
    ensures ExecUpdate(TestSchema, users, [], sessionId, InitialColumns, InitialValues, InitialColumns + [SessionIdColumn]) ==
      Some(([], 0))
  {
    InitialColumnsDistinct();
    InitialCellsBound();
    UpdateEmptyTable(TestSchema, users, sessionId, InitialColumns, InitialValues, InitialColumns + [SessionIdColumn]);
  }

  /** An UPDATE that passes its checks changes nothing in an empty table. */
  lemma UpdateEmptyTable(schema: Schema, users: seq<LicensedUser>, sessionId: string,
                         columns: seq<string>, values: seq<string>, placeholders: seq<string>)
    requires |columns| == |values| && Distinct(columns) && Distinct(placeholders)
    requires (forall c :: c in columns ==> c in schema.columns) && BindAll(schema, columns, values).Some?
    ensures ExecUpdate(schema, users, [], sessionId, columns, values, placeholders) == Some(([], 0))
  {
  }

  /** The INSERT succeeds when its columns are distinct and known, its
      values bind, the owner is found, and the new row fills every NOT NULL
      column. */
  lemma InsertSucceeds(schema: Schema, users: seq<LicensedUser>, t: Table, sessionId: string, userName: string,
                       userId: int, columns: seq<string>, values: seq<string>, placeholders: seq<string>,
                       idCell: Cell, cells: seq<Cell>)
    requires |columns| == |values| && Distinct([SessionIdColumn, UserIdColumn] + columns) && Distinct(placeholders)
    requires forall c :: c in [SessionIdColumn, UserIdColumn] + columns ==> c in schema.columns
    requires BindAll(schema, columns, values) == Some(cells) && LicensedIdOf(users, userName, userId) == Some(idCell)
    requires forall c :: c in schema.notNull ==>
      c in NewRow(schema, sessionId, idCell, columns, cells) && NewRow(schema, sessionId, idCell, columns, cells)[c] != Null
    ensures ExecInsert(schema, users, t, sessionId, userName, userId, columns, values, placeholders) ==
      Some(t + [NewRow(schema, sessionId, idCell, columns, cells)])
  {
  }

  lemma InitialInsertRow(user: User, sessionId: string)
    requires !(user.name == "test2" && user.uid == 5002)
    ensures ExecInsert(TestSchema, TestUsers(user), [], sessionId, user.name, user.uid,
                       InitialColumns, InitialValues, InsertPlaceholders(InitialColumns)) == Some([InitialRow(sessionId)])
  {
    InitialColumnsDistinct();
    InitialCellsBound();
    CurrentUserId(user);
    InitialRowComplete(sessionId);
    InsertSucceeds(TestSchema, TestUsers(user), [], sessionId, user.name, user.uid,
                   InitialColumns, InitialValues, InsertPlaceholders(InitialColumns), Int(7), InitialCells);
    assert [] + [InitialRow(sessionId)] == [InitialRow(sessionId)];
  }

  /** Test "initial insert": the first `writeProperties(initialProps)` of a
      session inserts its row, owned by licensed user 7. */
  lemma InitialInsert(user: User, sessionId: string, toIso: string -> IsoConversion)
    requires !(user.name == "test2" && user.uid == 5002)
    ensures WritePropertiesOutcome(TestSchema, TestUsers(user), [], sessionId, user, InitialProps, toIso, true) ==
      (Success, [InitialRow(sessionId)])
  {
    InitialPropsConvert(toIso);
    InitialColumnsOf();
    InitialUpdateNoRow(TestUsers(user), sessionId);
    InitialInsertRow(user, sessionId);
  }

  /** The inserted row is the session's only row. */
  lemma InitialRowSession(sessionId: string)
    ensures Matches(InitialRow(sessionId), sessionId)
    ensures CountMatching([InitialRow(sessionId)], sessionId) == 1
    ensures FirstMatching([InitialRow(sessionId)], sessionId) == InitialRow(sessionId)
  {
    InitialColumnsDistinct();
    NewRowContents(TestSchema, sessionId, Int(7), InitialColumns, InitialCells);
  }

  /** The inserted row's owner and written properties. */
  lemma InitialRowStored(sessionId: string)
    ensures InitialRow(sessionId)[UserIdColumn] == Int(7)
    ensures InitialRow(sessionId)["workbench"] == Str("RStudio")
    ensures InitialRow(sessionId)["activity_state"] == Str("launching")
  {
    InitialRowOwner(sessionId);
    InitialRowWorkbench(sessionId);
    InitialRowActivity(sessionId);
  }

  lemma InitialRowOwner(sessionId: string)
    ensures UserIdColumn in InitialRow(sessionId) && InitialRow(sessionId)[UserIdColumn] == Int(7)
  {
    InitialColumnsDistinct();
    NewRowOwner(TestSchema, sessionId, Int(7), InitialColumns, InitialCells);
  }

  lemma InitialRowWorkbench(sessionId: string)
    ensures "workbench" in InitialRow(sessionId) && InitialRow(sessionId)["workbench"] == Str("RStudio")
  {
    InitialRowColumn(sessionId, 2);
    assert InitialColumns[2] == "workbench" && InitialCells[2] == Str("RStudio");
  }

  lemma InitialRowActivity(sessionId: string)
    ensures "activity_state" in InitialRow(sessionId) && InitialRow(sessionId)["activity_state"] == Str("launching")
  {
    InitialRowColumn(sessionId, 0);
    assert InitialColumns[0] == "activity_state" && InitialCells[0] == Str("launching");
  }

  /** Each written column of the inserted row holds its initial cell. */
  lemma InitialRowColumn(sessionId: string, j: nat)
    requires j < |InitialColumns|
    ensures InitialColumns[j] in InitialRow(sessionId) && InitialRow(sessionId)[InitialColumns[j]] == InitialCells[j]
  {
    InitialColumnsDistinct();
    NewRowAt(TestSchema, sessionId, Int(7), InitialColumns, InitialCells, j);
  }

  /** Columns the initial properties do not name are NULL. */
  lemma InitialRowUnset(sessionId: string, c: string)
    requires c in TestSchema.columns && c != SessionIdColumn && c != UserIdColumn && c !in InitialColumns
    ensures c in InitialRow(sessionId) && InitialRow(sessionId)[c] == Null
  {
    InitialColumnsDistinct();
    NewRowContents(TestSchema, sessionId, Int(7), InitialColumns, InitialCells);
    assert c in EmptyRow(TestSchema);
  }

  /** The columns the tests expect to stay NULL after the first write. */
  lemma UnwrittenColumns()
    ensures "r_version" in TestSchema.columns && "r_version" !in InitialColumns
    ensures "r_version_label" in TestSchema.columns && "r_version_label" !in InitialColumns
    ensures "project" in TestSchema.columns && "project" !in InitialColumns
  {
    assert TestSchema.columns[8] == "r_version" && TestSchema.columns[9] == "r_version_label";
    assert TestSchema.columns[10] == "project";
  }

  /** What the tests observe of the row `writeProperties(initialProps)`
      inserts. */
  ghost predicate LooksInitial(row: Row, sessionId: string) {
    && Matches(row, sessionId)
    && UserIdColumn in row && row[UserIdColumn] == Int(7)
    && "workbench" in row && row["workbench"] == Str("RStudio")
    && "activity_state" in row && row["activity_state"] == Str("launching")
    && "r_version" in row && row["r_version"] == Null
    && "r_version_label" in row && row["r_version_label"] == Null
    && "project" in row && row["project"] == Null
  }

  lemma InitialRowLooksInitial(sessionId: string)
    ensures LooksInitial(InitialRow(sessionId), sessionId)
  {
    InitialRowSession(sessionId);
    InitialRowStored(sessionId);
    UnwrittenColumns();
    InitialRowUnset(sessionId, "r_version");
    InitialRowUnset(sessionId, "r_version_label");
    InitialRowUnset(sessionId, "project");
  }

  /** The facts about the suite's table the single-property scenarios use. */
  ghost predicate SuiteSchema(schema: Schema) {
    && WellFormedSchema(schema)
    && (forall c :: c in TextColumns ==> c in schema.columns && c !in schema.intColumns)
    && "non-existent" !in schema.columns
  }

  const TextColumns := ["workbench", "created", "last_used", "activity_state", "label", "launch_parameters",
                        "r_version", "r_version_label", "project"]

  lemma TextColumnsKnown()
    ensures TextColumns == TestSchema.columns[2..11]
  {
  }

  lemma TextColumnsText()
    ensures forall i :: 0 <= i < |TextColumns| ==> TextColumns[i] != "user_id" && TextColumns[i] != "suspend_size"
  {
  }

  lemma TestSchemaIsSuite()
    ensures SuiteSchema(TestSchema)
  {
    TestSchemaWellFormed();
    TextColumnsFit();
    NonexistentUnknown();
  }

  /** Each text column of the suite is a column of the table and not an
      integer one. */
  lemma TextColumnsFit()
    ensures forall c :: c in TextColumns ==> c in TestSchema.columns && c !in TestSchema.intColumns
  {
    TextColumnsKnown();
    TextColumnsText();
    forall i | 0 <= i < |TextColumns|
      ensures TextColumns[i] in TestSchema.columns && TextColumns[i] !in TestSchema.intColumns
    {
      assert TextColumns[i] == TestSchema.columns[i + 2];
    }
  }

  lemma NonexistentUnknown()
    ensures "non-existent" !in TestSchema.columns
  {
  }

  // ---------------------------------------------------------------------
  // The test scenarios
  // ---------------------------------------------------------------------

  /** A one-row table holding the session's row. */
  lemma SingleRow(row: Row, sessionId: string)
    requires Matches(row, sessionId)
    ensures CountMatching([row], sessionId) == 1 && FirstMatching([row], sessionId) == row
  {
  }

  /** Test "initial insert": the editor reads back. */
  lemma InitialReadEditor(schema: Schema, row: Row, sessionId: string)
    requires SuiteSchema(schema) && LooksInitial(row, sessionId)
    ensures ReadPropertyOutcome(schema, [row], sessionId, "editor", true) == (Success, "RStudio")
  {
    SingleRow(row, sessionId);
    assert ColumnName("editor") == TextColumns[0];
    ReadPropertyCases(schema, [row], sessionId, "editor", true);
  }

  /** Test "initial insert": the owner reads as "7". */
  lemma InitialReadOwner(schema: Schema, row: Row, sessionId: string)
    requires SuiteSchema(schema) && LooksInitial(row, sessionId)
    ensures ReadPropertyOutcome(schema, [row], sessionId, "user_id", true) == (Success, "7")
  {
    SingleRow(row, sessionId);
    ReadPropertyCases(schema, [row], sessionId, "user_id", true);
    assert IntToString(7) == "7";
  }

  /** Test "initial insert": a property never written reads as "". */
  lemma InitialReadUnset(schema: Schema, row: Row, sessionId: string)
    requires SuiteSchema(schema) && LooksInitial(row, sessionId)
    ensures ReadPropertyOutcome(schema, [row], sessionId, "r_version", true) == (Success, "")
  {
    SingleRow(row, sessionId);
    assert TextColumns[6] == "r_version";
    ReadPropertyCases(schema, [row], sessionId, "r_version", true);
  }

  /** Test "initial insert": a name that is no column is a database error. */
  lemma ReadNonColumn(schema: Schema, rows: Table, sessionId: string)
    requires SuiteSchema(schema)
    ensures ReadPropertyOutcome(schema, rows, sessionId, "non-existent", true) == (Failure(DBError), "")
  {
    assert ColumnName("non-existent") == "non-existent";
    ReadPropertyCases(schema, rows, sessionId, "non-existent", true);
  }

  /** Test "update individually": a NULL property is assigned and reads back. */
  lemma UpdateRVersion(schema: Schema, users: seq<LicensedUser>, row: Row, sessionId: string)
    requires SuiteSchema(schema) && LooksInitial(row, sessionId)
    ensures var r := WritePropertyOutcome(schema, users, [row], sessionId, "r_version", "4.0.0", true);
      r.0 == Success && ReadPropertyOutcome(schema, r.1, sessionId, "r_version", true) == (Success, "4.0.0")
  {
    SingleRow(row, sessionId);
    assert TextColumns[6] == "r_version";
    WritePropertyAccepted(schema, users, [row], sessionId, "r_version", "4.0.0");
    WritePropertyThenRead(schema, users, [row], sessionId, "r_version", "4.0.0");
  }

  /** Test "update individually": ownership moves to licensed user 8. */
  lemma TransferToLicensedUser(schema: Schema, user: User, row: Row, sessionId: string)
    requires SuiteSchema(schema) && LooksInitial(row, sessionId)
    ensures var r := WritePropertyOutcome(schema, TestUsers(user), [row], sessionId, "user_id", "8", true);
      r.0 == Success && ReadPropertyOutcome(schema, r.1, sessionId, "user_id", true) == (Success, "8")
  {
    SingleRow(row, sessionId);
    assert ParseInt("8") == Some(8);
    assert Bind(schema, "user_id", "8") == Some(Int(8));
    assert TestUsers(user)[1] in TestUsers(user);
    assert LicensedId(TestUsers(user), Int(8));
    WritePropertyAccepted(schema, TestUsers(user), [row], sessionId, "user_id", "8");
    WritePropertyThenRead(schema, TestUsers(user), [row], sessionId, "user_id", "8");
    assert IntToString(8) == "8";
  }

  /** Test "ownership cannot be transferred to a non-existent user". */
  lemma TransferToUnknownUser(schema: Schema, user: User, row: Row, sessionId: string)
    requires SuiteSchema(schema) && LooksInitial(row, sessionId)
    ensures WritePropertyOutcome(schema, TestUsers(user), [row], sessionId, "user_id", "10", true) ==
      (Failure(DBError), [row])
  {
    SingleRow(row, sessionId);
    assert IntToString(10) == "10";
    IntToStringRoundTrip(10);
    WritePropertyForeignKey(schema, TestUsers(user), [row], sessionId, "10", 10);
  }

  /** The suite's `propList`, in set order. */
  const PropList := ["editor", "label", "last_used", "r_version", "r_version_label", "user_id"]

  /** Test "nonexistent session": a single read finds no session. */
  lemma NonexistentRead(schema: Schema, sessionId: string)
    requires SuiteSchema(schema)
    ensures ReadPropertyOutcome(schema, [], sessionId, "launch_parameters", true) == (Failure(SessionNotFound), "")
  {
    assert TextColumns[5] == "launch_parameters";
    ReadPropertyCases(schema, [], sessionId, "launch_parameters", true);
  }

  /** Test "nonexistent session": reading all properties finds no session
      and leaves the map empty. */
  lemma NonexistentReadAll(schema: Schema, sessionId: string)
    requires SuiteSchema(schema)
    ensures ReadAllPropertiesOutcome(schema, [], sessionId, true) == (Failure(SessionNotFound), [])
  {
    ReadAllSelectsEveryColumn(schema);
    ReadPropertiesCases(schema, [], sessionId, ["*"], true);
  }

  /** Test "nonexistent session": reading `propList` finds no session and
      leaves the map empty. */
  lemma NonexistentReadList(schema: Schema, sessionId: string)
    requires SuiteSchema(schema)
    ensures ReadPropertiesOutcome(schema, [], sessionId, PropList, true) == (Failure(SessionNotFound), [])
  {
    var items := SelectList(PropList);
    assert Project !in PropList;
    assert items == ["workbench", "label", "last_used", "r_version", "r_version_label", "user_id"];
    assert items[0] == TextColumns[0] && items[1] == TextColumns[4] && items[2] == TextColumns[2];
    assert items[3] == TextColumns[6] && items[4] == TextColumns[7];
    assert forall i :: 0 <= i < |items| ==> items[i] in schema.columns;
    ReadPropertiesCases(schema, [], sessionId, PropList, true);
  }

  /** Test "too few properties", with the test's own map: a `session_id`
      property makes the UPDATE bind `session_id` twice, which the engine
      of this model rejects before the INSERT is tried. */
  lemma TooFewProperties(schema: Schema, users: seq<LicensedUser>, rows: Table, sessionId: string,
                         user: User, toIso: string -> IsoConversion)
    ensures WritePropertiesOutcome(schema, users, rows, sessionId, user,
                                   [("r_version_label", "spicy r"), ("session_id", "test")], toIso, true) ==
      (Failure(DBError), rows)
  {
    var props := [("r_version_label", "spicy r"), ("session_id", "test")];
    var columns := ColumnsOf(Keys(props));
    assert columns[1] == SessionIdColumn;
    var placeholders := columns + [SessionIdColumn];
    assert placeholders[1] == placeholders[2];
    assert !Distinct(placeholders);
  }

  /** Test "too few properties", the failure it is about: a new session
      whose properties leave the NOT NULL `workbench` column unset is not
      inserted, and `writeProperties` fails with `DBError`. */
  lemma TooFewPropertiesMissingRequired(users: seq<LicensedUser>, rows: Table, sessionId: string,
                                        user: User, toIso: string -> IsoConversion)
    requires CountMatching(rows, sessionId) == 0
    ensures WritePropertiesOutcome(TestSchema, users, rows, sessionId, user,
                                   [("r_version_label", "spicy r")], toIso, true) ==
      (Failure(DBError), rows)
  {
    var props := [("r_version_label", "spicy r")];
    assert !IsTimestampProperty(props[0].0);
    assert ConvertedValues(props, toIso).Some?;
    assert ColumnsOf(Keys(props)) == ["r_version_label"];
    assert "workbench" in TestSchema.notNull;
    WritePropertiesMissingRequired(TestSchema, users, rows, sessionId, user, props, toIso, "workbench");
  }

  /** `writeProperty` of a text property on the session's only row sets
      that one cell. */
  lemma WriteTextProperty(schema: Schema, users: seq<LicensedUser>, row: Row, sessionId: string, name: string, value: string)
    requires SuiteSchema(schema) && Matches(row, sessionId) && ColumnName(name) in TextColumns
    ensures WritePropertyOutcome(schema, users, [row], sessionId, name, value, true) ==
      (Success, [row[ColumnName(name) := Str(value)]])
  {
    var c := ColumnName(name);
    assert c in schema.columns && c !in schema.intColumns && c != UserIdColumn;
    WritePropertyAccepted(schema, users, [row], sessionId, name, value);
    assert [c][1..] == [] && [value][1..] == [];
    assert BindAll(schema, [], []) == Some([]);
    assert [Str(value)] + [] == [Str(value)];
    assert BindAll(schema, [c], [value]) == Some([Str(value)]);
    assert Assign(row, [c], [Str(value)]) == Assign(row[c := Str(value)], [], []);
    var t' := WritePropertyOutcome(schema, users, [row], sessionId, name, value, true).1;
    assert t'[0] == Assign(row, [c], [Str(value)]);
    assert t' == [t'[0]];
  }

  /** Test "isValid is false for an R session without a project". */
  lemma IsValidInitial(schema: Schema, row: Row, sessionId: string)
    requires SuiteSchema(schema) && LooksInitial(row, sessionId)
    ensures IsValidOutcome(schema, [row], sessionId, true, true, true) == (Success, false)
  {
    SingleRow(row, sessionId);
    assert EditorColumn == TextColumns[0] && ProjectColumn == TextColumns[8];
    IsValidDecision(schema, [row], sessionId);
  }

  /** Test "isValid is true for an R session with a project": after
      `writeProperty("project", "none")`. */
  lemma IsValidWithProject(schema: Schema, users: seq<LicensedUser>, row: Row, sessionId: string)
    requires SuiteSchema(schema) && LooksInitial(row, sessionId)
    ensures var r := WritePropertyOutcome(schema, users, [row], sessionId, "project", "none", true);
      r.0 == Success && IsValidOutcome(schema, r.1, sessionId, true, true, true) == (Success, true)
  {
    assert EditorColumn == TextColumns[0] && ProjectColumn == TextColumns[8];
    WriteTextProperty(schema, users, row, sessionId, "project", "none");
    var row' := row["project" := Str("none")];
    SingleRow(row', sessionId);
    IsValidDecision(schema, [row'], sessionId);
  }

  /** Test "isValid is true for a VS Code session": an editor other than
      RStudio needs no project. */
  lemma IsValidOtherEditor(schema: Schema, users: seq<LicensedUser>, row: Row, sessionId: string)
    requires SuiteSchema(schema) && LooksInitial(row, sessionId)
    ensures var r := WritePropertyOutcome(schema, users, [row], sessionId, "editor", "VSCode", true);
      r.0 == Success && IsValidOutcome(schema, r.1, sessionId, true, true, true) == (Success, true)
  {
    assert EditorColumn == TextColumns[0] && ProjectColumn == TextColumns[8];
    WriteTextProperty(schema, users, row, sessionId, "editor", "VSCode");
    var row' := row["workbench" := Str("VSCode")];
    SingleRow(row', sessionId);
    IsValidDecision(schema, [row'], sessionId);
  }

  /** Test "destroy removes the session": the session is there, and after
      `destroy` `isEmpty` reports it gone. */
  lemma DestroyRemovesSession(row: Row, sessionId: string)
    requires LooksInitial(row, sessionId)
    ensures IsEmptyOutcome([row], sessionId, true) == (Success, false)
    ensures DestroyOutcome([row], sessionId, true, true).0 == Success
    ensures IsEmptyOutcome(DestroyOutcome([row], sessionId, true, true).1, sessionId, true) == (Success, true)
  {
    SingleRow(row, sessionId);
    DestroyEmpties([row], sessionId);
  }

  /** Test "initial insert", reading the one-element set {"user_id"}: the map
      holds exactly the owner's id. */
  lemma InitialReadOwnerSet(schema: Schema, row: Row, sessionId: string)
    requires SuiteSchema(schema) && LooksInitial(row, sessionId)
    ensures ReadPropertiesOutcome(schema, [row], sessionId, ["user_id"], true) == (Success, [("user_id", "7")])
  {
    SingleRow(row, sessionId);
    assert Project !in ["user_id"];
    assert SelectList(["user_id"]) == ["user_id"];
    assert ["user_id"][1..] == [];
    assert ExpandSelectList(schema, []) == Some([]);
    assert UserIdColumn in schema.columns && UserIdColumn != "*";
    assert ["user_id"] + [] == ["user_id"];
    assert ExpandSelectList(schema, ["user_id"]) == Some(["user_id"]);
    var selected := ProjectRow(row, ["user_id"]);
    assert selected == [("user_id", Int(7))];
    assert SelectMatching([row], sessionId, ["user_id"]) == [selected];
    assert IntToString(7) == "7";
    assert ColumnEntry(selected[0]) == Some(("user_id", "7"));
    assert selected[1..] == [];
    assert Populate([], selected) == Populate(Emplace([], "user_id", "7"), []);
  }
}
