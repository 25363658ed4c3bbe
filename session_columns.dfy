/** The pure helpers of the database session store: the translation between
    property names and column names, the SQL list builders, and the
    normalisation of timestamp properties. */
module SessionColumns {
  import opened Wrappers
  import opened Text
  import opened SortedMap

  // Property names defined by `ActiveSession` (RActiveSessions.hpp is not part
  // of this model; "editor" and "project" are the names the tests use).
  const Editor := "editor"
  const Project := "project"
  const ProjectId := "project_id"
  const LastResumed := "last_resumed"
  const SuspendTimestamp := "suspend_timestamp"
  /** The editor value of an RStudio (R) session. */
  const WorkbenchRStudio := "RStudio"

  // Table and column names of the store.
  const TableName := "active_session_metadata"
  const SessionIdColumn := "session_id"
  const UserIdColumn := "user_id"
  const SuspendSizeColumn := "suspend_size"
  const EditorColumn := "workbench"
  const ProjectColumn := "project"

  /** `columnName`: the column a property is stored in. */
  function ColumnName(property: string): string {
    if property == Editor then EditorColumn
    else if property == ProjectId then ProjectColumn
    else property
  }

  /** `propertyName`: the property a column is read back as. */
  function PropertyName(column: string): string {
    if column == EditorColumn then Editor else column
  }

  /** A property written to its column reads back under its own name exactly
      when it is neither the project id (which comes back as "project") nor a
      property literally named "workbench" (which comes back as the editor). */
  lemma PropertyColumnRoundTrip(property: string)
    ensures PropertyName(ColumnName(property)) == property <==>
      property != ProjectId && property != EditorColumn
    ensures PropertyName(ColumnName(Editor)) == Editor
  {
  }

  /** A column read as a property and mapped back names the same column
      except for the columns named like the two renamed properties. */
  lemma ColumnPropertyRoundTrip(column: string)
    ensures ColumnName(PropertyName(column)) == column <==>
      column != Editor && column != ProjectId
  {
  }

  /** The only properties that share a column: the editor with a property
      named "workbench", and the project id with "project". */
  lemma ColumnNameCollisions(p: string, q: string)
    requires p != q && ColumnName(p) == ColumnName(q)
    ensures (p == Editor && q == EditorColumn) || (p == EditorColumn && q == Editor) ||
            (p == ProjectId && q == ProjectColumn) || (p == ProjectColumn && q == ProjectId)
  {
  }

  // ---------------------------------------------------------------------
  // SQL list builders

  /** The column names of `names`, each preceded by `prefix`. */
  function PrefixedColumns(names: seq<string>, prefix: string): (cs: seq<string>)
    ensures |cs| == |names|
  {
    if |names| == 0 then [] else [prefix + ColumnName(names[0])] + PrefixedColumns(names[1..], prefix)
  }

  /** The column names of `names`, in order. */
  function ColumnsOf(names: seq<string>): (cs: seq<string>)
    ensures |cs| == |names| && forall i :: 0 <= i < |names| ==> cs[i] == ColumnName(names[i])
  {
    if |names| == 0 then [] else [ColumnName(names[0])] + ColumnsOf(names[1..])
  }

  /** Without a prefix, the prefixed column names are the column names. */
  lemma {:induction false} ColumnsOfUnprefixed(names: seq<string>)
    ensures PrefixedColumns(names, "") == ColumnsOf(names)
  {
    if |names| > 0 {
      assert "" + ColumnName(names[0]) == ColumnName(names[0]);
      ColumnsOfUnprefixed(names[1..]);
    }
  }

  /** The `std::accumulate` left fold the builders share: each further name
      appends `sep`, `prefix` and its column name to the accumulator. */
  function AccumulateColumns(acc: string, rest: seq<string>, sep: string, prefix: string): string
    decreases |rest|
  {
    if |rest| == 0 then acc
    else AccumulateColumns(acc + sep + (prefix + ColumnName(rest[0])), rest[1..], sep, prefix)
  }

  lemma AppendAssoc(a: seq<string>, b: seq<string>, c: seq<string>)
    ensures a + b + c == a + (b + c)
  {
  }

  /** The fold of the builders is a join of the prefixed column names. */
  lemma {:induction false} AccumulateIsJoin(parts: seq<string>, rest: seq<string>, sep: string, prefix: string)
    requires |parts| > 0
    ensures AccumulateColumns(Join(parts, sep), rest, sep, prefix) ==
      Join(parts + PrefixedColumns(rest, prefix), sep)
    decreases |rest|
  {
    if |rest| == 0 {
      assert parts + PrefixedColumns(rest, prefix) == parts;
    } else {
      var c := prefix + ColumnName(rest[0]);
      var tail := PrefixedColumns(rest[1..], prefix);
      calc {
        AccumulateColumns(Join(parts, sep), rest, sep, prefix);
        AccumulateColumns(Join(parts, sep) + sep + c, rest[1..], sep, prefix);
        { JoinSnoc(parts, c, sep); }
        AccumulateColumns(Join(parts + [c], sep), rest[1..], sep, prefix);
        { AccumulateIsJoin(parts + [c], rest[1..], sep, prefix); }
        Join(parts + [c] + tail, sep);
        { assert PrefixedColumns(rest, prefix) == [c] + tail;
          AppendAssoc(parts, [c], tail); }
        Join(parts + PrefixedColumns(rest, prefix), sep);
      }
    }
  }

  /** `getPropNamesSql`: the column list of an INSERT. The source dereferences
      the first element without a check, so an empty list is excluded. */
  function PropNamesSql(names: seq<string>): (sql: string)
    requires |names| > 0
    ensures sql == Join(PrefixedColumns(names, ""), ", ")
  {
    assert "" + ColumnName(names[0]) == ColumnName(names[0]);
    AccumulateIsJoin([ColumnName(names[0])], names[1..], ", ", "");
    assert [ColumnName(names[0])] + PrefixedColumns(names[1..], "") == PrefixedColumns(names, "");
    AccumulateColumns(ColumnName(names[0]), names[1..], ", ", "")
  }

  /** `getVarNamesSql`: the placeholder list of an INSERT, one `:column` per name. */
  function VarNamesSql(names: seq<string>): (sql: string)
    requires |names| > 0
    ensures sql == Join(PrefixedColumns(names, ":"), ", ")
  {
    AccumulateIsJoin([":" + ColumnName(names[0])], names[1..], ", ", ":");
    assert [":" + ColumnName(names[0])] + PrefixedColumns(names[1..], ":") == PrefixedColumns(names, ":");
    AccumulateColumns(":" + ColumnName(names[0]), names[1..], ", ", ":")
  }

  /** `getKeyString`: the column names of a property map's keys, in key order. */
  function KeyString(properties: Entries): (sql: string)
    requires |properties| > 0
    ensures sql == Join(PrefixedColumns(Keys(properties), ""), ", ")
  {
    var keys := Keys(properties);
    assert "" + ColumnName(keys[0]) == ColumnName(keys[0]);
    AccumulateIsJoin([ColumnName(keys[0])], keys[1..], ", ", "");
    assert [ColumnName(keys[0])] + PrefixedColumns(keys[1..], "") == PrefixedColumns(keys, "");
    assert Keys(properties[1..]) == keys[1..];
    AccumulateColumns(ColumnName(properties[0].0), Keys(properties[1..]), ", ", "")
  }

  /** `getColumnNameList`: the select list for a set of property names given
      in ascending order. */
  function ColumnNameList(names: seq<string>): (sql: string)
    requires |names| > 0
    ensures sql == Join(PrefixedColumns(names, ""), ", ")
  {
    assert "" + ColumnName(names[0]) == ColumnName(names[0]);
    AccumulateIsJoin([ColumnName(names[0])], names[1..], ", ", "");
    assert [ColumnName(names[0])] + PrefixedColumns(names[1..], "") == PrefixedColumns(names, "");
    AccumulateColumns(ColumnName(names[0]), names[1..], ", ", "")
  }

  // ---------------------------------------------------------------------
  // Timestamp normalisation

  /** What boost's `from_iso_extended_string` followed by `to_iso_string`
      does with a string: the basic ISO form, a `std::bad_cast`, or another
      exception (which `convertTimestampProperty` does not catch). */
  datatype IsoConversion = Converted(iso: string) | BadCast | OtherException

  /** `convertTimestampProperty`: rewrites an extended ISO timestamp in the
      basic form; `None` when the conversion throws past the function. */
  function ConvertTimestampProperty(extTime: string, toIso: string -> IsoConversion): (r: Option<string>)
  {
    if |extTime| == 0 || !Contains(extTime, "-") then Some(extTime)
    else if extTime == "not-a-date-time" then Some("")
    else match toIso(extTime)
      case Converted(iso) => Some(iso)
      case BadCast => Some("")
      case OtherException => None
  }

  /** The cases of `convertTimestampProperty`: strings without a '-' are left
      alone, the "not-a-date-time" marker and unparseable strings become "",
      and only a non-`bad_cast` failure escapes. */
  lemma ConvertTimestampCases(extTime: string, toIso: string -> IsoConversion)
    ensures !Contains(extTime, "-") ==> ConvertTimestampProperty(extTime, toIso) == Some(extTime)
    ensures extTime == "not-a-date-time" ==> ConvertTimestampProperty(extTime, toIso) == Some("")
    ensures Contains(extTime, "-") && extTime != "not-a-date-time" ==>
      (ConvertTimestampProperty(extTime, toIso).None? <==> toIso(extTime).OtherException?) &&
      (toIso(extTime).BadCast? ==> ConvertTimestampProperty(extTime, toIso) == Some("")) &&
      (toIso(extTime).Converted? ==> ConvertTimestampProperty(extTime, toIso) == Some(toIso(extTime).iso))
  {
    if extTime == "not-a-date-time" {
      assert OccursAt(extTime, "-", 3);
    }
  }

  /** Normalising twice is normalising once, provided the converter writes
      basic-form strings (which contain no '-'). */
  lemma ConvertTimestampIdempotent(extTime: string, toIso: string -> IsoConversion)
    requires forall t :: toIso(t).Converted? ==> !Contains(toIso(t).iso, "-")
    requires ConvertTimestampProperty(extTime, toIso).Some?
    ensures ConvertTimestampProperty(ConvertTimestampProperty(extTime, toIso).value, toIso) ==
      ConvertTimestampProperty(extTime, toIso)
  {
    var once := ConvertTimestampProperty(extTime, toIso).value;
    if Contains(extTime, "-") && extTime != "not-a-date-time" {
      assert toIso(extTime).Converted? ==> !Contains(toIso(extTime).iso, "-");
    }
  }

  /** The properties whose values are normalised on write. */
  predicate IsTimestampProperty(name: string) {
    name == LastResumed || name == SuspendTimestamp
  }

  /** `convertProperty`: the value to store for a property; the name is never
      changed. */
  function ConvertProperty(name: string, value: string, toIso: string -> IsoConversion): (r: Option<string>)
    ensures !IsTimestampProperty(name) ==> r == Some(value)
    ensures IsTimestampProperty(name) ==> r == ConvertTimestampProperty(value, toIso)
  {
    if IsTimestampProperty(name) then ConvertTimestampProperty(value, toIso) else Some(value)
  }

  /** The converted values of all properties in key order, or `None` when one
      conversion throws. */
  function ConvertedValues(properties: Entries, toIso: string -> IsoConversion): (r: Option<seq<string>>)
    ensures r.Some? <==> forall i :: 0 <= i < |properties| ==>
      ConvertProperty(properties[i].0, properties[i].1, toIso).Some?
    ensures r.Some? ==> |r.value| == |properties| && forall i :: 0 <= i < |properties| ==>
      r.value[i] == ConvertProperty(properties[i].0, properties[i].1, toIso).value
  {
    if |properties| == 0 then Some([])
    else
      var rest := ConvertedValues(properties[1..], toIso);
      assert forall i :: 1 <= i < |properties| ==> properties[i] == properties[1..][i - 1];
      match ConvertProperty(properties[0].0, properties[0].1, toIso)
      case None => None
      case Some(v) => if rest.None? then None else Some([v] + rest.value)
  }

  /** One `column = :column ` item of an UPDATE's SET clause. */
  function SetItem(name: string): string {
    ColumnName(name) + " = :" + ColumnName(name) + " "
  }

  function SetItems(names: seq<string>): (items: seq<string>)
    ensures |items| == |names| && forall i :: 0 <= i < |names| ==> items[i] == SetItem(names[i])
  {
    if |names| == 0 then [] else [SetItem(names[0])] + SetItems(names[1..])
  }

  /** `getUpdateStringAndValues`: walks the properties in key order, pushing
      each name and its converted value, and builds the SET clause. `thrown`
      reports a conversion exception, which abandons the whole write. */
  method GetUpdateStringAndValues(properties: Entries, toIso: string -> IsoConversion)
    returns (setClause: string, names: seq<string>, values: seq<string>, thrown: bool)
    requires |properties| > 0
    ensures thrown <==> ConvertedValues(properties, toIso).None?
    ensures !thrown ==> names == Keys(properties) && values == ConvertedValues(properties, toIso).value
    ensures !thrown ==> setClause == Join(SetItems(Keys(properties)), ", ")
  {
    var first := ConvertProperty(properties[0].0, properties[0].1, toIso);
    if first.None? {
      ConvertedValuesFails(properties, toIso, 0);
      return "", [], [], true;
    }
    names := [properties[0].0];
    values := [first.value];
    setClause := SetItem(properties[0].0);
    thrown := false;
    ghost var keys := Keys(properties);
    ConvertedValuesSnoc(properties, toIso, 0, [], first.value);
    assert [] + [first.value] == values;
    var i := 1;
    while i < |properties|
      invariant 1 <= i <= |properties|
      invariant names == keys[..i]
      invariant ConvertedValues(properties[..i], toIso) == Some(values)
      invariant setClause == Join(SetItems(names), ", ")
    {
      var v := ConvertProperty(properties[i].0, properties[i].1, toIso);
      if v.None? {
        ConvertedValuesFails(properties, toIso, i);
        return setClause, names, values, true;
      }
      var name := properties[i].0;
      UpdateStringStep(properties, toIso, i, names, values, setClause, v.value);
      names := names + [name];
      values := values + [v.value];
      setClause := setClause + ", " + SetItem(name);
      i := i + 1;
    }
    assert keys[..i] == keys && properties[..i] == properties;
  }

  /** One step of `getUpdateStringAndValues` extends the names, the values
      and the SET clause by the next property. */
  lemma UpdateStringStep(properties: Entries, toIso: string -> IsoConversion, i: nat,
                         names: seq<string>, values: seq<string>, setClause: string, v: string)
    requires 1 <= i < |properties| && names == Keys(properties)[..i]
    requires ConvertedValues(properties[..i], toIso) == Some(values)
    requires setClause == Join(SetItems(names), ", ")
    requires ConvertProperty(properties[i].0, properties[i].1, toIso) == Some(v)
    ensures names + [properties[i].0] == Keys(properties)[..i + 1]
    ensures ConvertedValues(properties[..i + 1], toIso) == Some(values + [v])
    ensures setClause + ", " + SetItem(properties[i].0) == Join(SetItems(names + [properties[i].0]), ", ")
  {
    var name := properties[i].0;
    ConvertedValuesSnoc(properties, toIso, i, values, v);
    SetItemsSnoc(names, name);
    JoinSnoc(SetItems(names), SetItem(name), ", ");
    TakeSnoc(Keys(properties), i);
  }

  /** One failing conversion makes the whole conversion fail. */
  lemma ConvertedValuesFails(properties: Entries, toIso: string -> IsoConversion, i: nat)
    requires i < |properties| && ConvertProperty(properties[i].0, properties[i].1, toIso).None?
    ensures ConvertedValues(properties, toIso).None?
  {
  }

  /** Converting one more entry appends its converted value. */
  lemma ConvertedValuesSnoc(properties: Entries, toIso: string -> IsoConversion, i: nat,
                            values: seq<string>, v: string)
    requires i < |properties| && ConvertedValues(properties[..i], toIso) == Some(values)
    requires ConvertProperty(properties[i].0, properties[i].1, toIso) == Some(v)
    ensures ConvertedValues(properties[..i + 1], toIso) == Some(values + [v])
  {
    var p := properties[..i + 1];
    assert forall j :: 0 <= j < i ==> p[j] == properties[..i][j];
    var r := ConvertedValues(p, toIso);
    assert r.Some? && r.value == values + [v];
  }

  /** A prefix one longer is the prefix followed by the next element. */
  lemma TakeSnoc(s: seq<string>, i: nat)
    requires i < |s|
    ensures s[..i + 1] == s[..i] + [s[i]]
  {
  }

  lemma SetItemsSnoc(names: seq<string>, name: string)
    ensures SetItems(names + [name]) == SetItems(names) + [SetItem(name)]
  {
  }

  /** The conversion loop of the INSERT branch of `writeProperties`: the same
      names and values as the UPDATE, recomputed. */
  method ConvertAllProperties(properties: Entries, toIso: string -> IsoConversion)
    returns (names: seq<string>, values: seq<string>, thrown: bool)
    ensures thrown <==> ConvertedValues(properties, toIso).None?
    ensures !thrown ==> names == Keys(properties) && values == ConvertedValues(properties, toIso).value
  {
    names, values := [], [];
    for i := 0 to |properties|
      invariant |names| == i && forall j :: 0 <= j < i ==> names[j] == properties[j].0
      invariant |values| == i && forall j :: 0 <= j < i ==>
        ConvertProperty(properties[j].0, properties[j].1, toIso) == Some(values[j])
    {
      var v := ConvertProperty(properties[i].0, properties[i].1, toIso);
      if v.None? {
        return names, values, true;
      }
      names := names + [properties[i].0];
      values := values + [v.value];
    }
    thrown := false;
  }
}
