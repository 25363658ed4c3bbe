/** The storage interface every active-session backend implements
    (`IActiveSessionStorage`): its error vocabulary, the default `isValid`
    and `computeSuspendSize`, and the property-name/file-name table of the
    file backend. */
module ActiveSessionStorage {
  import opened Wrappers
  import opened SortedMap

  /** The error codes the database backend reports. */
  datatype ErrorCode = ConnectionFailed | DBError | SessionNotFound | TooManySessionsReturned

  /** What an operation returns: `Success()`, an `Error` value, or a C++
      exception that escapes the operation. */
  datatype Status = Success | Failure(code: ErrorCode) | Thrown {
    predicate IsError() { !Success? }
  }

  /** The default `isValid`: it asks `isEmpty` and reports the negation.
      `isEmptyResult` is what the backend's `isEmpty` returned (status and
      flag); `prior` is the caller's flag, which an error leaves untouched. */
  function DefaultIsValid(isEmptyResult: (Status, bool), prior: bool): (r: (Status, bool))
    ensures r.0 == isEmptyResult.0
    ensures r.0.IsError() ==> r.1 == prior
    ensures r.0.Success? ==> (r.1 <==> !isEmptyResult.1)
  {
    if isEmptyResult.0.IsError() then (isEmptyResult.0, prior)
    else (Success, !isEmptyResult.1)
  }

  /** Under the default, a session reported valid is one whose storage
      `isEmpty` found to exist. */
  lemma DefaultValidImpliesNotEmpty(isEmptyResult: (Status, bool), prior: bool)
    requires DefaultIsValid(isEmptyResult, prior) == (Success, true)
    ensures isEmptyResult == (Success, false)
  {
  }

  /** The default `computeSuspendSize`: backends that do not override it
      (the database one among them) report no suspended data. */
  function DefaultComputeSuspendSize(): (size: nat)
    ensures size == 0
  {
    0
  }

  /** `getPropertyFileName`: the file a property is stored in is its entry in
      the file backend's `fileNames` table, or the property name itself. */
  function PropertyFileName(fileNames: Entries, name: string): (f: string)
    ensures HasKey(fileNames, name) ==> Get(fileNames, name) == Some(f)
    ensures !HasKey(fileNames, name) ==> f == name
  {
    Get(fileNames, name).GetOr(name)
  }

  /** `getFileNameProperty`: the first property, in key order, whose file is
      `fileName`; a file name found nowhere in the table names itself. */
  function FileNameProperty(fileNames: Entries, fileName: string): (p: string)
  {
    if |fileNames| == 0 then fileName
    else if fileNames[0].1 == fileName then fileNames[0].0
    else FileNameProperty(fileNames[1..], fileName)
  }

  /** The entry `FileNameProperty` picks is the first one with that file name. */
  lemma {:induction false} FileNamePropertyFirstMatch(fileNames: Entries, fileName: string)
    ensures (exists i :: 0 <= i < |fileNames| && fileNames[i].1 == fileName) ==>
      exists i :: 0 <= i < |fileNames| && fileNames[i].1 == fileName &&
        FileNameProperty(fileNames, fileName) == fileNames[i].0 &&
        forall j :: 0 <= j < i ==> fileNames[j].1 != fileName
    ensures (forall i :: 0 <= i < |fileNames| ==> fileNames[i].1 != fileName) ==>
      FileNameProperty(fileNames, fileName) == fileName
  {
    if |fileNames| > 0 && fileNames[0].1 != fileName {
      var rest := fileNames[1..];
      FileNamePropertyFirstMatch(rest, fileName);
      if exists i :: 0 <= i < |fileNames| && fileNames[i].1 == fileName {
        var i :| 0 <= i < |fileNames| && fileNames[i].1 == fileName;
        assert rest[i - 1].1 == fileName;
        var k :| 0 <= k < |rest| && rest[k].1 == fileName &&
          FileNameProperty(rest, fileName) == rest[k].0 &&
          forall j :: 0 <= j < k ==> rest[j].1 != fileName;
        assert fileNames[k + 1] == rest[k];
        assert forall j :: 0 < j < k + 1 ==> fileNames[j] == rest[j - 1];
      }
      if forall i :: 0 <= i < |fileNames| ==> fileNames[i].1 != fileName {
        assert forall i :: 0 <= i < |rest| ==> rest[i] == fileNames[i + 1];
      }
    }
  }

  /** The search loop of `getFileNameProperty`, over the table in key order. */
  method GetFileNameProperty(fileNames: Entries, fileName: string) returns (p: string)
    ensures p == FileNameProperty(fileNames, fileName)
  {
    var i := 0;
    while i < |fileNames|
      invariant 0 <= i <= |fileNames|
      invariant FileNameProperty(fileNames, fileName) == FileNameProperty(fileNames[i..], fileName)
    {
      if fileNames[i].1 == fileName {
        return fileNames[i].0;
      }
      assert fileNames[i..][1..] == fileNames[i + 1..];
      i := i + 1;
    }
    return fileName;
  }

  /** No two properties share a file. */
  ghost predicate Injective(fileNames: Entries) {
    forall i, j :: 0 <= i < |fileNames| && 0 <= j < |fileNames| && i != j ==>
      fileNames[i].1 != fileNames[j].1
  }

  /** With an injective table, mapping a listed property to its file and back
      returns the property. */
  lemma FileNameRoundTrip(fileNames: Entries, name: string)
    requires Sorted(fileNames) && Injective(fileNames) && HasKey(fileNames, name)
    ensures FileNameProperty(fileNames, PropertyFileName(fileNames, name)) == name
  {
    var f := PropertyFileName(fileNames, name);
    var i :| 0 <= i < |fileNames| && fileNames[i] == (name, f);
    FileNamePropertyFirstMatch(fileNames, f);
    var k :| 0 <= k < |fileNames| && fileNames[k].1 == f &&
      FileNameProperty(fileNames, f) == fileNames[k].0 &&
      forall j :: 0 <= j < k ==> fileNames[j].1 != f;
    if k != i {
      assert fileNames[k].1 == fileNames[i].1;
    }
  }

  /** A property that is neither listed nor used as a file name maps to
      itself both ways. */
  lemma UnlistedRoundTrip(fileNames: Entries, name: string)
    requires !HasKey(fileNames, name)
    requires forall i :: 0 <= i < |fileNames| ==> fileNames[i].1 != name
    ensures FileNameProperty(fileNames, PropertyFileName(fileNames, name)) == name
  {
    FileNamePropertyFirstMatch(fileNames, name);
  }

  /** Every file name the table uses maps back to the property whose file it is. */
  lemma FileNameInverse(fileNames: Entries, fileName: string)
    requires Sorted(fileNames)
    requires exists i :: 0 <= i < |fileNames| && fileNames[i].1 == fileName
    ensures PropertyFileName(fileNames, FileNameProperty(fileNames, fileName)) == fileName
  {
    FileNamePropertyFirstMatch(fileNames, fileName);
    var k :| 0 <= k < |fileNames| && fileNames[k].1 == fileName &&
      FileNameProperty(fileNames, fileName) == fileNames[k].0 &&
      forall j :: 0 <= j < k ==> fileNames[j].1 != fileName;
    GetSorted(fileNames, k);
  }

  /** In a sorted table, looking up an entry's key finds that entry. */
  lemma {:induction false} GetSorted(m: Entries, k: nat)
    requires Sorted(m) && k < |m|
    ensures Get(m, m[k].0) == Some(m[k].1)
  {
    if k > 0 {
      LessIrreflexive(m[k].0);
      assert m[0].0 != m[k].0;
      assert m[1..][k - 1] == m[k];
      GetSorted(m[1..], k - 1);
    }
  }
}
