/**
 * Record extraction of the bulk upload handler (`POST /clientes/upload`):
 * extension dispatch, CSV rows and TXT lines turned into users to insert,
 * and the rejection of a missing file, an unsupported format and an empty result.
 */
module Ingest {
  import opened Wrappers
  import opened JsText

  /** One user to insert, `{ username, role }`. */
  datatype Record = Record(username: string, role: string)

  /** A row as the CSV reader delivers it: header column name to cell text. */
  type Row = map<string, string>

  /** The uploaded file: its client-side name, its text, and the rows a CSV reading of it yields. */
  datatype UploadedFile = UploadedFile(originalName: string, text: string, rows: seq<Row>)

  /** Why an upload is answered with 400 before anything is inserted. */
  datatype Rejection = NoFile | UnsupportedFormat | NoValidData {
    function Message(): string {
      match this
      case NoFile => "No se subió ningún archivo."
      case UnsupportedFormat => "Formato de archivo no soportado. Use CSV o TXT."
      case NoValidData => "El archivo está vacío o no contiene datos válidos."
    }
  }

  /** The columns that may hold the username, highest priority first. */
  const UsernameAliases: seq<string> := ["username", "user", "name", "nombre"]

  const DefaultRole: string := "member"

  /** `row[key]` is truthy in JavaScript: the column is present and its text is not empty. */
  predicate Truthy(row: Row, key: string) {
    key in row && row[key] != ""
  }

  /** The position of the first alias whose column is truthy, or |aliases| when there is none. */
  function FirstTruthy(row: Row, aliases: seq<string>): (k: nat)
    ensures k <= |aliases|
    ensures forall j :: 0 <= j < k ==> !Truthy(row, aliases[j])
    ensures k < |aliases| ==> Truthy(row, aliases[k])
  {
    if aliases == [] then 0
    else if Truthy(row, aliases[0]) then 0
    else 1 + FirstTruthy(row, aliases[1..])
  }

  /** The first truthy alias is the one after a run of falsy ones. */
  lemma {:induction false} FirstTruthyAt(row: Row, aliases: seq<string>, k: nat)
    requires k < |aliases| && Truthy(row, aliases[k])
    requires forall j :: 0 <= j < k ==> !Truthy(row, aliases[j])
    ensures FirstTruthy(row, aliases) == k
  {
    if k > 0 {
      assert !Truthy(row, aliases[0]);
      forall j | 0 <= j < k - 1 ensures !Truthy(row, aliases[1..][j]) {
        assert aliases[1..][j] == aliases[j + 1];
      }
      FirstTruthyAt(row, aliases[1..], k - 1);
    }
  }

  /** `row[a0] || row[a1] || ...` when the chain is truthy, None when it is not. */
  function FirstAlias(row: Row, aliases: seq<string>): Option<string> {
    var k := FirstTruthy(row, aliases);
    if k < |aliases| then Some(row[aliases[k]]) else None
  }

  /** `row.role || 'member'`. */
  function RoleOf(row: Row): string {
    if Truthy(row, "role") then row["role"] else DefaultRole
  }

  /** The record one CSV row contributes. The username is trimmed only after the truthiness test. */
  function CsvRecord(row: Row): Option<Record> {
    match FirstAlias(row, UsernameAliases)
    case Some(u) => Some(Record(Trim(u), RoleOf(row)))
    case None => None
  }

  /** The record one TXT line contributes: the trimmed line, when it is not empty. */
  function TxtRecord(line: string): Option<Record> {
    var u := Trim(line);
    if u != "" then Some(Record(u, DefaultRole)) else None
  }

  function OptionToSeq(o: Option<Record>): seq<Record> {
    if o.Some? then [o.value] else []
  }

  /**
   * The records `extract` yields for the items of `xs`, in order: what a loop that
   * pushes a record for each item that has one leaves in `usersToInsert`.
   */
  function Collect<T>(xs: seq<T>, extract: T -> Option<Record>): (rs: seq<Record>)
    ensures |rs| <= |xs|
  {
    if xs == [] then [] else Collect(xs[..|xs| - 1], extract) + OptionToSeq(extract(xs[|xs| - 1]))
  }

  /** Nothing is collected exactly when no item yields a record. */
  lemma {:induction false} CollectEmpty<T>(xs: seq<T>, extract: T -> Option<Record>)
    ensures Collect(xs, extract) == [] <==> forall i :: 0 <= i < |xs| ==> extract(xs[i]).None?
    decreases |xs|
  {
    if xs != [] {
      var init := xs[..|xs| - 1];
      CollectEmpty(init, extract);
      assert forall i :: 0 <= i < |init| ==> init[i] == xs[i];
    }
  }

  /** One more item appends its record, if it has one. */
  lemma CollectStep<T>(xs: seq<T>, i: nat, extract: T -> Option<Record>)
    requires i < |xs|
    ensures Collect(xs[..i + 1], extract) == Collect(xs[..i], extract) + OptionToSeq(extract(xs[i]))
  {
    assert xs[..i + 1][..i] == xs[..i];
  }

  /** The records of a sequence of CSV rows, in row order. */
  function CsvRecords(rows: seq<Row>): seq<Record> {
    Collect(rows, CsvRecord)
  }

  /** The records of a sequence of TXT lines, in line order. */
  function TxtRecords(lines: seq<string>): seq<Record> {
    Collect(lines, TxtRecord)
  }

  /** Records of consecutive blocks come out in block order. */
  lemma {:induction false} CollectAppend<T>(a: seq<T>, b: seq<T>, extract: T -> Option<Record>)
    ensures Collect(a + b, extract) == Collect(a, extract) + Collect(b, extract)
    decreases |b|
  {
    if b == [] {
      assert a + b == a;
    } else {
      var b' := b[..|b| - 1];
      assert (a + b)[..|a + b| - 1] == a + b';
      CollectAppend(a, b', extract);
    }
  }

  /** A record is collected exactly when some item yields it. */
  lemma {:induction false} CollectMembership<T>(xs: seq<T>, extract: T -> Option<Record>, rec: Record)
    ensures rec in Collect(xs, extract) <==> exists i :: 0 <= i < |xs| && extract(xs[i]) == Some(rec)
    decreases |xs|
  {
    if xs != [] {
      var init := xs[..|xs| - 1];
      CollectMembership(init, extract, rec);
      if exists i :: 0 <= i < |init| && extract(init[i]) == Some(rec) {
        var i :| 0 <= i < |init| && extract(init[i]) == Some(rec);
        assert xs[i] == init[i];
      }
      if exists i :: 0 <= i < |xs| && extract(xs[i]) == Some(rec) {
        var i :| 0 <= i < |xs| && extract(xs[i]) == Some(rec);
        if i < |init| { assert init[i] == xs[i]; }
      }
    }
  }

  /** The three answers of the extension test. */
  datatype FileKind = Csv | Txt | Unsupported

  /** `path.extname(originalname).toLowerCase()` compared with ".csv" and ".txt". */
  function KindOf(originalName: string): FileKind {
    var ext := ToLower(ExtName(originalName));
    if ext == ".csv" then Csv else if ext == ".txt" then Txt else Unsupported
  }

  /** What the handler decides to insert, or why it answers 400. */
  function Extraction(file: Option<UploadedFile>): Result<seq<Record>, Rejection> {
    match file
    case None => Failure(NoFile)
    case Some(f) => Dispatch(KindOf(f.originalName), f)
  }

  /** The branch on the extension, then the empty-result test. */
  function Dispatch(kind: FileKind, f: UploadedFile): Result<seq<Record>, Rejection> {
    var rs := match kind
      case Csv => CsvRecords(f.rows)
      case Txt => TxtRecords(Lines(f.text))
      case Unsupported => [];
    if kind == Unsupported then Failure(UnsupportedFormat)
    else if rs == [] then Failure(NoValidData)
    else Success(rs)
  }

  /** The CSV `data` callback over the rows in stream order, pushing onto `usersToInsert`. */
  method CollectCsv(rows: seq<Row>) returns (usersToInsert: seq<Record>)
    ensures usersToInsert == CsvRecords(rows)
  {
    usersToInsert := [];
    var i := 0;
    while i < |rows|
      invariant 0 <= i <= |rows|
      invariant usersToInsert == Collect(rows[..i], CsvRecord)
    {
      var row := rows[i];
      var username := FirstAlias(row, UsernameAliases);
      if username.Some? {
        usersToInsert := usersToInsert + [Record(Trim(username.value), RoleOf(row))];
      }
      CollectStep(rows, i, CsvRecord);
      i := i + 1;
    }
    assert rows[..|rows|] == rows;
  }

  /** The TXT `forEach` over the lines of the file, pushing onto `usersToInsert`. */
  method CollectTxt(fileContent: string) returns (usersToInsert: seq<Record>)
    ensures usersToInsert == TxtRecords(Lines(fileContent))
  {
    var lines := Lines(fileContent);
    usersToInsert := [];
    var i := 0;
    while i < |lines|
      invariant 0 <= i <= |lines|
      invariant usersToInsert == Collect(lines[..i], TxtRecord)
    {
      var username := Trim(lines[i]);
      if username != "" {
        usersToInsert := usersToInsert + [Record(username, DefaultRole)];
      }
      CollectStep(lines, i, TxtRecord);
      i := i + 1;
    }
    assert lines[..|lines|] == lines;
  }

  /** The handler's body up to the insert: the extension dispatch and its early returns. */
  method ExtractRecords(file: Option<UploadedFile>) returns (r: Result<seq<Record>, Rejection>)
    ensures r == Extraction(file)
  {
    if file.None? {
      return Failure(NoFile);
    }
    var f := file.value;
    var fileExt := ToLower(ExtName(f.originalName));
    var usersToInsert: seq<Record>;
    ghost var kind := KindOf(f.originalName);
    assert kind == if fileExt == ".csv" then Csv else if fileExt == ".txt" then Txt else Unsupported;
    if fileExt == ".csv" {
      usersToInsert := CollectCsv(f.rows);
    } else if fileExt == ".txt" {
      usersToInsert := CollectTxt(f.text);
    } else {
      return Failure(UnsupportedFormat);
    }
    assert Extraction(file) == Dispatch(kind, f);
    if |usersToInsert| == 0 {
      return Failure(NoValidData);
    }
    return Success(usersToInsert);
  }

  // ---------------------------------------------------------------- CSV rows

  /** The username comes from `username`, else `user`, else `name`, else `nombre`; no truthy alias, no record. */
  lemma CsvUsernamePriority(row: Row)
    ensures Truthy(row, "username") ==>
              CsvRecord(row) == Some(Record(Trim(row["username"]), RoleOf(row)))
    ensures !Truthy(row, "username") && Truthy(row, "user") ==>
              CsvRecord(row) == Some(Record(Trim(row["user"]), RoleOf(row)))
    ensures !Truthy(row, "username") && !Truthy(row, "user") && Truthy(row, "name") ==>
              CsvRecord(row) == Some(Record(Trim(row["name"]), RoleOf(row)))
    ensures !Truthy(row, "username") && !Truthy(row, "user") && !Truthy(row, "name") && Truthy(row, "nombre") ==>
              CsvRecord(row) == Some(Record(Trim(row["nombre"]), RoleOf(row)))
    ensures !Truthy(row, "username") && !Truthy(row, "user") && !Truthy(row, "name") && !Truthy(row, "nombre") ==>
              CsvRecord(row) == None
  {
    var a := UsernameAliases;
    assert a[0] == "username" && a[1] == "user" && a[2] == "name" && a[3] == "nombre";
  }

  /**
   * The truthiness test runs before `trim`: a whitespace-only cell in the chosen alias
   * still yields a record, with an empty username, and hides every lower-priority alias.
   */
  lemma CsvBlankAliasYieldsEmptyUsername(row: Row, k: nat)
    requires k < |UsernameAliases|
    requires forall j :: 0 <= j < k ==> !Truthy(row, UsernameAliases[j])
    requires Truthy(row, UsernameAliases[k]) && AllWhitespace(row[UsernameAliases[k]])
    ensures CsvRecord(row) == Some(Record("", RoleOf(row)))
  {
    FirstTruthyAt(row, UsernameAliases, k);
    assert FirstAlias(row, UsernameAliases) == Some(row[UsernameAliases[k]]);
    TrimEmptyIff(row[UsernameAliases[k]]);
  }

  /** A concrete row showing it: `username` is two spaces, `name` is "Ana". */
  lemma CsvBlankUsernameExample()
    ensures CsvRecord(map["username" := "  ", "name" := "Ana"]) == Some(Record("", "member"))
  {
    var row := map["username" := "  ", "name" := "Ana"];
    assert AllWhitespace(row["username"]);
    CsvBlankAliasYieldsEmptyUsername(row, 0);
  }

  /** The role is the `role` cell verbatim when it is non-empty, "member" otherwise. */
  lemma CsvRecordRole(row: Row)
    requires CsvRecord(row).Some?
    ensures Truthy(row, "role") ==> CsvRecord(row).value.role == row["role"]
    ensures !Truthy(row, "role") ==> CsvRecord(row).value.role == "member"
  {
  }

  /** A file of one row with a username and a role gives exactly that record. */
  lemma CsvSingleRow(username: string, role: string)
    requires username != "" && IsTrimmed(username) && role != ""
    ensures CsvRecords([map["username" := username, "role" := role]]) == [Record(username, role)]
  {
    var row := map["username" := username, "role" := role];
    assert "username"[0] != "role"[0];
    assert row["username"] == username && row["role"] == role;
    CsvUsernamePriority(row);
    TrimKeepsTrimmed(username);
    assert CsvRecord(row) == Some(Record(username, role));
    CollectStep([row], 0, CsvRecord);
    assert [row][..1] == [row];
  }

  /** Rows are read in stream order: the records of two row blocks are those of the first, then the second. */
  lemma CsvRecordsAppend(a: seq<Row>, b: seq<Row>)
    ensures CsvRecords(a + b) == CsvRecords(a) + CsvRecords(b)
  {
    CollectAppend(a, b, CsvRecord);
  }

  /** A record is extracted exactly when some row yields it. */
  lemma CsvRecordsMembership(rows: seq<Row>, rec: Record)
    ensures rec in CsvRecords(rows) <==> exists i :: 0 <= i < |rows| && CsvRecord(rows[i]) == Some(rec)
  {
    CollectMembership(rows, CsvRecord, rec);
  }

  // ---------------------------------------------------------------- TXT lines

  /** Lines are read in file order: the records of two line blocks are those of the first, then the second. */
  lemma TxtRecordsAppend(a: seq<string>, b: seq<string>)
    ensures TxtRecords(a + b) == TxtRecords(a) + TxtRecords(b)
  {
    CollectAppend(a, b, TxtRecord);
  }

  /**
   * A record is extracted exactly when it is a member with the trimmed text of some line,
   * and that text is not empty.
   */
  lemma TxtRecordsMembership(lines: seq<string>, rec: Record)
    ensures rec in TxtRecords(lines) <==>
              rec.role == DefaultRole && rec.username != ""
              && exists i :: 0 <= i < |lines| && Trim(lines[i]) == rec.username
  {
    CollectMembership(lines, TxtRecord, rec);
    if exists i :: 0 <= i < |lines| && Trim(lines[i]) == rec.username {
      var i :| 0 <= i < |lines| && Trim(lines[i]) == rec.username;
      if rec.role == DefaultRole && rec.username != "" {
        assert TxtRecord(lines[i]) == Some(rec);
      }
    }
  }

  /** No TXT record at all exactly when every line trims to nothing. */
  lemma TxtRecordsEmpty(lines: seq<string>)
    ensures TxtRecords(lines) == [] <==> forall i :: 0 <= i < |lines| ==> Trim(lines[i]) == ""
  {
    CollectEmpty(lines, TxtRecord);
  }

  /** Every TXT record is a member whose username is non-empty and carries no surrounding whitespace. */
  lemma TxtRecordsWellFormed(lines: seq<string>, rec: Record)
    requires rec in TxtRecords(lines)
    ensures rec.role == DefaultRole && rec.username != "" && IsTrimmed(rec.username)
  {
    TxtRecordsMembership(lines, rec);
  }

  /** The carriage return of a "\r\n" break could stay on a line without changing its record. */
  lemma TxtRecordIgnoresTrailingCR(line: string)
    ensures TxtRecord(line + "\r") == TxtRecord(line)
  {
    TrimIgnoresTrailingCR(line);
  }

  // ---------------------------------------------------------------- dispatch

  /** Any capitalisation of ".csv" or ".txt" is accepted, and selects the matching reader. */
  lemma KindIgnoresCase(stem: string, ext: string)
    requires stem != [] && '/' !in stem
    requires ToLower(ext) == ".csv" || ToLower(ext) == ".txt"
    ensures KindOf(stem + ext) == if ToLower(ext) == ".csv" then Csv else Txt
  {
    var l := ToLower(ext);
    assert ext[0] == '.' by {
      ToLowerAt(ext, 0);
    }
    assert '.' !in ext[1..] && '/' !in ext by {
      forall i | 0 <= i < |ext| ensures (i > 0 ==> ext[i] != '.') && ext[i] != '/' {
        ToLowerAt(ext, i);
      }
    }
    ExtNameOfFileName(stem, ext);
  }

  /** "datos.CSV" is read as CSV. */
  lemma UpperCaseCsvExample()
    ensures KindOf("datos.CSV") == Csv
  {
    var ext := ".CSV";
    forall i | 0 <= i < 4 ensures ToLower(ext)[i] == ".csv"[i] {
      ToLowerAt(ext, i);
    }
    assert ToLower(ext) == ".csv";
    assert "datos.CSV" == "datos" + ext;
    KindIgnoresCase("datos", ext);
  }

  lemma NotInTail(s: string, c: char)
    requires |s| >= 1 && c !in s[1..]
    ensures forall i :: 1 <= i < |s| ==> s[i] != c
  {
    forall i | 1 <= i < |s| ensures s[i] != c {
      assert s[i] == s[1..][i - 1];
    }
  }

  /** A last path component whose only '.' is its first character has no extension. */
  lemma NoExtensionForDotFile(name: string)
    requires |name| >= 1 && name[0] == '.' && '.' !in name[1..] && '/' !in name
    ensures ExtName(name) == ""
  {
    BaseNameOfPlainName(name);
    LastIndexOfAtLeast(name, '.', 0);
    NotInTail(name, '.');
    var d := LastIndexOf(name, '.');
    assert name[d] == '.';
    assert d == 0;
  }

  /** So a file named just ".csv" is refused as an unsupported format. */
  lemma DotFileIsUnsupported()
    ensures KindOf(".csv") == Unsupported
  {
    var name := ".csv";
    assert name[1..] == "csv";
    NoExtensionForDotFile(name);
    assert ToLower("") == "";
  }

  // ---------------------------------------------------------------- outcome

  /** Only a missing file draws NoFile. */
  lemma MissingFileRejected(file: Option<UploadedFile>)
    ensures Extraction(file) == Failure(NoFile) <==> file.None?
  {
    if file.Some? {
      DispatchRejections(KindOf(file.value.originalName), file.value);
    }
  }

  /**
   * 400 for any other extension and for an empty result; otherwise a non-empty batch,
   * the records of the reader the extension selects.
   */
  lemma DispatchRejections(kind: FileKind, f: UploadedFile)
    ensures Dispatch(kind, f) == Failure(UnsupportedFormat) <==> kind == Unsupported
    ensures Dispatch(kind, f) != Failure(NoFile)
    ensures kind == Csv ==> (Dispatch(kind, f) == Failure(NoValidData) <==> CsvRecords(f.rows) == [])
    ensures kind == Txt ==> (Dispatch(kind, f) == Failure(NoValidData) <==> TxtRecords(Lines(f.text)) == [])
    ensures Dispatch(kind, f).Success? ==> Dispatch(kind, f).value != []
  {
  }

  /** A TXT file with usable lines is extracted as exactly its line records. */
  lemma TxtExtraction(f: UploadedFile)
    requires KindOf(f.originalName) == Txt && TxtRecords(Lines(f.text)) != []
    ensures Extraction(Some(f)) == Success(TxtRecords(Lines(f.text)))
  {
  }

  /** A CSV file with usable rows is extracted as exactly its row records. */
  lemma CsvExtraction(f: UploadedFile)
    requires KindOf(f.originalName) == Csv && CsvRecords(f.rows) != []
    ensures Extraction(Some(f)) == Success(CsvRecords(f.rows))
  {
  }

  /** No TXT record has a quote in its role. */
  lemma TxtRolesQuoteFree(lines: seq<string>)
    ensures forall i :: 0 <= i < |TxtRecords(lines)| ==> '\'' !in TxtRecords(lines)[i].role
  {
    var recs := TxtRecords(lines);
    assert '\'' !in DefaultRole;
    forall i | 0 <= i < |recs| ensures '\'' !in recs[i].role {
      TxtRecordsWellFormed(lines, recs[i]);
    }
  }

  /** The records of a successful extraction are never empty. */
  lemma ExtractionNonEmpty(file: Option<UploadedFile>)
    requires Extraction(file).Success?
    ensures Extraction(file).value != []
  {
    DispatchRejections(KindOf(file.value.originalName), file.value);
  }
}
