/**
 * The users endpoints of the backend over an abstract users table: POST /users,
 * PATCH /users/:id, DELETE /users/:id and the bulk upload. The table is a map from id
 * to row; ids come from a serial counter, as a SERIAL primary key gives them.
 */
module UsersApi {
  import opened Wrappers
  import opened Ingest
  import opened JsText
  import opened SqlValues

  /** One JSON body field: absent, `null`, or a string. */
  datatype Field = Missing | Null | Given(value: string)

  /** A row of table "users"; `role` is None for a SQL NULL. */
  datatype User = User(id: int, username: string, role: Option<string>)

  /** What an endpoint answers. */
  datatype Reply =
    | BadRequest(error: string)                   // status 400, `{ error }`
    | Json(row: Option<User>)                     // status 200, a row or `null`
    | Created(message: string, users: seq<User>)  // status 201, `{ message, users }`
    | ServerError(error: string)                  // status 500, `{ error }`

  const UsernameRequired: string := "El username es requerido"
  const InvalidId: string := "ID de usuario inválido"
  const UploadFailed: string := "Error interno al procesar el archivo."

  /** `!!field` for a body field that is absent, null or a string. */
  predicate IsTruthy(f: Field) {
    f.Given? && f.value != ""
  }

  /** The role POST inserts: the destructuring default replaces only an absent role. */
  function InsertedRole(role: Field): Option<string> {
    match role
    case Missing => Some(DefaultRole)
    case Null => None
    case Given(r) => Some(r)
  }

  // ---------------------------------------------------------------- ids

  predicate IsDigit(c: char) {
    '0' <= c <= '9'
  }

  predicate AllDigits(s: string) {
    forall i :: 0 <= i < |s| ==> IsDigit(s[i])
  }

  /** The value of a decimal numeral. */
  function DigitsValue(s: string): nat
    requires AllDigits(s)
  {
    if s == [] then 0 else DigitsValue(s[..|s| - 1]) * 10 + (s[|s| - 1] as int - '0' as int)
  }

  /**
   * The id of a route parameter, or None where the handlers answer 400: the parameter is
   * empty (`!userId`) or is not a decimal numeral with an optional sign (`isNaN(userId)`).
   */
  function ParseId(s: string): Option<int> {
    if s == [] then None
    else if s[0] == '-' || s[0] == '+' then
      if |s| == 1 || !AllDigits(s[1..]) then None
      else if s[0] == '-' then Some(-(DigitsValue(s[1..]) as int))
      else Some(DigitsValue(s[1..]))
    else if AllDigits(s) then Some(DigitsValue(s))
    else None
  }

  /** The decimal numeral of `n`. */
  function DecimalText(n: nat): (s: string)
    ensures s != [] && AllDigits(s)
  {
    var d := ['0' + (n % 10) as char];
    if n < 10 then d else DecimalText(n / 10) + d
  }

  /** How an id appears in a URL. */
  function IdText(id: int): string {
    if id < 0 then "-" + DecimalText(-id) else DecimalText(id)
  }

  /** Reading a numeral back gives its number. */
  lemma {:induction false} DigitsValueOfDecimal(n: nat)
    ensures DigitsValue(DecimalText(n)) == n
  {
    var s := DecimalText(n);
    if n >= 10 {
      DigitsValueOfDecimal(n / 10);
      assert s[..|s| - 1] == DecimalText(n / 10);
    }
  }

  /** Every id written into a URL is accepted and names that id. */
  lemma IdRoundTrip(id: int)
    ensures ParseId(IdText(id)) == Some(id)
  {
    var t := IdText(id);
    if id < 0 {
      DigitsValueOfDecimal(-id);
      assert t[1..] == DecimalText(-id);
    } else {
      DigitsValueOfDecimal(id);
    }
  }

  /** An empty or non-numeric parameter names no id. */
  lemma MalformedIds()
    ensures ParseId("") == None && ParseId("abc") == None && ParseId("-") == None && ParseId("1a") == None
    ensures ParseId("42") == Some(42) && ParseId("-7") == Some(-7)
  {
    assert !IsDigit("1a"[1]);
    assert DigitsValue("42"[..1]) == 4;
    assert "-7"[1..] == "7";
  }

  // ---------------------------------------------------------------- the table

  /** Every row sits under its own id, and every id is below the next serial value. */
  ghost predicate WellKeyed(rows: map<int, User>, nextId: int) {
    forall k :: k in rows ==> rows[k].id == k && k < nextId
  }

  /** `UPDATE users SET username=COALESCE($2, username), role=COALESCE($3, role)` on one row. */
  function Merge(u: User, username: Field, role: Field): User {
    User(u.id,
         if username.Given? then username.value else u.username,
         if role.Given? then Some(role.value) else u.role)
  }

  /** POST /users: the reply, the new rows and the new serial value. */
  function CreateEffect(rows: map<int, User>, nextId: int, username: Field, role: Field)
    : (Reply, map<int, User>, int)
  {
    if !IsTruthy(username) then (BadRequest(UsernameRequired), rows, nextId)
    else
      var u := User(nextId, username.value, InsertedRole(role));
      (Json(Some(u)), rows[nextId := u], nextId + 1)
  }

  /** PATCH /users/:id: the reply and the new rows. */
  function PatchEffect(rows: map<int, User>, idText: string, username: Field, role: Field)
    : (Reply, map<int, User>)
  {
    match ParseId(idText)
    case None => (BadRequest(InvalidId), rows)
    case Some(id) =>
      if id !in rows then (Json(None), rows)
      else
        var u := Merge(rows[id], username, role);
        (Json(Some(u)), rows[id := u])
  }

  /** DELETE /users/:id: the reply and the new rows. */
  function DeleteEffect(rows: map<int, User>, idText: string): (Reply, map<int, User>) {
    match ParseId(idText)
    case None => (BadRequest(InvalidId), rows)
    case Some(id) =>
      if id !in rows then (Json(None), rows)
      else (Json(Some(rows[id])), rows - {id})
  }

  /** The rows the database creates for inserted records, numbered from `start`, in order. */
  function NewUsers(start: int, recs: seq<Record>): seq<User>
    decreases |recs|
  {
    if recs == [] then []
    else [User(start, recs[0].username, Some(recs[0].role))] + NewUsers(start + 1, recs[1..])
  }

  /** `rows` with each of `users` stored under its id. */
  function WithUsers(rows: map<int, User>, users: seq<User>): map<int, User>
    decreases |users|
  {
    if users == [] then rows else WithUsers(rows[users[0].id := users[0]], users[1..])
  }

  /** The message of a 201 reply: `${r.rowCount} usuarios creados exitosamente.` */
  function CreatedMessage(count: nat): string {
    DecimalText(count) + " usuarios creados exitosamente."
  }

  /** Running a bulk insert statement: the reply, the new rows and the new serial value. */
  function StatementEffect(rows: map<int, User>, nextId: int, st: Statement): (Reply, map<int, User>, int) {
    match ExecuteInsert(st)
    case None => (ServerError(UploadFailed), rows, nextId)
    case Some(inserted) =>
      var users := NewUsers(nextId, inserted);
      (Created(CreatedMessage(|users|), users), WithUsers(rows, users), nextId + |users|)
  }

  /** The bulk insert of extracted records, with the role escaped. */
  function InsertEffect(rows: map<int, User>, nextId: int, recs: seq<Record>): (Reply, map<int, User>, int) {
    StatementEffect(rows, nextId, InsertQuery(recs))
  }

  /** POST /clientes/upload: the reply, the new rows and the new serial value. */
  function UploadEffect(rows: map<int, User>, nextId: int, file: Option<UploadedFile>)
    : (Reply, map<int, User>, int)
  {
    match Extraction(file)
    case Failure(e) => (BadRequest(e.Message()), rows, nextId)
    case Success(recs) => InsertEffect(rows, nextId, recs)
  }

  // ---------------------------------------------------------------- the endpoints

  class UsersTable {
    var rows: map<int, User>
    var nextId: int

    ghost predicate Valid()
      reads this
    {
      WellKeyed(rows, nextId)
    }

    /** An empty table whose serial starts at 1. */
    constructor ()
      ensures Valid() && rows == map[] && nextId == 1
    {
      rows := map[];
      nextId := 1;
    }

    /** POST /users. */
    method Create(username: Field, role: Field) returns (reply: Reply)
      requires Valid()
      modifies this
      ensures Valid()
      ensures (reply, rows, nextId) == CreateEffect(old(rows), old(nextId), username, role)
    {
      if !IsTruthy(username) {
        return BadRequest(UsernameRequired);
      }
      var u := User(nextId, username.value, InsertedRole(role));
      rows := rows[nextId := u];
      nextId := nextId + 1;
      reply := Json(Some(u));
    }

    /** PATCH /users/:id. */
    method Patch(idText: string, username: Field, role: Field) returns (reply: Reply)
      requires Valid()
      modifies this
      ensures Valid() && nextId == old(nextId)
      ensures (reply, rows) == PatchEffect(old(rows), idText, username, role)
    {
      var userId := ParseId(idText);
      if userId.None? {
        return BadRequest(InvalidId);
      }
      var id := userId.value;
      if id !in rows {
        return Json(None);
      }
      var u := Merge(rows[id], username, role);
      rows := rows[id := u];
      reply := Json(Some(u));
    }

    /** DELETE /users/:id. */
    method Delete(idText: string) returns (reply: Reply)
      requires Valid()
      modifies this
      ensures Valid() && nextId == old(nextId)
      ensures (reply, rows) == DeleteEffect(old(rows), idText)
    {
      var userId := ParseId(idText);
      if userId.None? {
        return BadRequest(InvalidId);
      }
      var id := userId.value;
      if id !in rows {
        return Json(None);
      }
      reply := Json(Some(rows[id]));
      rows := rows - {id};
    }

    /** POST /clientes/upload: extract the records, then send the bulk insert. */
    method Upload(file: Option<UploadedFile>) returns (reply: Reply)
      requires Valid()
      modifies this
      ensures Valid()
      ensures (reply, rows, nextId) == UploadEffect(old(rows), old(nextId), file)
    {
      var extracted := ExtractRecords(file);
      if extracted.Failure? {
        return BadRequest(extracted.error.Message());
      }
      reply := BulkInsert(extracted.value);
    }

    /** The bulk insert at the end of the upload: build the statement, run it, answer. */
    method BulkInsert(usersToInsert: seq<Record>) returns (reply: Reply)
      requires Valid()
      modifies this
      ensures Valid()
      ensures (reply, rows, nextId) == InsertEffect(old(rows), old(nextId), usersToInsert)
    {
      var query := InsertQuery(usersToInsert);
      var r := ExecuteInsert(query);
      if r.None? {
        return ServerError(UploadFailed);
      }
      var users := NewUsers(nextId, r.value);
      NewUsersStored(rows, nextId, r.value);
      NewUsersNumbered(nextId, r.value);
      rows := WithUsers(rows, users);
      nextId := nextId + |users|;
      reply := Created(CreatedMessage(|users|), users);
    }
  }

  // ---------------------------------------------------------------- properties

  /**
   * POST answers 400 and changes nothing exactly when the username is absent, null or empty;
   * otherwise it adds one row under a fresh id, with the role defaulting to "member" only
   * when the body has none, and leaves every other row as it was.
   */
  lemma CreateInsertsOneRow(rows: map<int, User>, nextId: int, username: Field, role: Field)
    requires WellKeyed(rows, nextId)
    ensures var (reply, rows', nextId') := CreateEffect(rows, nextId, username, role);
      && (!IsTruthy(username) <==> reply == BadRequest(UsernameRequired))
      && (!IsTruthy(username) ==> rows' == rows && nextId' == nextId)
      && (IsTruthy(username) ==>
            && nextId !in rows
            && rows'.Keys == rows.Keys + {nextId}
            && (forall k :: k in rows ==> rows'[k] == rows[k])
            && reply == Json(Some(rows'[nextId]))
            && rows'[nextId].username == username.value
            && (role.Missing? ==> rows'[nextId].role == Some("member"))
            && (role.Given? ==> rows'[nextId].role == Some(role.value)))
      && WellKeyed(rows', nextId')
  {
  }

  /**
   * PATCH with a malformed id answers 400, and with an id that has no row answers null;
   * neither changes the table. Otherwise only that row changes: each field takes the body's
   * value if the body gives one (not null) and keeps its own otherwise, and the reply is the
   * new row.
   */
  lemma PatchChangesOnlyThatRow(rows: map<int, User>, idText: string, username: Field, role: Field)
    ensures var (reply, rows') := PatchEffect(rows, idText, username, role);
      && (ParseId(idText).None? ==> reply == BadRequest(InvalidId) && rows' == rows)
      && (ParseId(idText).Some? && ParseId(idText).value !in rows ==> reply == Json(None) && rows' == rows)
      && rows'.Keys == rows.Keys
      && (forall k :: k in rows && Some(k) != ParseId(idText) ==> rows'[k] == rows[k])
      && (ParseId(idText).Some? && ParseId(idText).value in rows ==>
            var id := ParseId(idText).value;
            && reply == Json(Some(rows'[id]))
            && rows'[id].id == rows[id].id
            && rows'[id].username == (if username.Given? then username.value else rows[id].username)
            && rows'[id].role == (if role.Given? then Some(role.value) else rows[id].role))
  {
  }

  /** PATCH keeps the table well keyed. */
  lemma PatchKeepsKeys(rows: map<int, User>, nextId: int, idText: string, username: Field, role: Field)
    requires WellKeyed(rows, nextId)
    ensures WellKeyed(PatchEffect(rows, idText, username, role).1, nextId)
  {
  }

  /** Sending the same PATCH twice leaves the table as sending it once, and answers the same row. */
  lemma PatchIdempotent(rows: map<int, User>, idText: string, username: Field, role: Field)
    ensures var (reply, rows') := PatchEffect(rows, idText, username, role);
            PatchEffect(rows', idText, username, role) == (reply, rows')
  {
    if ParseId(idText).Some? && ParseId(idText).value in rows {
      var id := ParseId(idText).value;
      var rows' := PatchEffect(rows, idText, username, role).1;
      assert rows'[id := rows'[id]] == rows';
    }
  }

  /** A PATCH whose body gives neither field changes nothing and answers the current row. */
  lemma EmptyPatchChangesNothing(rows: map<int, User>, id: int, username: Field, role: Field)
    requires id in rows
    requires !username.Given? && !role.Given?
    ensures PatchEffect(rows, IdText(id), username, role) == (Json(Some(rows[id])), rows)
  {
    IdRoundTrip(id);
    assert rows[id := rows[id]] == rows;
  }

  /** Two PATCHes of one row act as one whose fields are the later given value of each. */
  lemma PatchesCompose(u: User, username1: Field, role1: Field, username2: Field, role2: Field)
    ensures Merge(Merge(u, username1, role1), username2, role2)
         == Merge(u, if username2.Given? then username2 else username1, if role2.Given? then role2 else role1)
  {
  }

  /**
   * DELETE with a malformed id answers 400, with an id that has no row answers null, and
   * neither changes the table; otherwise it answers the row it removes, and only that row goes.
   */
  lemma DeleteRemovesOnlyThatRow(rows: map<int, User>, idText: string)
    ensures var (reply, rows') := DeleteEffect(rows, idText);
      && (ParseId(idText).None? ==> reply == BadRequest(InvalidId) && rows' == rows)
      && (ParseId(idText).Some? && ParseId(idText).value !in rows ==> reply == Json(None) && rows' == rows)
      && (ParseId(idText).Some? ==> rows'.Keys == rows.Keys - {ParseId(idText).value})
      && (forall k :: k in rows' ==> k in rows && rows'[k] == rows[k])
      && (ParseId(idText).Some? && ParseId(idText).value in rows ==>
            reply == Json(Some(rows[ParseId(idText).value])))
  {
  }

  /** A second DELETE of the same id answers null and changes nothing more. */
  lemma DeleteTwice(rows: map<int, User>, idText: string)
    requires ParseId(idText).Some?
    ensures var rows' := DeleteEffect(rows, idText).1;
            DeleteEffect(rows', idText) == (Json(None), rows')
  {
  }

  /** Deleting the row POST just created, by the id in its reply, restores the table. */
  lemma CreateThenDelete(rows: map<int, User>, nextId: int, username: Field, role: Field)
    requires WellKeyed(rows, nextId) && IsTruthy(username)
    ensures var (reply, rows', _) := CreateEffect(rows, nextId, username, role);
            DeleteEffect(rows', IdText(reply.row.value.id)) == (reply, rows)
  {
    IdRoundTrip(nextId);
    var rows' := CreateEffect(rows, nextId, username, role).1;
    assert rows' - {nextId} == rows;
  }

  /** The rows of an insert are numbered consecutively from `start` and carry the records' fields. */
  lemma {:induction false} NewUsersNumbered(start: int, recs: seq<Record>)
    ensures |NewUsers(start, recs)| == |recs|
    ensures forall i :: 0 <= i < |recs| ==>
              NewUsers(start, recs)[i] == User(start + i, recs[i].username, Some(recs[i].role))
    decreases |recs|
  {
    if recs != [] {
      NewUsersNumbered(start + 1, recs[1..]);
    }
  }

  /** The rows for two records. */
  lemma NewUsersPair(start: int, a: Record, b: Record)
    ensures NewUsers(start, [a, b]) == [User(start, a.username, Some(a.role)), User(start + 1, b.username, Some(b.role))]
  {
    assert [a, b][1..] == [b];
    assert [b][1..] == [];
    assert NewUsers(start + 2, []) == [];
    assert NewUsers(start + 1, [b]) == [User(start + 1, b.username, Some(b.role))];
  }

  /** An insert makes one row per record. */
  lemma {:induction false} NewUsersLength(start: int, recs: seq<Record>)
    ensures |NewUsers(start, recs)| == |recs|
    decreases |recs|
  {
    if recs != [] {
      NewUsersLength(start + 1, recs[1..]);
    }
  }

  /**
   * Storing freshly numbered rows adds exactly the ids `start .. start + |recs| - 1`,
   * keeps every earlier row, and leaves the table well keyed at the next serial value.
   */
  lemma {:induction false} NewUsersStored(rows: map<int, User>, start: int, recs: seq<Record>)
    requires WellKeyed(rows, start)
    ensures var rows' := WithUsers(rows, NewUsers(start, recs));
      && (forall k :: k in rows' <==> k in rows || start <= k < start + |recs|)
      && (forall k :: k in rows ==> k in rows' && rows'[k] == rows[k])
      && (forall i :: 0 <= i < |recs| ==>
            (start + i in rows' && rows'[start + i] == User(start + i, recs[i].username, Some(recs[i].role))))
      && WellKeyed(rows', start + |recs|)
    decreases |recs|
  {
    if recs != [] {
      var u := User(start, recs[0].username, Some(recs[0].role));
      var more := rows[start := u];
      NewUsersStored(more, start + 1, recs[1..]);
      assert NewUsers(start, recs) == [u] + NewUsers(start + 1, recs[1..]);
      var rows' := WithUsers(more, NewUsers(start + 1, recs[1..]));
      assert WithUsers(rows, NewUsers(start, recs)) == rows';
      forall i | 0 <= i < |recs|
        ensures start + i in rows' && rows'[start + i] == User(start + i, recs[i].username, Some(recs[i].role))
      {
        if i > 0 {
          assert recs[1..][i - 1] == recs[i];
          assert start + 1 + (i - 1) == start + i;
        }
      }
    }
  }

  /** Every rejected upload (no file, other extension, nothing usable) answers 400 and inserts nothing. */
  lemma RejectedUploadChangesNothing(rows: map<int, User>, nextId: int, file: Option<UploadedFile>)
    requires Extraction(file).Failure?
    ensures UploadEffect(rows, nextId, file) == (BadRequest(Extraction(file).error.Message()), rows, nextId)
  {
  }

  /**
   * A bulk insert of a non-empty list inserts exactly those records, in order, under fresh
   * consecutive ids, and answers them with their count.
   */
  lemma InsertStoresRecords(rows: map<int, User>, nextId: int, recs: seq<Record>)
    requires recs != []
    ensures InsertEffect(rows, nextId, recs)
         == (Created(CreatedMessage(|recs|), NewUsers(nextId, recs)),
             WithUsers(rows, NewUsers(nextId, recs)),
             nextId + |recs|)
  {
    SafeValuesRoundTrip(recs);
    assert ExecuteInsert(InsertQuery(recs)) == Some(recs);
    NewUsersLength(nextId, recs);
  }

  /** So every accepted upload stores exactly the records extracted from its file. */
  lemma AcceptedUploadStoresRecords(rows: map<int, User>, nextId: int, file: Option<UploadedFile>, recs: seq<Record>)
    requires Extraction(file) == Success(recs)
    ensures UploadEffect(rows, nextId, file)
         == (Created(CreatedMessage(|recs|), NewUsers(nextId, recs)),
             WithUsers(rows, NewUsers(nextId, recs)),
             nextId + |recs|)
  {
    ExtractionNonEmpty(file);
    assert UploadEffect(rows, nextId, file) == InsertEffect(rows, nextId, recs);
    InsertStoresRecords(rows, nextId, recs);
  }

  /** When no role holds a quote, the statement as written has the corrected statement's effect. */
  lemma WrittenInsertAgrees(rows: map<int, User>, nextId: int, recs: seq<Record>)
    requires forall i :: 0 <= i < |recs| ==> '\'' !in recs[i].role
    ensures StatementEffect(rows, nextId, WrittenInsertQuery(recs)) == InsertEffect(rows, nextId, recs)
  {
    ValuesTextSafeWhenRolesQuoteFree(recs);
  }

  /** A TXT upload as written has the corrected effect: its roles are all "member". */
  lemma TxtUploadAsWrittenAgrees(rows: map<int, User>, nextId: int, f: UploadedFile, recs: seq<Record>)
    requires KindOf(f.originalName) == Txt && recs == TxtRecords(Lines(f.text)) && recs != []
    ensures StatementEffect(rows, nextId, WrittenInsertQuery(recs)) == UploadEffect(rows, nextId, Some(f))
  {
    TxtExtraction(f);
    TxtRolesQuoteFree(Lines(f.text));
    WrittenInsertAgrees(rows, nextId, recs);
  }

  /**
   * One record whose role carries `'),('` and a second tuple: the statement as written
   * creates two users, the first with the role before the break and the second with the
   * username and role written after it, while the corrected statement creates the one user
   * with the whole role text.
   */
  lemma InsertRoleInjection(rows: map<int, User>, nextId: int, u: string, r: string, u2: string, r2: string)
    requires '\'' !in u && '\'' !in r && '\'' !in u2 && '\'' !in r2
    ensures StatementEffect(rows, nextId, WrittenInsertQuery([Record(u, InjectedRole(r, u2, r2))])).0
         == Created(CreatedMessage(2), [User(nextId, u, Some(r)), User(nextId + 1, u2, Some(r2))])
    ensures InsertEffect(rows, nextId, [Record(u, InjectedRole(r, u2, r2))]).0
         == Created(CreatedMessage(1), [User(nextId, u, Some(InjectedRole(r, u2, r2)))])
  {
    var two := [Record(u, r), Record(u2, r2)];
    RoleInjectionInserts(u, r, u2, r2);
    assert ExecuteInsert(WrittenInsertQuery([Record(u, InjectedRole(r, u2, r2))])) == Some(two);
    NewUsersPair(nextId, Record(u, r), Record(u2, r2));
    InsertStoresRecords(rows, nextId, [Record(u, InjectedRole(r, u2, r2))]);
  }

  /**
   * The same through the endpoint: a one-row CSV file whose role cell is the injected text
   * yields one record; as written the upload creates two users (the second, for instance,
   * an admin), corrected it creates that one record's user.
   */
  lemma UploadRoleInjection(rows: map<int, User>, nextId: int, u: string, r: string, u2: string, r2: string)
    requires u != "" && IsTrimmed(u)
    requires '\'' !in u && '\'' !in r && '\'' !in u2 && '\'' !in r2
    ensures var f := UploadedFile("datos.CSV", "", [map["username" := u, "role" := InjectedRole(r, u2, r2)]]);
            && Extraction(Some(f)) == Success([Record(u, InjectedRole(r, u2, r2))])
            && StatementEffect(rows, nextId, WrittenInsertQuery(Extraction(Some(f)).value)).0
               == Created(CreatedMessage(2), [User(nextId, u, Some(r)), User(nextId + 1, u2, Some(r2))])
            && UploadEffect(rows, nextId, Some(f)).0
               == Created(CreatedMessage(1), [User(nextId, u, Some(InjectedRole(r, u2, r2)))])
  {
    var role := InjectedRole(r, u2, r2);
    var f := UploadedFile("datos.CSV", "", [map["username" := u, "role" := role]]);
    assert |role| > 0;
    UpperCaseCsvExample();
    CsvSingleRow(u, role);
    CsvExtraction(f);
    assert UploadEffect(rows, nextId, Some(f)) == InsertEffect(rows, nextId, [Record(u, role)]);
    InsertRoleInjection(rows, nextId, u, r, u2, r2);
  }
}
