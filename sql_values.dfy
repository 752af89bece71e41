/**
 * The text of the bulk insert the upload handler sends:
 * `INSERT INTO users (username, role) VALUES ('u1', 'r1'),('u2', 'r2') RETURNING *`,
 * with every single quote of a username doubled and the role written as it is.
 */
module SqlValues {
  import opened Wrappers
  import opened JsText
  import opened Ingest

  /** `s.replace(/'/g, "''")`: every single quote doubled. */
  function Escape(s: string): string {
    if s == [] then [] else (if s[0] == '\'' then "''" else [s[0]]) + Escape(s[1..])
  }

  /** `s.replace(/''/g, "'")`: each pair of quotes, left to right, read back as one. */
  function Unescape(s: string): string {
    if |s| >= 2 && s[0] == '\'' && s[1] == '\'' then "'" + Unescape(s[2..])
    else if s == [] then []
    else [s[0]] + Unescape(s[1..])
  }

  /** Un-doubling the quotes recovers the original username. */
  lemma {:induction false} UnescapeEscape(s: string)
    ensures Unescape(Escape(s)) == s
  {
    if s != [] {
      UnescapeEscape(s[1..]);
      if s[0] == '\'' {
        assert Escape(s) == "''" + Escape(s[1..]);
      } else {
        assert Escape(s) == [s[0]] + Escape(s[1..]);
      }
      assert s == [s[0]] + s[1..];
    }
  }

  /** Escaping works piece by piece. */
  lemma {:induction false} EscapeAppend(a: string, b: string)
    ensures Escape(a + b) == Escape(a) + Escape(b)
  {
    if a == [] {
      assert a + b == b;
    } else {
      assert (a + b)[1..] == a[1..] + b;
      EscapeAppend(a[1..], b);
    }
  }

  /** A quote becomes two quotes, and text without quotes is left as it is. */
  lemma {:induction false} EscapeQuoteFree(s: string)
    ensures Escape("'") == "''"
    ensures '\'' !in s ==> Escape(s) == s
  {
    if s != [] {
      EscapeQuoteFree(s[1..]);
      assert '\'' !in s ==> '\'' !in s[1..];
    }
  }

  /** The tuple template `('${username}', '${role}')`, filled with text already prepared for it. */
  function TupleText(username: string, role: string): string {
    "('" + username + "', '" + role + "')"
  }

  /** One record's tuple as the handler writes it: the username escaped, the role unescaped. */
  function Tuple(rec: Record): string {
    TupleText(Escape(rec.username), rec.role)
  }

  /** One record's tuple with both values escaped. */
  function SafeTuple(rec: Record): string {
    TupleText(Escape(rec.username), Escape(rec.role))
  }

  /** `recs.map(tuple).join(',')`. */
  function ValuesWith(recs: seq<Record>, tuple: Record -> string): string {
    if recs == [] then ""
    else if |recs| == 1 then tuple(recs[0])
    else tuple(recs[0]) + "," + ValuesWith(recs[1..], tuple)
  }

  /** The VALUES list the handler builds. */
  function ValuesText(recs: seq<Record>): string {
    ValuesWith(recs, Tuple)
  }

  /** The VALUES list with the role escaped like the username. */
  function SafeValuesText(recs: seq<Record>): string {
    ValuesWith(recs, SafeTuple)
  }

  /**
   * The bulk insert `INSERT INTO users (username, role) VALUES <values> RETURNING *`;
   * only its VALUES list varies.
   */
  datatype Statement = InsertUsers(values: string)

  /** The statement the handler sends, as written: the role is not escaped. */
  function WrittenInsertQuery(recs: seq<Record>): Statement {
    InsertUsers(ValuesText(recs))
  }

  /** The statement with both values escaped, which the rest of the model sends. */
  function InsertQuery(recs: seq<Record>): Statement {
    InsertUsers(SafeValuesText(recs))
  }

  /** The statement as SQL text. */
  function StatementText(st: Statement): string {
    "INSERT INTO users (username, role) VALUES " + st.values + " RETURNING *"
  }

  /**
   * The records the database inserts for the statement, or None when its VALUES list
   * is not a plain list of tuples.
   */
  function ExecuteInsert(st: Statement): Option<seq<Record>> {
    ParseValues(st.values)
  }

  /** One tuple per record, in record order, separated by single commas. */
  lemma {:induction false} ValuesWithAppend(a: seq<Record>, b: seq<Record>, tuple: Record -> string)
    requires a != [] && b != []
    ensures ValuesWith(a + b, tuple) == ValuesWith(a, tuple) + "," + ValuesWith(b, tuple)
    decreases |a|
  {
    if |a| == 1 {
      assert (a + b)[1..] == b;
    } else {
      assert (a + b)[1..] == a[1..] + b;
      ValuesWithAppend(a[1..], b, tuple);
    }
  }

  /** The handler's list is one `Tuple` per record, in order: a single record gives its tuple alone. */
  lemma ValuesTextShape(a: seq<Record>, b: seq<Record>, rec: Record)
    ensures ValuesText([rec]) == "('" + Escape(rec.username) + "', '" + rec.role + "')"
    ensures a != [] && b != [] ==> ValuesText(a + b) == ValuesText(a) + "," + ValuesText(b)
  {
    if a != [] && b != [] {
      ValuesWithAppend(a, b, Tuple);
    }
  }

  // ---------------------------------------------------------------- reading the text back

  /**
   * The rest of a quoted SQL literal after its opening quote, up to the quote that closes it:
   * `''` stands for one quote, a lone `'` ends the literal. Gives the value and what follows.
   */
  function ParseLiteralBody(s: string): (r: Option<(string, string)>)
    ensures r.Some? ==> |r.value.1| < |s|
  {
    if s == [] then None
    else if s[0] == '\'' then
      if |s| >= 2 && s[1] == '\'' then
        match ParseLiteralBody(s[2..])
        case None => None
        case Some((v, rest)) => Some(("'" + v, rest))
      else Some(("", s[1..]))
    else
      match ParseLiteralBody(s[1..])
      case None => None
      case Some((v, rest)) => Some(([s[0]] + v, rest))
  }

  /** A quoted SQL literal at the start of `s`. */
  function ParseLiteral(s: string): (r: Option<(string, string)>)
    ensures r.Some? ==> |r.value.1| < |s|
  {
    if s != [] && s[0] == '\'' then ParseLiteralBody(s[1..]) else None
  }

  /** A tuple `('u', 'r')` at the start of `s`. */
  function ParseTuple(s: string): (r: Option<(Record, string)>)
    ensures r.Some? ==> |r.value.1| < |s|
  {
    if s == [] || s[0] != '(' then None
    else match ParseLiteral(s[1..])
      case None => None
      case Some((u, r1)) =>
        if |r1| < 2 || r1[0] != ',' || r1[1] != ' ' then None
        else match ParseLiteral(r1[2..])
          case None => None
          case Some((role, r2)) =>
            if r2 == [] || r2[0] != ')' then None else Some((Record(u, role), r2[1..]))
  }

  /** The records a VALUES list denotes, or None when it is not such a list. */
  function ParseValues(s: string): Option<seq<Record>>
    decreases |s|
  {
    match ParseTuple(s)
    case None => None
    case Some((rec, rest)) =>
      if rest == [] then Some([rec])
      else if rest[0] != ',' then None
      else match ParseValues(rest[1..])
        case None => None
        case Some(recs) => Some([rec] + recs)
  }

  /** An escaped value followed by the closing quote reads back as the value. */
  lemma {:induction false} LiteralBodyOfEscape(x: string, rest: string)
    requires rest == [] || rest[0] != '\''
    ensures ParseLiteralBody(Escape(x) + "'" + rest) == Some((x, rest))
  {
    var s := Escape(x) + "'" + rest;
    if x == [] {
      assert s == "'" + rest;
      assert s[1..] == rest;
    } else {
      LiteralBodyOfEscape(x[1..], rest);
      var tail := Escape(x[1..]) + "'" + rest;
      if x[0] == '\'' {
        assert s == "''" + tail;
        assert s[2..] == tail;
      } else {
        assert s == [x[0]] + tail;
        assert s[1..] == tail;
      }
      assert x == [x[0]] + x[1..];
    }
  }

  /** A literal is its opening quote followed by a literal body. */
  lemma LiteralFromBody(body: string, v: string, rest: string)
    requires ParseLiteralBody(body) == Some((v, rest))
    ensures ParseLiteral("'" + body) == Some((v, rest))
  {
    assert ("'" + body)[1..] == body;
  }

  /** A tuple is "(", a literal, ", ", a literal and ")". */
  lemma TupleFromParts(q1: string, u: string, q2: string, role: string, rest: string)
    requires ParseLiteral(q1) == Some((u, ", " + q2))
    requires ParseLiteral(q2) == Some((role, ")" + rest))
    ensures ParseTuple("(" + q1) == Some((Record(u, role), rest))
  {
    assert ("(" + q1)[1..] == q1;
    assert (", " + q2)[2..] == q2;
    assert (")" + rest)[1..] == rest;
  }

  /** The tuple template, regrouped around its two values. */
  lemma TupleLayout(u: string, role: string, rest: string)
    ensures TupleText(u, role) + rest
         == "(" + ("'" + (u + "'" + (", " + ("'" + (role + "'" + (")" + rest))))))
  {
  }

  /** A safely written tuple reads back as its record. */
  lemma SafeTupleReadsBack(rec: Record, rest: string)
    requires rest == [] || rest[0] == ','
    ensures ParseTuple(SafeTuple(rec) + rest) == Some((rec, rest))
  {
    var eu, er := Escape(rec.username), Escape(rec.role);
    var r2 := ")" + rest;
    var b2 := er + "'" + r2;
    var q2 := "'" + b2;
    var r1 := ", " + q2;
    var b1 := eu + "'" + r1;
    var q1 := "'" + b1;
    LiteralBodyOfEscape(rec.role, r2);
    LiteralFromBody(b2, rec.role, r2);
    LiteralBodyOfEscape(rec.username, r1);
    LiteralFromBody(b1, rec.username, r1);
    TupleFromParts(q1, rec.username, q2, rec.role, rest);
    TupleLayout(eu, er, rest);
  }

  /** A tuple, a comma and a list read as the tuple's record before the list's records. */
  lemma ParseValuesCons(s: string, rec: Record, tail: string, recs: seq<Record>)
    requires ParseTuple(s) == Some((rec, "," + tail))
    requires ParseValues(tail) == Some(recs)
    ensures ParseValues(s) == Some([rec] + recs)
  {
    assert ("," + tail)[1..] == tail;
  }

  /** A single safely written tuple reads back as its record. */
  lemma SafeValuesSingle(rec: Record)
    ensures ParseValues(SafeValuesText([rec])) == Some([rec])
  {
    var t := SafeTuple(rec);
    SafeTupleReadsBack(rec, "");
    assert t + "" == t;
  }

  /** Putting a safely written tuple in front of a list that reads back keeps it reading back. */
  lemma SafeValuesStep(rec: Record, more: seq<Record>)
    requires more != [] && ParseValues(SafeValuesText(more)) == Some(more)
    ensures ParseValues(SafeValuesText([rec] + more)) == Some([rec] + more)
  {
    var recs := [rec] + more;
    var tail := SafeValuesText(more);
    var t := SafeTuple(rec) + ("," + tail);
    assert recs[1..] == more;
    assert SafeValuesText(recs) == t;
    SafeTupleReadsBack(rec, "," + tail);
    ParseValuesCons(t, rec, tail, more);
  }

  /** With both values escaped, the VALUES text reads back as exactly the records. */
  lemma {:induction false} SafeValuesRoundTrip(recs: seq<Record>)
    requires recs != []
    ensures ParseValues(SafeValuesText(recs)) == Some(recs)
    decreases |recs|
  {
    if |recs| == 1 {
      SafeValuesSingle(recs[0]);
      assert recs == [recs[0]];
    } else {
      SafeValuesRoundTrip(recs[1..]);
      SafeValuesStep(recs[0], recs[1..]);
      assert recs == [recs[0]] + recs[1..];
    }
  }

  /** Where no role holds a quote, the handler's text is the safe text. */
  lemma {:induction false} ValuesTextSafeWhenRolesQuoteFree(recs: seq<Record>)
    requires forall i :: 0 <= i < |recs| ==> '\'' !in recs[i].role
    ensures ValuesText(recs) == SafeValuesText(recs)
    decreases |recs|
  {
    if recs != [] {
      EscapeQuoteFree(recs[0].role);
      ValuesTextSafeWhenRolesQuoteFree(recs[1..]);
    }
  }

  /** So the handler's text reads back as its records as long as no role holds a quote. */
  lemma ValuesTextRoundTrip(recs: seq<Record>)
    requires recs != []
    requires forall i :: 0 <= i < |recs| ==> '\'' !in recs[i].role
    ensures ParseValues(ValuesText(recs)) == Some(recs)
  {
    ValuesTextSafeWhenRolesQuoteFree(recs);
    SafeValuesRoundTrip(recs);
  }

  /** Every TXT upload gives roles "member", so its statement inserts exactly the extracted records. */
  lemma TxtValuesRoundTrip(lines: seq<string>)
    requires TxtRecords(lines) != []
    ensures ParseValues(ValuesText(TxtRecords(lines))) == Some(TxtRecords(lines))
  {
    var recs := TxtRecords(lines);
    assert '\'' !in DefaultRole;
    forall i | 0 <= i < |recs| ensures recs[i].role == DefaultRole {
      TxtRecordsWellFormed(lines, recs[i]);
    }
    ValuesTextRoundTrip(recs);
  }

  /**
   * A role that ends its own literal and tuple and starts another one:
   * `r'),('u2', 'r2`, as it would sit between the quotes of the role literal.
   */
  function InjectedRole(r: string, u2: string, r2: string): string {
    r + "'),('" + u2 + "', '" + r2
  }

  /** The tuple text with the injected role is the text of two tuples. */
  lemma InjectedTupleText(u: string, r: string, u2: string, r2: string)
    ensures TupleText(u, InjectedRole(r, u2, r2)) == TupleText(u, r) + "," + TupleText(u2, r2)
  {
    var a := "('" + u + "', '" + r;
    var b := u2 + "', '" + r2 + "')";
    assert TupleText(u, InjectedRole(r, u2, r2)) == a + ("'),('" + b);
    assert TupleText(u, r) == a + "')";
    assert TupleText(u2, r2) == "('" + b;
    assert "')" + "," + "('" == "'),('";
  }

  /**
   * The role is written unescaped, so one record whose role is `InjectedRole(r, u2, r2)`
   * gives the very text of two records, the second (u2, r2).
   */
  lemma RoleInjection(u: string, r: string, u2: string, r2: string)
    requires '\'' !in u && '\'' !in u2
    ensures ValuesText([Record(u, InjectedRole(r, u2, r2))]) == ValuesText([Record(u, r), Record(u2, r2)])
  {
    EscapeQuoteFree(u);
    EscapeQuoteFree(u2);
    InjectedTupleText(u, r, u2, r2);
    var two := [Record(u, r), Record(u2, r2)];
    assert two[1..] == [Record(u2, r2)];
    assert ValuesWith(two[1..], Tuple) == Tuple(Record(u2, r2));
    assert ValuesText(two) == Tuple(Record(u, r)) + "," + Tuple(Record(u2, r2));
  }

  /** So the statement built for that one record inserts two records. */
  lemma RoleInjectionInserts(u: string, r: string, u2: string, r2: string)
    requires '\'' !in u && '\'' !in r && '\'' !in u2 && '\'' !in r2
    ensures ParseValues(ValuesText([Record(u, InjectedRole(r, u2, r2))])) == Some([Record(u, r), Record(u2, r2)])
  {
    RoleInjection(u, r, u2, r2);
    ValuesTextRoundTrip([Record(u, r), Record(u2, r2)]);
  }

  /** The record ("a", "x'),('b', 'admin") makes the statement insert ("a", "x") and ("b", "admin"). */
  lemma RoleInjectionExample()
    ensures ParseValues(ValuesText([Record("a", "x'),('b', 'admin")])) == Some([Record("a", "x"), Record("b", "admin")])
  {
    assert InjectedRole("x", "b", "admin") == "x'),('b', 'admin";
    RoleInjectionInserts("a", "x", "b", "admin");
  }
}
