/**
 * The browser page's decisions: the colour of a role badge, the checks made before
 * sending a create or an edit, and what the users table shows.
 */
module Frontend {
  import opened Wrappers
  import opened JsText
  import opened UsersApi

  // ---------------------------------------------------------------- role colours

  const Red: string := "#dc3545"
  const Yellow: string := "#ffc107"
  const Green: string := "#28a745"
  const Grey: string := "#6c757d"

  /** `getRoleColor`: a colour per known role, grey for anything else (a null role included). */
  function RoleColor(role: Option<string>): string {
    match role
    case Some("admin") => Red
    case Some("editor") => Yellow
    case Some("member") => Green
    case _ => Grey
  }

  /** The three known roles get their own colours, no two alike. */
  lemma KnownRoleColors()
    ensures RoleColor(Some("admin")) == Red
    ensures RoleColor(Some("editor")) == Yellow
    ensures RoleColor(Some("member")) == Green
    ensures Red != Yellow && Yellow != Green && Red != Green
  {
  }

  /** Every other role value, null among them, is grey, and only those are. */
  lemma OtherRolesGrey(role: Option<string>)
    ensures RoleColor(role) == Grey <==> role !in {Some("admin"), Some("editor"), Some("member")}
  {
  }

  // ---------------------------------------------------------------- createUser

  /** What the create form does: warn, or POST `{ username, role }`. */
  datatype CreateOutcome = CreateRejected(alert: string) | PostUser(username: string, role: string)

  const UsernameMissingAlert: string := "El nombre de usuario es requerido"

  /** `createUser`: the typed name is trimmed, and an empty result sends nothing. */
  function CreateDecision(input: string, selectedRole: string): CreateOutcome {
    var username := Trim(input);
    if username == "" then CreateRejected(UsernameMissingAlert) else PostUser(username, selectedRole)
  }

  /**
   * The form sends exactly when the trimmed input is not empty, and then sends the trimmed
   * input with the selected role unchanged.
   */
  lemma CreateSendsTrimmedName(input: string, selectedRole: string)
    ensures CreateDecision(input, selectedRole).PostUser? <==> !AllWhitespace(input)
    ensures CreateDecision(input, selectedRole).PostUser? ==>
              && CreateDecision(input, selectedRole).username == Trim(input)
              && IsTrimmed(CreateDecision(input, selectedRole).username)
              && CreateDecision(input, selectedRole).role == selectedRole
    ensures CreateDecision(input, selectedRole).CreateRejected? ==>
              CreateDecision(input, selectedRole).alert == UsernameMissingAlert
  {
    TrimEmptyIff(input);
  }

  /** Whatever the form sends, the server accepts and stores as sent. */
  lemma ServerAcceptsSentCreate(rows: map<int, User>, nextId: int, input: string, selectedRole: string)
    requires WellKeyed(rows, nextId)
    requires CreateDecision(input, selectedRole).PostUser?
    ensures var sent := CreateDecision(input, selectedRole);
            var (reply, rows', _) := CreateEffect(rows, nextId, Given(sent.username), Given(sent.role));
            reply.Json? && nextId in rows' && rows'[nextId] == User(nextId, Trim(input), Some(selectedRole))
  {
    var sent := CreateDecision(input, selectedRole);
    CreateInsertsOneRow(rows, nextId, Given(sent.username), Given(sent.role));
  }

  // ---------------------------------------------------------------- editUser

  /** The roles `editUser` accepts. */
  const Roles: seq<string> := ["member", "admin", "editor"]

  /** What the edit prompts lead to: nothing, a warning, or PATCH `{ username, role }`. */
  datatype EditOutcome = Cancelled | EditRejected(alert: string) | PatchUser(username: string, role: string)

  const EmptyNameAlert: string := "El nombre de usuario no puede estar vacío"
  const InvalidRoleAlert: string := "Rol inválido. Debe ser: member, admin o editor"

  /**
   * `editUser`, given the answers to its two prompts (None for a cancelled prompt). The role
   * prompt is shown only once the name has passed, so its answer matters only then.
   */
  function EditDecision(nameAnswer: Option<string>, roleAnswer: Option<string>): (r: EditOutcome)
    ensures r.PatchUser? ==> roleAnswer.Some? && r.role == roleAnswer.value && r.role in Roles
  {
    if nameAnswer.None? then Cancelled
    else if Trim(nameAnswer.value) == "" then EditRejected(EmptyNameAlert)
    else if roleAnswer.None? then Cancelled
    else if roleAnswer.value !in Roles then EditRejected(InvalidRoleAlert)
    else PatchUser(Trim(nameAnswer.value), roleAnswer.value)
  }

  /** A cancelled prompt sends nothing and warns about nothing. */
  lemma EditCancelledPrompt(nameAnswer: Option<string>, roleAnswer: Option<string>)
    ensures nameAnswer.None? ==> EditDecision(nameAnswer, roleAnswer) == Cancelled
    ensures nameAnswer.Some? && !AllWhitespace(nameAnswer.value) && roleAnswer.None? ==>
              EditDecision(nameAnswer, roleAnswer) == Cancelled
  {
    if nameAnswer.Some? {
      TrimEmptyIff(nameAnswer.value);
    }
  }

  /**
   * An edit is sent exactly when neither prompt was cancelled, the name is not blank and the
   * role is one of member, admin and editor; then it sends the trimmed name and that role.
   */
  lemma EditSendsOnlyValid(nameAnswer: Option<string>, roleAnswer: Option<string>)
    ensures EditDecision(nameAnswer, roleAnswer).PatchUser? <==>
              nameAnswer.Some? && !AllWhitespace(nameAnswer.value) &&
              roleAnswer.Some? && roleAnswer.value in Roles
    ensures EditDecision(nameAnswer, roleAnswer).PatchUser? ==>
              && EditDecision(nameAnswer, roleAnswer).username == Trim(nameAnswer.value)
              && EditDecision(nameAnswer, roleAnswer).role == roleAnswer.value
    ensures nameAnswer.Some? && AllWhitespace(nameAnswer.value) ==>
              EditDecision(nameAnswer, roleAnswer) == EditRejected(EmptyNameAlert)
  {
    if nameAnswer.Some? {
      TrimEmptyIff(nameAnswer.value);
    }
  }

  /** Each role the edit form accepts has a colour of its own, never the grey one. */
  lemma AcceptedRolesColoured(role: string)
    requires role in Roles
    ensures RoleColor(Some(role)) != Grey
  {
    assert Grey[1] != Green[1] && Grey[1] != Red[1] && Grey[1] != Yellow[1];
    assert role == "member" || role == "admin" || role == "editor";
  }

  /** So a role the edit sends is never shown grey. */
  lemma SentRoleIsColoured(nameAnswer: Option<string>, roleAnswer: Option<string>)
    requires EditDecision(nameAnswer, roleAnswer).PatchUser?
    ensures RoleColor(Some(EditDecision(nameAnswer, roleAnswer).role)) != Grey
  {
    AcceptedRolesColoured(EditDecision(nameAnswer, roleAnswer).role);
  }

  /** A sent edit replaces both fields of the row it names and no other row. */
  lemma ServerAppliesSentEdit(rows: map<int, User>, id: int, nameAnswer: Option<string>, roleAnswer: Option<string>)
    requires id in rows && rows[id].id == id
    requires EditDecision(nameAnswer, roleAnswer).PatchUser?
    ensures var sent := EditDecision(nameAnswer, roleAnswer);
            var (reply, rows') := PatchEffect(rows, IdText(id), Given(sent.username), Given(sent.role));
            && reply == Json(Some(User(id, sent.username, Some(sent.role))))
            && rows' == rows[id := User(id, sent.username, Some(sent.role))]
  {
    IdRoundTrip(id);
  }

  // ---------------------------------------------------------------- renderUsers

  /** One table row: id, username, badge colour and badge text. */
  datatype RowView = RowView(id: int, username: string, color: string, roleLabel: string)

  /** The table body: the placeholder row, or one row per user. */
  datatype TableView = Placeholder(message: string, colspan: nat) | Rows(rows: seq<RowView>)

  const NoUsersMessage: string := "No hay usuarios para mostrar"

  /** How a role is written into the badge: a null role prints as "null". */
  function RoleLabel(role: Option<string>): string {
    match role
    case None => "null"
    case Some(r) => r
  }

  function RowOf(u: User): RowView {
    RowView(u.id, u.username, RoleColor(u.role), RoleLabel(u.role))
  }

  /** The rows of `users.map(...)`, in order. */
  function RowsOf(users: seq<User>): seq<RowView>
    decreases |users|
  {
    if users == [] then [] else [RowOf(users[0])] + RowsOf(users[1..])
  }

  /** `renderUsers`. */
  function Render(users: seq<User>): TableView {
    if |users| == 0 then Placeholder(NoUsersMessage, 5) else Rows(RowsOf(users))
  }

  /** The rows follow the users one for one, in order. */
  lemma {:induction false} RowsOfFollowUsers(users: seq<User>)
    ensures |RowsOf(users)| == |users|
    ensures forall i :: 0 <= i < |users| ==> RowsOf(users)[i] == RowOf(users[i])
    decreases |users|
  {
    if users != [] {
      RowsOfFollowUsers(users[1..]);
    }
  }

  /**
   * The placeholder shows exactly when there are no users; otherwise there is one row per
   * user, in the order given, each with that user's id, name, colour and role.
   */
  lemma RenderOneRowPerUser(users: seq<User>)
    ensures Render(users).Placeholder? <==> users == []
    ensures Render(users).Placeholder? ==> Render(users) == Placeholder(NoUsersMessage, 5)
    ensures Render(users).Rows? ==>
              && |Render(users).rows| == |users|
              && forall i :: 0 <= i < |users| ==>
                   Render(users).rows[i] == RowView(users[i].id, users[i].username,
                                                    RoleColor(users[i].role), RoleLabel(users[i].role))
  {
    RowsOfFollowUsers(users);
  }

  /** Rendering two lists one after the other gives the rows of the first, then of the second. */
  lemma {:induction false} RowsOfAppend(a: seq<User>, b: seq<User>)
    ensures RowsOf(a + b) == RowsOf(a) + RowsOf(b)
    decreases |a|
  {
    if a == [] {
      assert a + b == b;
    } else {
      assert (a + b)[1..] == a[1..] + b;
      RowsOfAppend(a[1..], b);
    }
  }
}
