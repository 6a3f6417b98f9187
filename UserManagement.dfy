/**
 * The user-management page: which actions each account row offers the signed-in viewer,
 * the HTML escaping of names and e-mails, the edit and create forms and the request bodies
 * they produce, and the edit dialog's selected account.
 *
 * Flags (`isAdmin`, `isMain`) and ids are the numbers the page compares after `Number(...)`.
 * A value missing from `localStorage` or a form is the empty string, since the page only
 * tests such values for truthiness.
 */
module UserManagement {
  import opened Wrappers
  import opened Text

  /** The signed-in account kept in `localStorage.admin`. */
  datatype StoredAdmin = StoredAdmin(id: int, fullName: string, isAdmin: int, isMain: int)

  /** One account as `GET /users` lists it. */
  datatype Account = Account(id: int, fullName: string, email: string, isAdmin: int, isMain: int)

  /** The buttons in an account row's last cell. */
  datatype RowActions = RowActions(edit: bool, delete: bool)

  /** The action rule inside `loadUsers`. */
  function ActionsFor(viewer: Option<StoredAdmin>, u: Account): (r: RowActions)
    ensures r.delete <==> viewer.Some? && viewer.value.isMain == 1 && u.isMain != 1 && u.id != viewer.value.id
    ensures r.edit <==> viewer.Some? && (viewer.value.isMain == 1 || viewer.value.id == u.id)
  {
    if viewer.Some? && viewer.value.isMain == 1 then
      RowActions(true, u.isMain != 1 && u.id != viewer.value.id)
    else if viewer.Some? && viewer.value.id == u.id then
      RowActions(true, false)
    else
      RowActions(false, false)
  }

  /** Delete is never offered on the main account, on the viewer's own row, or to a viewer
      who is not the main administrator; and a row with Delete always has Edit too. */
  lemma DeleteIsGuarded(viewer: Option<StoredAdmin>, u: Account)
    ensures ActionsFor(viewer, u).delete ==> ActionsFor(viewer, u).edit
    ensures u.isMain == 1 ==> !ActionsFor(viewer, u).delete
    ensures viewer.Some? && viewer.value.id == u.id ==> !ActionsFor(viewer, u).delete && ActionsFor(viewer, u).edit
    ensures viewer.None? ==> ActionsFor(viewer, u) == RowActions(false, false)
  {
  }

  /** Over a whole listing: the main administrator can edit every row, and any other viewer
      has at most its own rows to edit and nothing to delete. */
  lemma ActionsOverListing(viewer: StoredAdmin, users: seq<Account>)
    ensures viewer.isMain == 1 ==> forall k :: 0 <= k < |users| ==> ActionsFor(Some(viewer), users[k]).edit
    ensures viewer.isMain != 1 ==> forall k :: 0 <= k < |users| ==>
      !ActionsFor(Some(viewer), users[k]).delete && (ActionsFor(Some(viewer), users[k]).edit <==> users[k].id == viewer.id)
  {
  }

  /** The role column. */
  function RoleLabel(isAdmin: int): (r: string)
    ensures r == "Administrator" <==> isAdmin == 1
    ensures r != "Administrator" ==> r == "Teacher"
  {
    if isAdmin == 1 then "Administrator" else "Teacher"
  }

  // ---------------------------------------------------------------------------
  // escapeHtml
  // ---------------------------------------------------------------------------

  predicate IsSpecial(c: char)
  {
    c == '&' || c == '<' || c == '>' || c == '"' || c == '\''
  }

  /** The replacement of one character. */
  function EscapeChar(c: char): (r: string)
    ensures !IsSpecial(c) ==> r == [c]
    ensures IsSpecial(c) ==> |r| > 1 && r[0] == '&' && r[|r| - 1] == ';'
  {
    match c
    case '&' => "&amp;"
    case '<' => "&lt;"
    case '>' => "&gt;"
    case '"' => "&quot;"
    case '\'' => "&#39;"
    case _ => [c]
  }

  /** `escapeHtml(s)`; a falsy `s` (the empty string here) gives "". */
  function EscapeHtml(s: string): (r: string)
    ensures |r| >= |s|
    ensures s == [] ==> r == []
    decreases |s|
  {
    if s == [] then [] else EscapeChar(s[0]) + EscapeHtml(s[1..])
  }

  /** The escaped text carries none of `< > " '`. */
  lemma {:induction false} EscapedHasNoMarkup(s: string)
    ensures forall k :: 0 <= k < |EscapeHtml(s)| ==> !IsSpecial(EscapeHtml(s)[k]) || EscapeHtml(s)[k] == '&'
    decreases |s|
  {
    if s != [] {
      EscapedHasNoMarkup(s[1..]);
      var head, tail := EscapeChar(s[0]), EscapeHtml(s[1..]);
      assert EscapeHtml(s) == head + tail;
      forall k | 0 <= k < |head + tail| ensures !IsSpecial((head + tail)[k]) || (head + tail)[k] == '&' {
        if k >= |head| {
          assert (head + tail)[k] == tail[k - |head|];
        }
      }
    }
  }

  /** Text without any of the five characters passes through unchanged, and text with one
      of them does not. */
  lemma {:induction false} EscapeIdentity(s: string)
    ensures EscapeHtml(s) == s <==> forall k :: 0 <= k < |s| ==> !IsSpecial(s[k])
    decreases |s|
  {
    if s != [] {
      EscapeIdentity(s[1..]);
      if IsSpecial(s[0]) {
        assert |EscapeHtml(s)| > |s| by {
          assert |EscapeHtml(s)| == |EscapeChar(s[0])| + |EscapeHtml(s[1..])|;
        }
      } else {
        assert EscapeHtml(s) == [s[0]] + EscapeHtml(s[1..]);
        if EscapeHtml(s) == s {
          assert EscapeHtml(s[1..]) == s[1..];
        }
        assert forall k :: 1 <= k < |s| ==> s[k] == s[1..][k - 1];
      }
    }
  }

  /** `s[k] == c`, false past the end. */
  predicate CharAt(s: string, k: nat, c: char)
  {
    k < |s| && s[k] == c
  }

  /** The entity `s` starts with, as the character it stands for and its length. */
  function EntityAt(s: string): (r: Option<(char, nat)>)
    ensures r.Some? ==> 0 < r.value.1 <= |s|
  {
    if !CharAt(s, 0, '&') then None
    else if CharAt(s, 1, 'a') && CharAt(s, 2, 'm') && CharAt(s, 3, 'p') && CharAt(s, 4, ';') then Some(('&', 5))
    else if CharAt(s, 1, 'l') && CharAt(s, 2, 't') && CharAt(s, 3, ';') then Some(('<', 4))
    else if CharAt(s, 1, 'g') && CharAt(s, 2, 't') && CharAt(s, 3, ';') then Some(('>', 4))
    else if CharAt(s, 1, 'q') && CharAt(s, 2, 'u') && CharAt(s, 3, 'o') && CharAt(s, 4, 't') && CharAt(s, 5, ';') then Some(('"', 6))
    else if CharAt(s, 1, '#') && CharAt(s, 2, '3') && CharAt(s, 3, '9') && CharAt(s, 4, ';') then Some(('\'', 5))
    else None
  }

  /** The browser's reading of the five entities: the inverse of the escaping. */
  function Unescape(s: string): string
    decreases |s|
  {
    if s == [] then []
    else match EntityAt(s)
      case Some((c, n)) => [c] + Unescape(s[n..])
      case None => [s[0]] + Unescape(s[1..])
  }

  /** Reading back one escaped character, whatever follows it. */
  lemma UnescapeChar(c: char, rest: string)
    ensures Unescape(EscapeChar(c) + rest) == [c] + Unescape(rest)
  {
    var e := EscapeChar(c);
    var s := e + rest;
    assert forall k :: 0 <= k < |e| ==> s[k] == e[k];
    assert s[|e|..] == rest;
    if !IsSpecial(c) {
      assert s[0] == c;
    }
  }

  /** Escaping loses nothing: the page shows exactly the name or e-mail it was given. */
  lemma {:induction false} EscapeRoundTrip(s: string)
    ensures Unescape(EscapeHtml(s)) == s
    decreases |s|
  {
    if s != [] {
      EscapeRoundTrip(s[1..]);
      UnescapeChar(s[0], EscapeHtml(s[1..]));
      assert s == [s[0]] + s[1..];
    }
  }

  // ---------------------------------------------------------------------------
  // The edit and create forms
  // ---------------------------------------------------------------------------

  /** The role select's value becomes the `isAdmin` flag. */
  function AdminFlag(role: string): (f: int)
    ensures f == 1 <==> role == "admin"
    ensures f == 0 <==> role != "admin"
  {
    if role == "admin" then 1 else 0
  }

  datatype UserForm = UserForm(fullName: string, email: string, password: string, role: string)

  /** The JSON body of `PUT /users/<id>`. */
  datatype EditBody = EditBody(fullName: string, email: string, isAdmin: int, password: Option<string>)

  /** `submitEditForm`'s body: always name, e-mail and flag; the password only when one was typed. */
  function MakeEditBody(fullName: string, email: string, password: string, isAdmin: int): (b: EditBody)
    ensures b.fullName == fullName && b.email == email && b.isAdmin == isAdmin
    ensures b.password.Some? <==> password != ""
    ensures b.password.Some? ==> b.password.value == password
  {
    var body := EditBody(fullName, email, isAdmin, None);
    if |password| > 0 then body.(password := Some(password)) else body
  }

  datatype EditRequest = EditRequest(userId: int, body: EditBody)

  /** `handleEditFormSubmit`: no account selected, then no token, then a name or e-mail empty
      after trimming stop it, in that order; otherwise the body goes to the selected account,
      with name and e-mail trimmed and the password as typed. */
  function EditSubmission(current: Option<int>, form: UserForm, token: string): (r: Result<EditRequest, string>)
    ensures !Selected(current) ==> r == Err("Error: No user selected")
    ensures Selected(current) && token == "" ==> r == Err("Unauthorized: Please login")
    ensures (Selected(current) && token != "" && (Trim(form.fullName) == "" || Trim(form.email) == ""))
            ==> r == Err("Full name and email are required")
    ensures r.Ok? <==> Selected(current) && token != "" && !AllSpace(form.fullName) && !AllSpace(form.email)
    ensures r.Ok? ==> r.value.userId == current.value
    ensures r.Ok? ==> r.value.body == MakeEditBody(Trim(form.fullName), Trim(form.email), form.password, AdminFlag(form.role))
  {
    if !Selected(current) then Err("Error: No user selected")
    else
      var fullName, email := Trim(form.fullName), Trim(form.email);
      if token == "" then Err("Unauthorized: Please login")
      else if fullName == "" || email == "" then Err("Full name and email are required")
      else Ok(EditRequest(current.value, MakeEditBody(fullName, email, form.password, AdminFlag(form.role))))
  }

  /** The JSON body of `POST /users`. */
  datatype CreateBody = CreateBody(fullName: string, email: string, password: string, isAdmin: int)

  /** The create form's submit handler: no token, then any of trimmed name, trimmed e-mail or
      password empty stop it; otherwise all four values are posted. */
  function CreateSubmission(form: UserForm, token: string): (r: Result<CreateBody, string>)
    ensures token == "" ==> r == Err("Unauthorized: Please login")
    ensures r.Ok? <==> token != "" && !AllSpace(form.fullName) && !AllSpace(form.email) && form.password != ""
    ensures r.Err? && token != "" ==> r.error == "All fields are required"
    ensures r.Ok? ==> r.value == CreateBody(Trim(form.fullName), Trim(form.email), form.password, AdminFlag(form.role))
  {
    var fullName, email := Trim(form.fullName), Trim(form.email);
    if token == "" then Err("Unauthorized: Please login")
    else if fullName == "" || email == "" || form.password == "" then Err("All fields are required")
    else Ok(CreateBody(fullName, email, form.password, AdminFlag(form.role)))
  }

  /** A password of spaces only is sent as it is by both forms: only name and e-mail are trimmed. */
  lemma PasswordNotTrimmed(id: int, form: UserForm, token: string)
    requires id != 0 && token != "" && !AllSpace(form.fullName) && !AllSpace(form.email)
    requires form.password == "  "
    ensures EditSubmission(Some(id), form, token).Ok?
    ensures EditSubmission(Some(id), form, token).value.body.password == Some("  ")
    ensures CreateSubmission(form, token).Ok? && CreateSubmission(form, token).value.password == "  "
  {
  }

  /** The page guard: only a stored administrator gets the page; anyone else sees the
      "Forbidden" message and a disabled create form. */
  function PageEnabled(stored: Option<StoredAdmin>): (ok: bool)
    ensures ok <==> stored.Some? && stored.value.isAdmin == 1
  {
    !(stored.None? || stored.value.isAdmin != 1)
  }

  // ---------------------------------------------------------------------------
  // The edit dialog
  // ---------------------------------------------------------------------------

  /** The page's `currentEditingUserId`. */
  class EditDialog {
    var currentEditingUserId: Option<int>

    constructor ()
      ensures currentEditingUserId.None?
    {
      currentEditingUserId := None;
    }

    /** `openEditModal`: selects the account and pre-fills the form, password empty and the
        role from the account's flag. */
    method OpenEditModal(u: Account) returns (form: UserForm)
      modifies this
      ensures currentEditingUserId == Some(u.id)
      ensures form == UserForm(u.fullName, u.email, "", if u.isAdmin == 1 then "admin" else "teacher")
      ensures AdminFlag(form.role) == (if u.isAdmin == 1 then 1 else 0)
    {
      currentEditingUserId := Some(u.id);
      form := UserForm(u.fullName, u.email, "", if u.isAdmin == 1 then "admin" else "teacher");
    }

    /** `closeEditModal`: nothing selected any more, so a later submit sends nothing. */
    method CloseEditModal()
      modifies this
      ensures currentEditingUserId.None?
      ensures forall form, token :: EditSubmission(currentEditingUserId, form, token) == Err("Error: No user selected")
    {
      currentEditingUserId := None;
    }

    /** `handleEditFormSubmit` on the dialog's selection. */
    method HandleEditFormSubmit(form: UserForm, token: string) returns (r: Result<EditRequest, string>)
      ensures r == EditSubmission(currentEditingUserId, form, token)
      ensures r.Ok? ==> Some(r.value.userId) == currentEditingUserId
    {
      r := EditSubmission(currentEditingUserId, form, token);
    }
  }

  /** Opening the dialog on an account and submitting it unchanged with a token sends that
      account's name, e-mail and role back, with no password. */
  lemma UnchangedEditResendsAccount(u: Account, token: string)
    requires u.id != 0 && token != ""
    requires !AllSpace(u.fullName) && !AllSpace(u.email)
    requires u.fullName == Trim(u.fullName) && u.email == Trim(u.email)
    ensures var form := UserForm(u.fullName, u.email, "", if u.isAdmin == 1 then "admin" else "teacher");
      EditSubmission(Some(u.id), form, token)
      == Ok(EditRequest(u.id, EditBody(u.fullName, u.email, if u.isAdmin == 1 then 1 else 0, None)))
  {
  }
}
