/**
 * The provisioning script `create_main_admin.js`: four answers read from the terminal, an
 * ordered validation chain, a look-up of the e-mail in the `admins` table and the insert of
 * a row flagged `isAdmin = 1, isMain = 1`.
 *
 * The table is a sequence of rows; the password hash is a function handed in by the
 * caller, so the model claims nothing about it beyond "this is what is stored".
 */
module MainAdmin {
  import opened Wrappers
  import opened Text

  datatype AdminRow = AdminRow(id: nat, fullName: string, email: string, passwordHash: string, isAdmin: int, isMain: int)

  /** What the four prompts returned. */
  datatype Answers = Answers(fullName: string, email: string, password1: string, password2: string)

  /** Why the script stopped with exit code 1. */
  datatype Failure = MissingField | PasswordMismatch | PasswordTooShort | InvalidEmail | DuplicateEmail

  /** The text printed after "[ERROR] ". */
  function Message(f: Failure): (text: string)
    ensures text != ""
  {
    match f
    case MissingField => "All fields are required"
    case PasswordMismatch => "Passwords do not match"
    case PasswordTooShort => "Password must be at least 8 characters"
    case InvalidEmail => "Invalid email address"
    case DuplicateEmail => "Admin with this email already exists"
  }

  /** Every failure prints its own text, so the message tells which check stopped the script. */
  lemma MessagesDistinct(f: Failure, g: Failure)
    ensures Message(f) == Message(g) ==> f == g
  {
    if f != g {
      assert Message(f)[..6] != Message(g)[..6] || |Message(f)| != |Message(g)|;
    }
  }

  datatype Outcome = Created(id: nat) | Rejected(failure: Failure)

  /** `process.exit` code. */
  function ExitCode(o: Outcome): (code: int)
    ensures code == 0 <==> o.Created?
  {
    if o.Created? then 0 else 1
  }

  predicate HasEmptyAnswer(a: Answers)
  {
    a.fullName == "" || a.email == "" || a.password1 == "" || a.password2 == ""
  }

  /** The validation chain, run before the database is opened. The first failing check is
      reported: empty answer, then differing passwords, then a length below 8 (in UTF-16 code
      units, as `length` counts), then no '@' in the e-mail. */
  function Validate(a: Answers): (r: Option<Failure>)
    ensures r == Some(MissingField) <==> HasEmptyAnswer(a)
    ensures r == Some(PasswordMismatch) <==> !HasEmptyAnswer(a) && a.password1 != a.password2
    ensures r == Some(PasswordTooShort) <==> !HasEmptyAnswer(a) && a.password1 == a.password2 && Utf16Length(a.password1) < 8
    ensures r == Some(InvalidEmail) <==>
      !HasEmptyAnswer(a) && a.password1 == a.password2 && Utf16Length(a.password1) >= 8 && '@' !in a.email
    ensures r != Some(DuplicateEmail)
  {
    if HasEmptyAnswer(a) then Some(MissingField)
    else if a.password1 != a.password2 then Some(PasswordMismatch)
    else if Utf16Length(a.password1) < 8 then Some(PasswordTooShort)
    else if '@' !in a.email then Some(InvalidEmail)
    else None
  }

  /** Whatever passes validation has every answer, matching passwords of at least 8
      characters and an '@' in the e-mail. */
  lemma AcceptedAnswers(a: Answers)
    requires Validate(a).None?
    ensures a.fullName != "" && a.email != ""
    ensures a.password1 == a.password2 && Utf16Length(a.password1) >= 8 && '@' in a.email
    ensures |a.password1| >= 4
  {
  }

  /** The length rule counts UTF-16 code units: four characters from beyond U+FFFF make a
      password of length 8, while four plain letters are too short. */
  lemma PasswordLengthInCodeUnits()
    ensures var emoji := "\U{1F600}\U{1F600}\U{1F600}\U{1F600}";
            Validate(Answers("Root", "root@school", emoji, emoji)).None?
    ensures Validate(Answers("Root", "root@school", "abcd", "abcd")) == Some(PasswordTooShort)
  {
    var emoji := "\U{1F600}\U{1F600}\U{1F600}\U{1F600}";
    assert emoji[..3][..2][..1][..0] == [];
    assert Utf16Length(emoji[..1]) == 2;
    assert emoji[..2][..1] == emoji[..1] && emoji[..3][..2] == emoji[..2];
    assert Utf16Length(emoji[..2]) == 4;
    assert Utf16Length(emoji[..3]) == 6;
    assert Utf16Length(emoji) == 8;
    assert '@' in "root@school" by { assert "root@school"[4] == '@'; }
    assert "abcd"[..3][..2][..1][..0] == [];
    assert Utf16Length("abcd"[..2]) == 2;
    assert Utf16Length("abcd") == 4;
  }

  /** `SELECT id FROM admins WHERE email = ?` finds a row: scanning the table, some row holds
      exactly that e-mail. */
  function EmailTaken(rows: seq<AdminRow>, email: string): (taken: bool)
    ensures taken <==> exists k :: 0 <= k < |rows| && rows[k].email == email
    decreases |rows|
  {
    if |rows| == 0 then false
    else rows[|rows| - 1].email == email || EmailTaken(rows[..|rows| - 1], email)
  }

  /** What the script decides for a table and the answers. */
  function Decide(rows: seq<AdminRow>, nextId: nat, a: Answers): (o: Outcome)
    ensures o.Created? <==> Validate(a).None? && !EmailTaken(rows, a.email)
    ensures o.Created? ==> o.id == nextId
    ensures Validate(a).Some? ==> o == Rejected(Validate(a).value)
    ensures Validate(a).None? && EmailTaken(rows, a.email) ==> o == Rejected(DuplicateEmail)
  {
    match Validate(a)
    case Some(f) => Rejected(f)
    case None => if EmailTaken(rows, a.email) then Rejected(DuplicateEmail) else Created(nextId)
  }

  /** How many rows carry the main flag. */
  function MainCount(rows: seq<AdminRow>): (n: nat)
    ensures n <= |rows|
  {
    if |rows| == 0 then 0
    else MainCount(rows[..|rows| - 1]) + (if rows[|rows| - 1].isMain == 1 then 1 else 0)
  }

  /** No two rows share an e-mail. */
  predicate UniqueEmails(rows: seq<AdminRow>)
  {
    forall j, k :: 0 <= j < k < |rows| ==> rows[j].email != rows[k].email
  }

  /** The `admins` table and the id the database hands out next. */
  class AdminTable {
    var rows: seq<AdminRow>
    var nextId: nat

    /** Ids are below the next id and e-mails are distinct. */
    ghost predicate Valid()
      reads this
    {
      (forall k :: 0 <= k < |rows| ==> rows[k].id < nextId) && UniqueEmails(rows)
    }

    constructor (initial: seq<AdminRow>, next: nat)
      requires forall k :: 0 <= k < |initial| ==> initial[k].id < next
      requires UniqueEmails(initial)
      ensures Valid() && rows == initial && nextId == next
    {
      rows := initial;
      nextId := next;
    }

    /** `createMainAdmin` once the four answers are in. A rejection writes nothing; an
        acceptance appends exactly one row with the name, the e-mail, the HASH of the password
        and both flags set, and leaves every earlier row as it was. */
    method CreateMainAdmin(a: Answers, hash: string -> string) returns (o: Outcome)
      requires Valid()
      modifies this
      ensures Valid()
      ensures o == Decide(old(rows), old(nextId), a)
      ensures o.Rejected? ==> rows == old(rows) && nextId == old(nextId)
      ensures o.Created? ==> rows == old(rows) + [AdminRow(o.id, a.fullName, a.email, hash(a.password1), 1, 1)]
      ensures o.Created? ==> MainCount(rows) == MainCount(old(rows)) + 1
      ensures o.Created? ==> nextId == old(nextId) + 1
    {
      var failure := Validate(a);
      if failure.Some? {
        return Rejected(failure.value);
      }
      if EmailTaken(rows, a.email) {
        return Rejected(DuplicateEmail);
      }
      var row := AdminRow(nextId, a.fullName, a.email, hash(a.password1), 1, 1);
      assert (rows + [row])[..|rows|] == rows;
      rows := rows + [row];
      o := Created(nextId);
      nextId := nextId + 1;
    }
  }

  /** The script does not look for an existing main administrator: run against a table that
      already has one, with a new e-mail, it adds a second. */
  lemma SecondMainAdminAccepted(hash: string -> string)
    ensures var existing := [AdminRow(1, "Root", "root@school", hash("rootpass1"), 1, 1)];
            var a := Answers("Second", "second@school", "password2", "password2");
            && MainCount(existing) == 1
            && Decide(existing, 2, a) == Created(2)
            && MainCount(existing + [AdminRow(2, a.fullName, a.email, hash(a.password1), 1, 1)]) == 2
  {
    var existing := [AdminRow(1, "Root", "root@school", hash("rootpass1"), 1, 1)];
    assert "second@school" != "root@school";
    assert !EmailTaken(existing, "second@school");
    var a := Answers("Second", "second@school", "password2", "password2");
    assert '@' in a.email by { assert a.email[6] == '@'; }
    var grown := existing + [AdminRow(2, a.fullName, a.email, hash(a.password1), 1, 1)];
    assert grown[..1] == existing;
    assert existing[..0] == [];
  }
}
