/** The subscriber views: sign-up (`register_view`), the subscriber list with its search
    (`ManageSubscribersView.get_queryset`) and archiving (`SubscriberArchiveView.post`). */
module Accounts {
  import opened Basics
  import opened Text
  import opened Schema

  const FillAllFieldsMessage: string := "Please fill in all fields."
  const PasswordMismatchMessage: string := "Passwords do not match."
  const UsernameTakenMessage: string := "Username already exists."
  const EmailTakenMessage: string := "Email already in use."

  /** The POST fields of the sign-up form; an absent field is "" (both fail `not value`). */
  datatype SignUp = SignUp(username: string, email: string, password1: string, password2: string)

  datatype RegisterResponse =
    | RegisterPage                  // a GET (or any other method) renders the form
    | RegisterError(message: string) // back to the form with an error message
    | AccountCreated(id: Id)         // on to the login page

  predicate UsernameTaken(users: seq<User>, username: string)
  {
    exists k :: 0 <= k < |users| && users[k].username == username
  }

  predicate EmailTaken(users: seq<User>, email: string)
  {
    exists k :: 0 <= k < |users| && users[k].email == email
  }

  /** The first check the form fails, in the order the view makes them, if any. */
  function FirstFailedCheck(users: seq<User>, f: SignUp): (r: Option<string>)
  {
    if f.username == "" || f.email == "" || f.password1 == "" || f.password2 == "" then Some(FillAllFieldsMessage)
    else if f.password1 != f.password2 then Some(PasswordMismatchMessage)
    else if UsernameTaken(users, f.username) then Some(UsernameTakenMessage)
    else if EmailTaken(users, f.email) then Some(EmailTakenMessage)
    else None
  }

  /** The position of the last '@' of `s`, where `rsplit("@", 1)` cuts. */
  function LastAt(s: string): (r: Option<nat>)
    ensures r.Some? ==> r.value < |s| && s[r.value] == '@' && forall j :: r.value < j < |s| ==> s[j] != '@'
    ensures r.None? ==> forall j :: 0 <= j < |s| ==> s[j] != '@'
  {
    if s == [] then None
    else if s[|s| - 1] == '@' then Some(|s| - 1)
    else LastAt(s[..|s| - 1])
  }

  /** `BaseUserManager.normalize_email`: the stripped address with the part after its last '@'
      lower-cased; an address without '@' is kept as given. */
  function NormalizeEmail(email: string): string
  {
    var t := Strip(email);
    match LastAt(t)
    case None => email
    case Some(i) => t[..i] + "@" + Lower(t[i + 1..])
  }

  /** The user `create_user(username, email, password)` stores: ordinary (not superuser),
      unarchived, with the normalised email and the hashed password. */
  function NewUser(f: SignUp): User
  {
    User(f.username, NormalizeEmail(f.email), Hashed(f.password1), false, false)
  }

  /** `register_view(request)`. */
  function Register(db: Db, verb: HttpMethod, f: SignUp): (r: (Db, RegisterResponse))
  {
    if verb != POST then (db, RegisterPage)
    else match FirstFailedCheck(db.users, f)
      case Some(message) => (db, RegisterError(message))
      case None =>
        (db.(users := db.users + [NewUser(f)]), AccountCreated(|db.users| + 1))
  }

  /** The last '@' of `s` is at `i` when `s[i]` is one and none follows it. */
  lemma LastAtIs(s: string, i: nat)
    requires i < |s| && s[i] == '@' && forall j :: i < j < |s| ==> s[j] != '@'
    ensures LastAt(s) == Some(i)
  {
  }

  /** The normalised form of a stripped address `t` whose last '@' is at `i` is itself stripped,
      has its last '@' at `i`, and keeps the local part and the lower-cased domain apart. */
  lemma NormalizedParts(t: string, i: nat)
    requires i < |t| && t[i] == '@' && forall j :: i < j < |t| ==> t[j] != '@'
    requires !IsSpace(t[0]) && !IsSpace(t[|t| - 1])
    ensures var r := t[..i] + "@" + Lower(t[i + 1..]);
      && Strip(r) == r && LastAt(r) == Some(i) && r[..i] == t[..i] && r[i + 1..] == Lower(t[i + 1..])
  {
    var d := Lower(t[i + 1..]);
    var r := t[..i] + "@" + d;
    assert r[0] == if i > 0 then t[0] else '@';
    assert r[|r| - 1] == if i + 1 < |t| then LowerChar(t[|t| - 1]) else '@';
    StripClean(r);
    forall j | i < j < |r| ensures r[j] != '@' {
      assert r[j] == d[j - i - 1] == LowerChar(t[j]);
    }
    LastAtIs(r, i);
    assert r[..i] == t[..i];
    assert r[i + 1..] == d;
  }

  /** Normalising a normalised address changes nothing. */
  lemma NormalizeEmailIdempotent(email: string)
    ensures NormalizeEmail(NormalizeEmail(email)) == NormalizeEmail(email)
  {
    var t := Strip(email);
    StripEnds(email);
    match LastAt(t)
    case None =>
    case Some(i) =>
      NormalizedParts(t, i);
      LowerIdempotent(t[i + 1..]);
  }

  /** No two users share a username. */
  predicate UniqueUsernames(users: seq<User>)
  {
    forall a, b :: 0 <= a < b < |users| ==> users[a].username != users[b].username
  }

  /** No two users share an email address. */
  predicate UniqueEmails(users: seq<User>)
  {
    forall a, b :: 0 <= a < b < |users| ==> users[a].email != users[b].email
  }

  /** Sign-up refuses with the message of the first failed check, in the view's order, and
      then writes nothing; otherwise exactly one user is appended, with the submitted name and
      password and the normalised email, neither superuser nor archived. */
  lemma RegisterOutcome(db: Db, verb: HttpMethod, f: SignUp)
    ensures var (db', r) := Register(db, verb, f);
      var blank := f.username == "" || f.email == "" || f.password1 == "" || f.password2 == "";
      && (verb != POST ==> r == RegisterPage && db' == db)
      && (verb == POST && blank ==> r == RegisterError(FillAllFieldsMessage))
      && (verb == POST && !blank && f.password1 != f.password2 ==> r == RegisterError(PasswordMismatchMessage))
      && (verb == POST && !blank && f.password1 == f.password2 && UsernameTaken(db.users, f.username) ==>
            r == RegisterError(UsernameTakenMessage))
      && ((verb == POST && !blank && f.password1 == f.password2 && !UsernameTaken(db.users, f.username) &&
             EmailTaken(db.users, f.email)) ==> r == RegisterError(EmailTakenMessage))
      && (r.RegisterError? ==> db' == db)
      && (r.AccountCreated? <==> verb == POST && !blank && f.password1 == f.password2
                                 && !UsernameTaken(db.users, f.username) && !EmailTaken(db.users, f.email))
      && (r.AccountCreated? ==>
            && r.id == |db.users| + 1
            && db' == db.(users := db.users + [User(f.username, NormalizeEmail(f.email), Hashed(f.password1), false, false)]))
  {
  }

  /** Sign-up never creates a second user with a taken username: unique usernames stay unique. */
  lemma RegisterKeepsUnique(db: Db, verb: HttpMethod, f: SignUp)
    requires UniqueUsernames(db.users)
    ensures UniqueUsernames(Register(db, verb, f).0.users)
  {
    var (db', r) := Register(db, verb, f);
    if r.AccountCreated? {
      var n := |db.users|;
      forall a, b | 0 <= a < b < |db'.users| ensures db'.users[a].username != db'.users[b].username {
        if b == n {
          assert db'.users[a] == db.users[a];
          assert !UsernameTaken(db.users, f.username);
        }
      }
    }
  }

  /** "a@B" normalises to "a@b". */
  lemma NormalizeShortAddress()
    ensures NormalizeEmail("a@B") == "a@b"
  {
    var e := "a@B";
    StripClean(e);
    LastAtIs(e, 1);
    assert e[..1] == "a" && e[2..] == "B";
    assert Lower("B") == "b";
  }

  /** The email check compares the address as typed with the stored, normalised ones, so an
      address that differs from a stored one only in the case of its domain passes the check
      and is stored as the same address: unique emails do not stay unique. */
  lemma EmailCheckMissesDomainCase(db: Db, f: SignUp)
    requires db.users == [User("ann", "a@b", Hashed("pw"), false, false)]
    requires f == SignUp("bob", "a@B", "pw", "pw")
    ensures var (db', r) := Register(db, POST, f);
      && UniqueEmails(db.users) && r == AccountCreated(2)
      && |db'.users| == 2 && db'.users[0].email == db'.users[1].email
  {
    NormalizeShortAddress();
    assert "ann" != "bob" && "a@b" != "a@B";
    assert !UsernameTaken(db.users, f.username);
    assert !EmailTaken(db.users, f.email);
  }

  /** Signing up keeps the store consistent. */
  lemma RegisterValid(db: Db, verb: HttpMethod, f: SignUp)
    requires Valid(db)
    ensures Valid(Register(db, verb, f).0)
  {
  }

  // ---------------------------------------------------------------------------------------------
  // The subscriber list.

  /** A user matches the search when the search text occurs in the username or the email,
      letters compared without case. */
  predicate Matches(u: User, search: string)
  {
    ContainsIgnoreCase(u.username, search) || ContainsIgnoreCase(u.email, search)
  }

  /** The keys of the users past the first `from` that the search admits, in key order. */
  function UsersFrom(users: seq<User>, search: string, from: nat): (r: seq<Id>)
    requires from <= |users|
    ensures forall i :: 0 <= i < |r| ==> from < r[i] <= |users|
    ensures forall id :: id in r <==> from < id <= |users| && (search == "" || Matches(users[id - 1], search))
    ensures forall i, j :: 0 <= i < j < |r| ==> r[i] < r[j]
    decreases |users| - from
  {
    if from == |users| then []
    else
      var rest := UsersFrom(users, search, from + 1);
      if search == "" || Matches(users[from], search) then [from + 1] + rest else rest
  }

  /** `ManageSubscribersView.get_queryset()`: every user when the search is empty, otherwise
      those whose username or email contains it, in key order; archived users are listed too. */
  function SubscriberSearch(db: Db, search: string): (r: seq<Id>)
    ensures forall i :: 0 <= i < |r| ==> IsRow(db.users, r[i])
    ensures forall id :: IsRow(db.users, id) ==> (id in r <==> search == "" || Matches(db.users[id - 1], search))
    ensures forall i, j :: 0 <= i < j < |r| ==> r[i] < r[j]
  {
    UsersFrom(db.users, search, 0)
  }

  /** An empty search lists every user, in key order. */
  lemma EmptySearchListsAll(db: Db)
    ensures SubscriberSearch(db, "") == seq(|db.users|, i => i + 1)
  {
    ListsAll(db.users, 0);
  }

  lemma {:induction false} ListsAll(users: seq<User>, from: nat)
    requires from <= |users|
    ensures UsersFrom(users, "", from) == seq(|users| - from, i => from + 1 + i)
    decreases |users| - from
  {
    if from < |users| {
      ListsAll(users, from + 1);
    }
  }

  /** The search is blind to case: searching an upper- or lower-case spelling gives the same
      list. */
  lemma SearchIgnoresCase(db: Db, search: string)
    ensures search != "" ==> SubscriberSearch(db, search) == SubscriberSearch(db, Lower(search))
  {
    if search != "" {
      LowerIdempotent(search);
      SameFilter(db.users, search, Lower(search), 0);
    }
  }

  lemma {:induction false} SameFilter(users: seq<User>, s: string, t: string, from: nat)
    requires from <= |users| && s != "" && t != ""
    requires Lower(s) == Lower(t)
    ensures UsersFrom(users, s, from) == UsersFrom(users, t, from)
    decreases |users| - from
  {
    if from < |users| {
      SameFilter(users, s, t, from + 1);
    }
  }

  // ---------------------------------------------------------------------------------------------
  // Archiving.

  datatype ArchiveResponse = UserNotFound | Archived(username: string)

  /** `SubscriberArchiveView.post(request, pk=pk)`: 404 when there is no such user, otherwise the
      user is marked archived (any caller may do this: the view checks no permission). */
  function ArchiveSubscriber(db: Db, pk: int): (r: (Db, ArchiveResponse))
  {
    if !IsRow(db.users, pk) then (db, UserNotFound)
    else (db.(users := db.users[pk - 1 := db.users[pk - 1].(isArchived := true)]), Archived(db.users[pk - 1].username))
  }

  /** Archiving flags exactly that user and changes nothing else; an unknown key writes nothing;
      archiving twice is archiving once; the user stays listed by the subscriber search. */
  lemma ArchiveSubscriberEffect(db: Db, pk: int, search: string)
    ensures var (db', r) := ArchiveSubscriber(db, pk);
      && (r.UserNotFound? <==> !IsRow(db.users, pk))
      && (r.UserNotFound? ==> db' == db)
      && (r.Archived? ==>
            && db' == db.(users := db'.users)
            && |db'.users| == |db.users|
            && db'.users[pk - 1] == db.users[pk - 1].(isArchived := true)
            && (forall k :: 0 <= k < |db.users| && k != pk - 1 ==> db'.users[k] == db.users[k])
            && ArchiveSubscriber(db', pk).0 == db'
            && SubscriberSearch(db', search) == SubscriberSearch(db, search))
  {
    var (db', r) := ArchiveSubscriber(db, pk);
    if r.Archived? {
      SearchIgnoresArchive(db.users, db'.users, search, 0);
    }
  }

  lemma {:induction false} SearchIgnoresArchive(users: seq<User>, users': seq<User>, search: string, from: nat)
    requires |users| == |users'| && from <= |users|
    requires forall k :: 0 <= k < |users| ==> users'[k].username == users[k].username && users'[k].email == users[k].email
    ensures UsersFrom(users', search, from) == UsersFrom(users, search, from)
    decreases |users| - from
  {
    if from < |users| {
      SearchIgnoresArchive(users, users', search, from + 1);
    }
  }

  /** Archiving keeps the store consistent. */
  lemma ArchiveSubscriberValid(db: Db, pk: int)
    requires Valid(db)
    ensures Valid(ArchiveSubscriber(db, pk).0)
  {
  }
}
