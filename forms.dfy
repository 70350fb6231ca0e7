/** The subscriber forms: `CustomUserCreationForm` and `CustomUserUpdateForm`, their password
    checks (`clean`) and how they store the user (`save`). */
module Forms {
  import opened Basics
  import opened Schema

  const MismatchMessage: string := "Passwords do not match."

  /** The form's `cleaned_data` as far as the checks read it: each password is None when the
      field did not make it into the cleaned data, `Some("")` when it was left empty. */
  datatype Cleaned = Cleaned(username: string, email: string, password1: Option<string>, password2: Option<string>)

  datatype CleanResult = Accepted(data: Cleaned) | Rejected(message: string)

  /** Python truthiness of an optional string: present and not empty. */
  predicate Truthy(s: Option<string>)
  {
    s.Some? && s.value != ""
  }

  /** `CustomUserCreationForm.clean()`. */
  function CleanCreation(d: Cleaned): CleanResult
  {
    if Truthy(d.password1) && Truthy(d.password2) && d.password1 != d.password2 then Rejected(MismatchMessage)
    else Accepted(d)
  }

  /** `CustomUserUpdateForm.clean()`. */
  function CleanUpdate(d: Cleaned): CleanResult
  {
    if (Truthy(d.password1) || Truthy(d.password2)) && d.password1 != d.password2 then Rejected(MismatchMessage)
    else Accepted(d)
  }

  /** The creation form rejects exactly when both passwords are given and differ; otherwise,
      even with a password missing, it hands back the cleaned data unchanged. */
  lemma CleanCreationRule(d: Cleaned)
    ensures CleanCreation(d).Rejected? <==> Truthy(d.password1) && Truthy(d.password2) && d.password1 != d.password2
    ensures CleanCreation(d).Rejected? ==> CleanCreation(d).message == MismatchMessage
    ensures CleanCreation(d).Accepted? ==> CleanCreation(d).data == d
    ensures !Truthy(d.password1) || !Truthy(d.password2) ==> CleanCreation(d) == Accepted(d)
  {
  }

  /** The update form accepts when neither password is given; when either is, it accepts
      exactly when the two are equal, and hands back the cleaned data unchanged. */
  lemma CleanUpdateRule(d: Cleaned)
    ensures !Truthy(d.password1) && !Truthy(d.password2) ==> CleanUpdate(d) == Accepted(d)
    ensures Truthy(d.password1) || Truthy(d.password2) ==> (CleanUpdate(d).Accepted? <==> d.password1 == d.password2)
    ensures CleanUpdate(d).Rejected? ==> CleanUpdate(d).message == MismatchMessage
    ensures CleanUpdate(d).Accepted? ==> CleanUpdate(d).data == d
  {
  }

  /** Every password pair the update form accepts, the creation form accepts too; the reverse
      fails for a single password left out. */
  lemma UpdateStricterThanCreation(d: Cleaned)
    ensures CleanUpdate(d).Accepted? ==> CleanCreation(d).Accepted?
    ensures var one := Cleaned(d.username, d.email, Some("secret"), None);
      CleanCreation(one).Accepted? && CleanUpdate(one).Rejected?
  {
  }

  /** `CustomUserCreationForm.save(commit)` on the unsaved instance `u` the model form built: the
      password is always set from `password1`; the user is stored (as a new row) only with
      `commit`. */
  function SaveCreation(db: Db, u: User, password1: string, commit: bool): (r: (Db, User))
  {
    var u' := u.(password := Hashed(password1));
    (if commit then db.(users := db.users + [u']) else db, u')
  }

  /** `CustomUserUpdateForm.save(commit)` on the instance `u` of user `pk` with the form's fields
      applied: the password changes only when `password1` is given; the row is written only
      with `commit`. */
  function SaveUpdate(db: Db, pk: Id, u: User, password1: Option<string>, commit: bool): (r: (Db, User))
    requires IsRow(db.users, pk)
  {
    var u' := if Truthy(password1) then u.(password := Hashed(password1.value)) else u;
    (if commit then db.(users := db.users[pk - 1 := u']) else db, u')
  }

  /** Creation always replaces the password by `password1` and keeps the other fields; the store
      gains exactly that user with `commit` and is untouched without. */
  lemma SaveCreationRule(db: Db, u: User, password1: string, commit: bool)
    ensures var (db', u') := SaveCreation(db, u, password1, commit);
      && u'.password == Hashed(password1)
      && u' == u.(password := u'.password)
      && (commit ==> db' == db.(users := db.users + [u']))
      && (!commit ==> db' == db)
  {
  }

  /** The update keeps the old password unless `password1` is given, keeps every other field,
      writes exactly row `pk` with `commit` and nothing without. */
  lemma SaveUpdateRule(db: Db, pk: Id, u: User, password1: Option<string>, commit: bool)
    requires IsRow(db.users, pk)
    ensures var (db', u') := SaveUpdate(db, pk, u, password1, commit);
      && (Truthy(password1) ==> u'.password == Hashed(password1.value))
      && (!Truthy(password1) ==> u'.password == u.password)
      && u' == u.(password := u'.password)
      && (commit ==> |db'.users| == |db.users| && db'.users[pk - 1] == u'
                     && (forall k :: 0 <= k < |db.users| && k != pk - 1 ==> db'.users[k] == db.users[k])
                     && db' == db.(users := db'.users))
      && (!commit ==> db' == db)
  {
  }

  /** A password the update form accepted and stored is the one typed twice. */
  lemma UpdateStoresConfirmedPassword(db: Db, pk: Id, u: User, d: Cleaned, commit: bool)
    requires IsRow(db.users, pk) && CleanUpdate(d).Accepted?
    ensures var u' := SaveUpdate(db, pk, u, d.password1, commit).1;
      Truthy(d.password1) ==> d.password2 == d.password1 && u'.password == Hashed(d.password2.value)
  {
  }

  /** Saving either form keeps the store consistent. */
  lemma SaveValid(db: Db, pk: Id, u: User, password1: string, update: Option<string>, commit: bool)
    requires Valid(db) && IsRow(db.users, pk)
    ensures Valid(SaveCreation(db, u, password1, commit).0)
    ensures Valid(SaveUpdate(db, pk, u, update, commit).0)
  {
  }
}
