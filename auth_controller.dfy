/**
 * The handlers of `controllers/authController.js`: a membership query on the
 * `email` column and a password reset that writes a hash into the `password`
 * column. Both always answer with status 200 and a `success` flag.
 */
module AuthController {
  import opened Wrappers
  import opened Store
  import CompanyController

  /** The JSON body both handlers send. */
  datatype Reply = Reply(success: bool, message: string)

  const EmailRequired := Reply(false, "Email required")
  const EmailNotRegistered := Reply(false, "Email not registered")
  const EmailVerified := Reply(true, "Email verified")
  const AllFieldsRequired := Reply(false, "All fields required")
  const PasswordUpdated := Reply(true, "Password updated successfully")

  /** `verifyEmail`: succeeds exactly when some row has the email. It only reads the table. */
  function VerifyEmail(rows: seq<Company>, email: Option<string>): (r: Reply)
    ensures !Given(email) ==> r == EmailRequired
    ensures Given(email) ==> (r.success <==> exists i :: 0 <= i < |rows| && rows[i].email == email.value)
    ensures Given(email) ==> r == EmailVerified || r == EmailNotRegistered
  {
    if !Given(email) then EmailRequired
    else if FirstIndex(rows, (c: Company) => c.email == email.value).None? then EmailNotRegistered
    else EmailVerified
  }

  /** `resetPassword`: with both fields present, every row with that email gets
      `hash(password)` as its password (bcrypt with cost 10, taken here as an
      arbitrary function) and the reply is a success, whether or not any row
      had that email. Otherwise nothing changes. */
  method ResetPassword(db: CompanyTable, email: Option<string>, password: Option<string>, hash: string -> string)
    returns (r: Reply)
    requires db.Valid()
    modifies db
    ensures db.Valid() && db.nextId == old(db.nextId)
    ensures !Given(email) || !Given(password) ==> r == AllFieldsRequired && db.rows == old(db.rows)
    ensures Given(email) && Given(password) ==>
              r == PasswordUpdated && db.rows == PasswordSetWhere(old(db.rows), email.value, hash(password.value))
  {
    if !Given(email) || !Given(password) {
      return AllFieldsRequired;
    }
    var hashed := hash(password.value);
    db.SetPasswordByEmail(email.value, hashed);
    r := PasswordUpdated;
  }

  /** A reset changes only the password column, and only of rows with that email. */
  lemma ResetTouchesOnlyPasswords(rows: seq<Company>, e: string, h: string, i: nat)
    requires i < |rows|
    ensures var after := PasswordSetWhere(rows, e, h);
            && after[i].(password := rows[i].password) == rows[i]
            && (rows[i].email != e ==> after[i] == rows[i])
            && (rows[i].email == e ==> after[i].password == h)
  {
  }

  /** A reset for an email nobody has leaves the table as it was. */
  lemma {:induction false} ResetOfUnknownEmailChangesNothing(rows: seq<Company>, e: string, h: string)
    requires forall i :: 0 <= i < |rows| ==> rows[i].email != e
    ensures PasswordSetWhere(rows, e, h) == rows
  {
    var after := PasswordSetWhere(rows, e, h);
    assert forall i :: 0 <= i < |rows| ==> after[i] == rows[i];
  }

  /** A reset keeps the emails and the codes of every row, so it keeps them unique. */
  lemma ResetKeepsKeysUnique(rows: seq<Company>, e: string, h: string)
    requires UniqueKeys(rows)
    ensures UniqueKeys(PasswordSetWhere(rows, e, h))
  {
    var after := PasswordSetWhere(rows, e, h);
    assert forall i :: 0 <= i < |rows| ==>
      after[i].email == rows[i].email && after[i].company_code == rows[i].company_code;
  }

  /** Registration stores the password as sent and login compares it as sent,
      but a reset stores its hash: unless the hash happens to equal the new
      password, logging in by email with the new password fails. */
  lemma LoginAfterResetFails(rows: seq<Company>, e: string, p: string, hash: string -> string)
    requires e != "" && p != ""
    requires hash(p) != p
    requires exists i :: 0 <= i < |rows| && rows[i].email == e
    ensures CompanyController.LoginCompany(PasswordSetWhere(rows, e, hash(p)), Some(e), None, Some(p))
            == Failure(CompanyController.InvalidPassword)
  {
    var after := PasswordSetWhere(rows, e, hash(p));
    var ident := CompanyController.EmailOnly(e);
    assert CompanyController.IdentifierOf(Some(e), None) == Some(ident);
    var i :| 0 <= i < |rows| && rows[i].email == e;
    var k := FirstWithEmail(after, e, i);
    assert CompanyController.FirstMatch(after, ident, k);
    CompanyController.WrongPasswordRefused(after, Some(e), None, p, k);
  }

  /** Some row has the email, so there is a first one, at or before `i`. */
  lemma {:induction false} FirstWithEmail(rows: seq<Company>, e: string, i: nat) returns (k: nat)
    requires i < |rows| && rows[i].email == e
    ensures k <= i && rows[k].email == e
    ensures forall j :: 0 <= j < k ==> rows[j].email != e
  {
    if rows[0].email == e {
      k := 0;
    } else {
      var k' := FirstWithEmail(rows[1..], e, i - 1);
      k := k' + 1;
    }
  }
}
