/** validate_password and the order of checks in register. The password
    hash and the token come from libraries outside the model. */
module Accounts {
  import opened Common
  import opened Models

  const TooShort := "Пароль должен быть не короче 8 символов"
  const NoLetter := "Пароль должен содержать хотя бы одну букву"
  const NoDigit := "Пароль должен содержать хотя бы одну цифру"

  /** The class [A-Za-z]. */
  predicate AsciiLetter(c: char) {
    'A' <= c <= 'Z' || 'a' <= c <= 'z'
  }

  predicate HasLetter(pw: string) {
    exists i | 0 <= i < |pw| :: AsciiLetter(pw[i])
  }

  /** The class \d, restricted to the ASCII digits. */
  predicate HasDigit(pw: string) {
    exists i | 0 <= i < |pw| :: IsDigit(pw[i])
  }

  /** The error message for a bad password, or None when it is accepted. */
  function ValidatePassword(pw: string): (r: Option<string>)
    ensures r.None? <==> |pw| >= 8 && HasLetter(pw) && HasDigit(pw)
    ensures |pw| < 8 ==> r == Some(TooShort)
    ensures |pw| >= 8 && !HasLetter(pw) ==> r == Some(NoLetter)
    ensures |pw| >= 8 && HasLetter(pw) && !HasDigit(pw) ==> r == Some(NoDigit)
  {
    if |pw| < 8 then Some(TooShort)
    else if !HasLetter(pw) then Some(NoLetter)
    else if !HasDigit(pw) then Some(NoDigit)
    else None
  }

  /** Extending an accepted password keeps it accepted. */
  lemma AcceptedStaysAccepted(pw: string, more: string)
    requires ValidatePassword(pw).None?
    ensures ValidatePassword(pw + more).None?
  {
    var i :| 0 <= i < |pw| && AsciiLetter(pw[i]);
    var j :| 0 <= j < |pw| && IsDigit(pw[j]);
    assert (pw + more)[i] == pw[i] && (pw + more)[j] == pw[j];
  }

  /** Some concrete answers: "abcd1234" passes, eight letters lack a
      digit, eight digits lack a letter. */
  lemma ValidatePasswordExamples()
    ensures ValidatePassword("abcd1234") == None
    ensures ValidatePassword("abcdefgh") == Some(NoDigit)
    ensures ValidatePassword("12345678") == Some(NoLetter)
    ensures ValidatePassword("abc123") == Some(TooShort)
  {
    assert AsciiLetter("abcd1234"[0]) && IsDigit("abcd1234"[4]);
    assert AsciiLetter("abcdefgh"[0]);
    assert forall i | 0 <= i < 8 :: !IsDigit("abcdefgh"[i]);
    assert forall i | 0 <= i < 8 :: !AsciiLetter("12345678"[i]);
  }

  /** The request schema asks for at least 6 characters. */
  const SchemaMinLength := 6

  /** POST /auth/register, returning the new user's id (the token is made
      from it). The schema's length check comes first, then the duplicate
      e-mail check, then the password rules. */
  method Register(users: UserTable, email: string, password: string, passHash: string)
    returns (r: Result<nat>)
    requires users.Valid()
    modifies users
    ensures users.Valid()
    ensures |password| < SchemaMinLength ==>
      r == Err(Failure(422, "Unprocessable Entity")) && users.users == old(users.users)
    ensures |password| >= SchemaMinLength && old(users.EmailTaken(email)) ==>
      r == Err(Failure(409, "Email already registered")) && users.users == old(users.users)
    ensures |password| >= SchemaMinLength && !old(users.EmailTaken(email))
            && ValidatePassword(password).Some? ==>
      r == Err(Failure(400, ValidatePassword(password).value)) && users.users == old(users.users)
    ensures r.Ok? <==> |password| >= SchemaMinLength && !old(users.EmailTaken(email))
                       && ValidatePassword(password).None?
    ensures r.Ok? ==> r.value !in old(users.users)
    ensures r.Ok? ==> users.users == old(users.users)[r.value := User(r.value, email, passHash)]
  {
    if |password| < SchemaMinLength {
      return Err(Failure(422, "Unprocessable Entity"));
    }
    if exists i :: i in users.users && users.users[i].email == email {
      return Err(Failure(409, "Email already registered"));
    }
    var err := ValidatePassword(password);
    if err.Some? {
      return Err(Failure(400, err.value));
    }
    var id := users.Insert(email, passHash);
    r := if id.Some? then Ok(id.value) else Err(Failure(409, "Email already registered"));
  }

  /** A six- or seven-character password passes the schema but is refused
      by the password rules with the length message. */
  lemma SchemaAndRulesDisagree(pw: string)
    requires SchemaMinLength <= |pw| < 8
    ensures ValidatePassword(pw) == Some(TooShort)
  {
  }
}
