/**
 * The credential store and the three request handlers of the login-form
 * backend: `/register`, `/login` and `/recover`.
 *
 * The users file is modelled as an in-memory sequence of records held by
 * class `Server`; `Load` and `Save` read and overwrite it as a whole.
 * The password hash produced on registration, the hash check performed on
 * login and the outcome of every outgoing e-mail are inputs to the model.
 */
module Server {

  datatype Option<+T> = None | Some(value: T)

  /** A field of a JSON request body: missing (`undefined`/`null`) or a string. */
  datatype Field = Absent | Present(value: string)

  /** One stored user. `password` holds the hash, never the plaintext. */
  datatype User = User(fName: string, lname: string, email: string, password: string)

  datatype RegisterBody = RegisterBody(fName: Field, lname: Field, email: Field, password: Field)

  datatype LoginBody = LoginBody(email: Field, password: Field)

  /**
   * What a handler does with the HTTP response: send a status and a text
   * body, or let its promise be rejected without sending anything.
   */
  datatype Response = Send(status: nat, message: string) | Rejected

  /** A register handler's response together with the users file afterwards. */
  datatype Handled = Handled(response: Response, users: seq<User>)

  const AllFieldsRequired := "All fields are required."
  const EmailAlreadyRegistered := "Email already registered."
  const RegistrationSuccessful := "Registration successful."
  const RegistrationEmailFailed := "Registration email failed to send."
  const InvalidEmailOrPassword := "Invalid email or password."
  const LoginSuccessful := "Login successful."
  const EmailNotFound := "Email not found."
  const RecoveryEmailSent := "Recovery email sent!"
  const RecoveryEmailFailed := "Error sending recovery email."

  /** JavaScript's `!f` on a body field: true for a missing field and for "". */
  predicate Falsy(f: Field) {
    f.Absent? || f.value == ""
  }

  /** `u.email === email`: a missing field never equals a stored string. */
  predicate Matches(u: User, email: Field) {
    email == Present(u.email)
  }

  /** A register body passes the presence check: all four fields are truthy. */
  predicate Complete(body: RegisterBody) {
    !Falsy(body.fName) && !Falsy(body.lname) && !Falsy(body.email) && !Falsy(body.password)
  }

  /** The record a register request that passes both checks appends. */
  function NewRecord(body: RegisterBody, hashed: string): User
    requires Complete(body)
  {
    User(body.fName.value, body.lname.value, body.email.value, hashed)
  }

  ghost predicate HasEmail(users: seq<User>, email: Field) {
    exists i :: 0 <= i < |users| && Matches(users[i], email)
  }

  /** No two records share an e-mail address. */
  ghost predicate EmailsUnique(users: seq<User>) {
    forall i, j :: 0 <= i < j < |users| ==> users[i].email != users[j].email
  }

  /** `users.some(u => u.email === email)` */
  function AnyWithEmail(users: seq<User>, email: Field): (b: bool)
    ensures b <==> HasEmail(users, email)
  {
    if users == [] then false
    else Matches(users[0], email) || AnyWithEmail(users[1..], email)
  }

  /** `users.find(u => u.email === email)`, as the index of the record found. */
  function FindIndex(users: seq<User>, email: Field): (r: Option<nat>)
    ensures r.None? <==> !HasEmail(users, email)
    ensures r.Some? ==> r.value < |users| && Matches(users[r.value], email)
    ensures r.Some? ==> forall j :: 0 <= j < r.value ==> !Matches(users[j], email)
  {
    if users == [] then None
    else if Matches(users[0], email) then Some(0)
    else
      match FindIndex(users[1..], email)
      case None => None
      case Some(k) => Some(k + 1)
  }

  /**
   * The `/register` handler as a function of the users file before the
   * request: the response and the users file after it. `hashed` is what
   * the password hash returned; `sent` is whether the notification mail
   * went out.
   */
  function RegisterResult(users: seq<User>, body: RegisterBody, hashed: string, sent: bool): (h: Handled)
    ensures h.response.Send?
    ensures h.response.status == 400 <==> !Complete(body) || HasEmail(users, body.email)
    ensures h.response.status == 400 ==> h.users == users
    ensures h.response.status != 400 ==> h.users == users + [NewRecord(body, hashed)]
    ensures !Complete(body) ==> h.response == Send(400, AllFieldsRequired)
    ensures Complete(body) && HasEmail(users, body.email) ==> h.response == Send(400, EmailAlreadyRegistered)
    ensures h.response.status != 400 ==>
      h.response == if sent then Send(200, RegistrationSuccessful) else Send(500, RegistrationEmailFailed)
  {
    if !Complete(body) then
      Handled(Send(400, AllFieldsRequired), users)
    else if AnyWithEmail(users, body.email) then
      Handled(Send(400, EmailAlreadyRegistered), users)
    else
      var saved := users + [NewRecord(body, hashed)];
      if sent then Handled(Send(200, RegistrationSuccessful), saved)
      else Handled(Send(500, RegistrationEmailFailed), saved)
  }

  /**
   * The `/login` handler. `verify(plaintext, hash)` is the password check;
   * it refuses a missing password by rejecting, which the handler does
   * not catch.
   */
  function LoginResult(users: seq<User>, body: LoginBody, verify: (string, string) -> bool): (r: Response)
    ensures || r == Send(200, LoginSuccessful)
            || r == Send(400, InvalidEmailOrPassword)
            || r == Rejected
    ensures r == Rejected <==> HasEmail(users, body.email) && body.password.Absent?
    ensures !HasEmail(users, body.email) ==> r == Send(400, InvalidEmailOrPassword)
  {
    match FindIndex(users, body.email)
    case None => Send(400, InvalidEmailOrPassword)
    case Some(i) =>
      if body.password.Absent? then Rejected
      else if verify(body.password.value, users[i].password) then Send(200, LoginSuccessful)
      else Send(400, InvalidEmailOrPassword)
  }

  /** The `/recover` handler; `sent` is whether the recovery mail went out. */
  function RecoverResult(users: seq<User>, email: Field, sent: bool): (r: Response)
    ensures r == Send(400, EmailNotFound) <==> !HasEmail(users, email)
    ensures HasEmail(users, email) ==>
      r == if sent then Send(200, RecoveryEmailSent) else Send(500, RecoveryEmailFailed)
  {
    match FindIndex(users, email)
    case None => Send(400, EmailNotFound)
    case Some(_) =>
      if sent then Send(200, RecoveryEmailSent) else Send(500, RecoveryEmailFailed)
  }

  /** The server process and the users file it reads and overwrites. */
  class Server {
    /** The contents of the users file. */
    var stored: seq<User>

    /** Start-up: an absent users file is created holding an empty list. */
    constructor (existing: Option<seq<User>>)
      ensures existing.None? ==> stored == []
      ensures existing.Some? ==> stored == existing.value
    {
      match existing
      case None => stored := [];
      case Some(s) => stored := s;
    }

    /** `loadUsers`: reads the whole file. */
    method Load() returns (users: seq<User>)
      ensures users == stored
    {
      users := stored;
    }

    /** `saveUsers`: overwrites the whole file. */
    method Save(users: seq<User>)
      modifies this
      ensures stored == users
    {
      stored := users;
    }

    method Register(body: RegisterBody, hashed: string, sent: bool) returns (r: Response)
      modifies this
      ensures Handled(r, stored) == RegisterResult(old(stored), body, hashed, sent)
      ensures old(stored) <= stored
      ensures EmailsUnique(old(stored)) ==> EmailsUnique(stored)
    {
      if !Complete(body) {
        return Send(400, AllFieldsRequired);
      }
      var users := Load();
      if AnyWithEmail(users, body.email) {
        return Send(400, EmailAlreadyRegistered);
      }
      users := users + [NewRecord(body, hashed)];
      Save(users);
      // The file is written before the notification outcome is looked at.
      if sent {
        r := Send(200, RegistrationSuccessful);
      } else {
        r := Send(500, RegistrationEmailFailed);
      }
    }

    method Login(body: LoginBody, verify: (string, string) -> bool) returns (r: Response)
      ensures r == LoginResult(stored, body, verify)
    {
      var users := Load();
      r := LoginResult(users, body, verify);
    }

    method Recover(email: Field, sent: bool) returns (r: Response)
      ensures r == RecoverResult(stored, email, sent)
    {
      var users := Load();
      r := RecoverResult(users, email, sent);
    }
  }
}
