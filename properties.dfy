/**
 * What the three handlers guarantee about the users file and about their
 * responses, one request at a time and over any sequence of requests.
 */
module ServerProperties {
  import opened Server

  // ---------------------------------------------------------------------
  // Register

  /** A field that is missing or holds "" fails the presence check. */
  lemma RegisterMissingField(users: seq<User>, body: RegisterBody, hashed: string, sent: bool)
    requires || body.fName in {Absent, Present("")}
             || body.lname in {Absent, Present("")}
             || body.email in {Absent, Present("")}
             || body.password in {Absent, Present("")}
    ensures RegisterResult(users, body, hashed, sent) == Handled(Send(400, AllFieldsRequired), users)
  {
  }

  lemma RegisterDuplicateEmail(users: seq<User>, body: RegisterBody, hashed: string, sent: bool)
    requires Complete(body) && HasEmail(users, body.email)
    ensures RegisterResult(users, body, hashed, sent) == Handled(Send(400, EmailAlreadyRegistered), users)
  {
  }

  /**
   * A request that passes both checks appends exactly one record, whose
   * password is the hash and not the plaintext; earlier records stay as
   * they were.
   */
  lemma RegisterAppendsOneRecord(users: seq<User>, body: RegisterBody, hashed: string, sent: bool)
    requires Complete(body) && !HasEmail(users, body.email)
    ensures var after := RegisterResult(users, body, hashed, sent).users;
      && |after| == |users| + 1
      && after[..|users|] == users
      && after[|users|] == User(body.fName.value, body.lname.value, body.email.value, hashed)
  {
  }

  /** The store only grows, and only at its end. */
  lemma RegisterIsAppendOnly(users: seq<User>, body: RegisterBody, hashed: string, sent: bool)
    ensures users <= RegisterResult(users, body, hashed, sent).users
    ensures |RegisterResult(users, body, hashed, sent).users| <= |users| + 1
  {
  }

  /** A rejected request (status 400) is exactly one that leaves the store as it was. */
  lemma RegisterFailureLeavesStore(users: seq<User>, body: RegisterBody, hashed: string, sent: bool)
    ensures var h := RegisterResult(users, body, hashed, sent);
      h.response.Send? && (h.response.status == 400 <==> h.users == users)
  {
  }

  lemma RegisterKeepsEmailsUnique(users: seq<User>, body: RegisterBody, hashed: string, sent: bool)
    requires EmailsUnique(users)
    ensures EmailsUnique(RegisterResult(users, body, hashed, sent).users)
  {
  }

  /**
   * The file is written before the mail outcome is known: the store after
   * the request does not depend on it, and the outcome only picks 200 or
   * 500 once the record is in.
   */
  lemma RegisterCommitsBeforeNotifying(users: seq<User>, body: RegisterBody, hashed: string)
    requires Complete(body) && !HasEmail(users, body.email)
    ensures RegisterResult(users, body, hashed, true).users == RegisterResult(users, body, hashed, false).users
    ensures RegisterResult(users, body, hashed, true).response == Send(200, RegistrationSuccessful)
    ensures RegisterResult(users, body, hashed, false).response == Send(500, RegistrationEmailFailed)
  {
  }

  /** Registering the same address twice fails the second time. */
  lemma RegisterTwiceIsDuplicate(users: seq<User>, first: RegisterBody, second: RegisterBody,
                                 h1: string, h2: string, sent1: bool, sent2: bool)
    requires Complete(first) && Complete(second) && first.email == second.email
    ensures var after := RegisterResult(users, first, h1, sent1).users;
      RegisterResult(after, second, h2, sent2) == Handled(Send(400, EmailAlreadyRegistered), after)
  {
    var after := RegisterResult(users, first, h1, sent1).users;
    if !HasEmail(users, first.email) {
      assert Matches(after[|users|], second.email);
    }
  }

  /**
   * Two complete registrations with different, not yet stored addresses
   * both go through: each appends its own record, in order.
   */
  lemma RegisterDistinctEmailsBothAppend(users: seq<User>, first: RegisterBody, second: RegisterBody,
                                         h1: string, h2: string, sent1: bool, sent2: bool)
    requires Complete(first) && Complete(second) && first.email != second.email
    requires !HasEmail(users, first.email) && !HasEmail(users, second.email)
    ensures var one := RegisterResult(users, first, h1, sent1);
      var two := RegisterResult(one.users, second, h2, sent2);
      && one.users == users + [NewRecord(first, h1)]
      && two.users == users + [NewRecord(first, h1), NewRecord(second, h2)]
      && one.response == (if sent1 then Send(200, RegistrationSuccessful) else Send(500, RegistrationEmailFailed))
      && two.response == (if sent2 then Send(200, RegistrationSuccessful) else Send(500, RegistrationEmailFailed))
  {
  }

  /**
   * Lookup by address is exact string equality on a supplied field; a
   * missing field finds no record.
   */
  lemma EmailLookupIsExact(users: seq<User>, e: string)
    ensures !HasEmail(users, Absent)
    ensures HasEmail(users, Present(e)) <==> exists i :: 0 <= i < |users| && users[i].email == e
  {
  }

  /** The record appended last is the first one with its address. */
  lemma FindAppended(users: seq<User>, u: User, email: Field)
    requires Matches(u, email) && !HasEmail(users, email)
    ensures FindIndex(users + [u], email) == Some(|users|)
  {
    var all := users + [u];
    assert Matches(all[|users|], email);
  }

  /**
   * Right after a register that passed both checks, a login with the same
   * address succeeds exactly when the password verifies against the new
   * hash, whether or not the notification mail went out.
   */
  lemma LoginAfterRegister(users: seq<User>, body: RegisterBody, hashed: string, sent: bool,
                           verify: (string, string) -> bool)
    requires Complete(body) && !HasEmail(users, body.email)
    ensures var after := RegisterResult(users, body, hashed, sent).users;
      LoginResult(after, LoginBody(body.email, body.password), verify)
        == if verify(body.password.value, hashed) then Send(200, LoginSuccessful)
           else Send(400, InvalidEmailOrPassword)
  {
    FindAppended(users, NewRecord(body, hashed), body.email);
  }

  // ---------------------------------------------------------------------
  // Login

  /**
   * An unknown address and a known address with a wrong password get the
   * same status and the same text.
   */
  lemma LoginSameAnswerForUnknownEmailAndWrongPassword(
    users: seq<User>, unknown: LoginBody, known: Field, password: string, i: nat,
    verify: (string, string) -> bool)
    requires !HasEmail(users, unknown.email)
    requires FindIndex(users, known) == Some(i) && !verify(password, users[i].password)
    ensures LoginResult(users, unknown, verify) == Send(400, InvalidEmailOrPassword)
    ensures LoginResult(users, LoginBody(known, Present(password)), verify) == Send(400, InvalidEmailOrPassword)
  {
  }

  /**
   * Login succeeds exactly when the first record with that address
   * accepts the password.
   */
  lemma LoginSucceedsIff(users: seq<User>, body: LoginBody, verify: (string, string) -> bool)
    ensures LoginResult(users, body, verify) == Send(200, LoginSuccessful)
      <==> exists i :: 0 <= i < |users| && Matches(users[i], body.email)
             && (forall j :: 0 <= j < i ==> !Matches(users[j], body.email))
             && body.password.Present? && verify(body.password.value, users[i].password)
  {
  }

  /** In a store with unique addresses the first record with an address is the only one. */
  lemma UniqueFindIsOnly(users: seq<User>, email: Field, i: nat, k: nat)
    requires EmailsUnique(users)
    requires FindIndex(users, email) == Some(i)
    requires k < |users| && Matches(users[k], email)
    ensures k == i
  {
  }

  /**
   * With unique addresses, login succeeds exactly when some record with
   * that address accepts the password.
   */
  lemma LoginSucceedsIffUnique(users: seq<User>, body: LoginBody, verify: (string, string) -> bool)
    requires EmailsUnique(users)
    ensures LoginResult(users, body, verify) == Send(200, LoginSuccessful)
      <==> exists i :: 0 <= i < |users| && Matches(users[i], body.email)
             && body.password.Present? && verify(body.password.value, users[i].password)
  {
  }

  /**
   * Without a password field, the password check rejects for a known
   * address while an unknown one still gets the 400 reply, so the two
   * cases can be told apart.
   */
  lemma LoginWithoutPasswordRevealsKnownEmail(users: seq<User>, known: Field, unknown: Field,
                                               verify: (string, string) -> bool)
    requires HasEmail(users, known) && !HasEmail(users, unknown)
    ensures LoginResult(users, LoginBody(known, Absent), verify) == Rejected
    ensures LoginResult(users, LoginBody(unknown, Absent), verify) == Send(400, InvalidEmailOrPassword)
  {
  }

  // ---------------------------------------------------------------------
  // Any sequence of requests

  /**
   * A request as the server sees it, with the values the model takes as
   * inputs: the hash computed for a registration, the password check, and
   * whether the mail went out.
   */
  datatype Request =
    | RegisterRequest(body: RegisterBody, hashed: string, sent: bool)
    | LoginRequest(login: LoginBody, verify: (string, string) -> bool)
    | RecoverRequest(email: Field, sent: bool)

  /** The users file after one request. Login and recover never write it. */
  function Step(users: seq<User>, req: Request): seq<User> {
    match req
    case RegisterRequest(body, hashed, sent) => RegisterResult(users, body, hashed, sent).users
    case LoginRequest(_, _) => users
    case RecoverRequest(_, _) => users
  }

  /** The users file after handling the requests one after another. */
  function Run(users: seq<User>, reqs: seq<Request>): seq<User>
    decreases |reqs|
  {
    if reqs == [] then users else Run(Step(users, reqs[0]), reqs[1..])
  }

  lemma {:induction false} RunKeepsEmailsUnique(users: seq<User>, reqs: seq<Request>)
    requires EmailsUnique(users)
    ensures EmailsUnique(Run(users, reqs))
    decreases |reqs|
  {
    if reqs != [] {
      var next := Step(users, reqs[0]);
      if reqs[0].RegisterRequest? {
        RegisterKeepsEmailsUnique(users, reqs[0].body, reqs[0].hashed, reqs[0].sent);
      }
      RunKeepsEmailsUnique(next, reqs[1..]);
    }
  }

  /**
   * When requests are handled one after another, no request ever changes
   * or removes a stored record.
   */
  lemma {:induction false} RunIsAppendOnly(users: seq<User>, reqs: seq<Request>)
    ensures users <= Run(users, reqs)
    decreases |reqs|
  {
    if reqs != [] {
      var next := Step(users, reqs[0]);
      if reqs[0].RegisterRequest? {
        RegisterIsAppendOnly(users, reqs[0].body, reqs[0].hashed, reqs[0].sent);
      }
      RunIsAppendOnly(next, reqs[1..]);
    }
  }

  // ---------------------------------------------------------------------
  // A worked session

  /**
   * Register Ann, register her address again, log in with the right and a
   * wrong password, and recover an unknown address.
   */
  lemma Session(verify: (string, string) -> bool, hashed: string)
    requires verify("secret1", hashed) && !verify("wrong", hashed)
    ensures var ann := RegisterBody(Present("Ann"), Present("Lee"), Present("a@x.com"), Present("secret1"));
      var first := RegisterResult([], ann, hashed, true);
      && first.response == Send(200, RegistrationSuccessful)
      && RegisterResult(first.users, ann, "other", true).response == Send(400, EmailAlreadyRegistered)
      && LoginResult(first.users, LoginBody(Present("a@x.com"), Present("secret1")), verify) == Send(200, LoginSuccessful)
      && LoginResult(first.users, LoginBody(Present("a@x.com"), Present("wrong")), verify) == Send(400, InvalidEmailOrPassword)
      && RecoverResult(first.users, Present("missing@x.com"), true) == Send(400, EmailNotFound)
  {
  }
}
