# Login form backend: credential store and auth handlers

A Dafny model of the user store and the three request handlers of a small
Express backend (`server.js`):

- `POST /register` checks that `fName`, `lname`, `email` and `password` are all
  present and non-empty. It rejects an address that is already stored, by exact
  string comparison. Otherwise it hashes the password, appends
  `{fName, lname, email, password: <hash>}` to the users list and writes the
  whole list back to `users.json`. Only then does it send a notification mail.
  The mail outcome picks 200 "Registration successful." or 500 "Registration
  email failed to send.".
- `POST /login` finds the first record with that address and checks the
  password against its stored hash. An unknown address and a wrong password
  both get 400 "Invalid email or password.".
- `POST /recover` answers 400 "Email not found." for an unknown address.
  Otherwise it sends a fixed recovery mail and answers 200 "Recovery email
  sent!" or 500 "Error sending recovery email.".

Layout:

- `server.dfy`, module `Server`: the records, the request bodies and responses,
  the two lookups (`users.some` and `users.find`), one specification function
  per handler, and class `Server`. The class holds the contents of `users.json`
  in the field `stored`. `Load` and `Save` read and overwrite it as a whole.
  `Register` is proved against `RegisterResult`. `Login` and `Recover` have no
  `modifies` clause, so they cannot change the file.
- `properties.dfy`, module `ServerProperties`: the properties of the handlers.
  They are stated once per request, then over any sequence of requests (`Run`),
  then for a worked session.

Modelling choices:

- A body field is `Absent` (missing, `undefined` or `null`) or `Present(s)`.
  JavaScript's `!field` is modelled by `Falsy`: the field is missing or `""`.
- `bcrypt.hash` is salted and not deterministic. Its output is the parameter
  `hashed` of a registration. `bcrypt.compare` is a caller-supplied function
  `verify(plaintext, hash)`.
- `bcrypt.compare` rejects when its plaintext argument is missing, and the
  login handler does not catch that rejection. The model returns `Rejected` in
  that case: the handler itself sends no response. The lemma
  `LoginWithoutPasswordRevealsKnownEmail` shows the consequence. A login
  request without a password field gets 400 for an unknown address but a
  rejection for a known one. So the identical-answer property holds only for
  requests that carry a password.
- Whether `transporter.sendMail` succeeded is the boolean `sent`.
- Email comparison is exact and case-sensitive, as in the code.

## Model

| member | source | states |
|---|---|---|
| `Server.AnyWithEmail` | server.js:45 | `users.some(u => u.email === email)` is true exactly when some stored record has that address; a missing field matches no record |
| `Server.FindIndex` | server.js:79 | `users.find` gives nothing exactly when no record has the address; otherwise it gives the first record with it, and no earlier record matches |
| `Server.RegisterResult` | server.js:39-72 | register always sends a status. A missing or empty field gives 400 "All fields are required."; otherwise an already stored address gives 400 "Email already registered."; in both cases the file is unchanged. Status 400 arises in no other case. Otherwise the file gains exactly the new record at its end, and the answer is 200 "Registration successful." if the mail went out and 500 "Registration email failed to send." if not |
| `Server.LoginResult` | server.js:75-86 | login answers "Login successful.", answers 400 "Invalid email or password.", or rejects. It rejects exactly for a known address with no password. An unknown address always gets the 400 |
| `Server.RecoverResult` | server.js:89-108 | recover gives 400 "Email not found." exactly when no record has the address; otherwise the mail outcome gives 200 "Recovery email sent!" or 500 "Error sending recovery email." |
| `Server.Server.constructor` | server.js:16-17 | a missing users file starts as an empty list; an existing one is kept as it is |
| `Server.Server.Load` | server.js:19-21 | `loadUsers` returns the whole stored list |
| `Server.Server.Save` | server.js:22-24 | `saveUsers` replaces the whole stored list with the one given |
| `Server.Server.Register` | server.js:39-72 | the response and the new file are those of `RegisterResult` on the old file; the old file is a prefix of the new one; unique addresses stay unique |
| `Server.Server.Login` | server.js:75-86 | the response is `LoginResult` on the stored list; the file is not modified |
| `Server.Server.Recover` | server.js:89-108 | the response is `RecoverResult` on the stored list; the file is not modified |
| `ServerProperties.RegisterMissingField` | server.js:41-42 | if any of the four fields is missing or is the empty string (what JavaScript's `!field` catches), the answer is 400 "All fields are required." and the file is unchanged |
| `ServerProperties.RegisterDuplicateEmail` | server.js:44-46 | a complete request whose address is already stored gives 400 "Email already registered." and leaves the file unchanged |
| `ServerProperties.RegisterAppendsOneRecord` | server.js:48-50 | a request that passes both checks appends exactly one record, `{fName, lname, email, password: hash}` built from the request and the hash, not the plaintext; every earlier record is unchanged |
| `ServerProperties.RegisterIsAppendOnly` | server.js:44-50 | the old file is a prefix of the new one, which is at most one record longer |
| `ServerProperties.RegisterFailureLeavesStore` | server.js:41-50 | register always sends a status; that status is 400 exactly when the file is left unchanged |
| `ServerProperties.RegisterKeepsEmailsUnique` | server.js:45-50 | if all stored addresses are distinct before a register, they are distinct after it, whether it succeeds or fails |
| `ServerProperties.RegisterCommitsBeforeNotifying` | server.js:50-71 | for a request that passes both checks, the new file is the same whether or not the mail went out; the mail outcome gives 200 "Registration successful." or 500 "Registration email failed to send." |
| `ServerProperties.RegisterTwiceIsDuplicate` | server.js:44-46 | after any complete register, a second complete register with the same address gives 400 "Email already registered." and leaves the file unchanged |
| `ServerProperties.RegisterDistinctEmailsBothAppend` | server.js:44-71 | two complete registrations with different, unstored addresses both go through: each appends its own record in order, and each gets 200 or 500 from its own mail outcome |
| `ServerProperties.EmailLookupIsExact` | server.js:45 | `u.email === email` is exact string equality: a supplied address is stored exactly when some record's address is that same string, and a missing field matches no record |
| `ServerProperties.FindAppended` | server.js:49 | a record appended with an address not already stored is the one `users.find` returns for that address |
| `ServerProperties.LoginAfterRegister` | server.js:48-50 | right after a register that passes both checks, even one whose mail failed, login with the same address and password succeeds exactly when the password verifies against the new hash |
| `ServerProperties.LoginSameAnswerForUnknownEmailAndWrongPassword` | server.js:79-83 | an unknown address, and a known address with a password that fails the check, both get exactly 400 "Invalid email or password." |
| `ServerProperties.LoginSucceedsIff` | server.js:77-85 | login gives 200 "Login successful." exactly when the first record with that address accepts the supplied password |
| `ServerProperties.UniqueFindIsOnly` | server.js:79 | when addresses are unique, the record `users.find` returns is the only record with that address |
| `ServerProperties.LoginSucceedsIffUnique` | server.js:77-85 | when addresses are unique, login succeeds exactly when some record with that address accepts the supplied password |
| `ServerProperties.LoginWithoutPasswordRevealsKnownEmail` | server.js:79-82 | with no password field, a known address gets a rejection and an unknown one gets 400 |
| `ServerProperties.RunKeepsEmailsUnique` | server.js:39-108 | starting from distinct addresses, any sequence of register, login and recover requests leaves the addresses distinct |
| `ServerProperties.RunIsAppendOnly` | server.js:39-108 | after any sequence of requests, the starting file is a prefix of the final one |
| `ServerProperties.Session` | server.js:39-108 | register Ann: 200. Register the same address again: 400 duplicate. Log in with the right password: 200. Log in with a wrong one: 400. Recover an unknown address: 400 "Email not found." |

## Left out

- HTTP plumbing: Express setup, CORS, JSON body parsing, static files and the listening port (server.js:11-14, 110-111).
- Environment configuration through dotenv (server.js:8-9) and the sender and recipient addresses it provides.
- The mail transporter and `sendMail` (server.js:27-34, 65, 102): each send is modelled only by its success flag. The mail subjects and bodies (server.js:53-62, 95-100) are presentation and are not modelled.
- bcrypt's algorithm (server.js:48, 82): the hash is an input and the check is a supplied function. Salting, the work factor of 10 and timing behaviour are not modelled.
- File I/O and JSON (de)serialisation (server.js:16-24): the file is a sequence of records, read and overwritten whole. Read or write failures and a malformed file are not modelled.
- Request field values that are JSON non-strings (numbers, booleans, objects): a field is either missing or a string.
- Concurrency: register reads the file, then awaits the password hash, then appends and saves (server.js:44-50), so two requests can interleave. Both can pass the duplicate check and store the same address twice. A request can also save a list read before another request's save, which loses the other record: two registers with different addresses both load `[]`, the first saves `[a]`, the second saves `[b]`. The model handles requests one at a time, so `RegisterIsAppendOnly`, `RunIsAppendOnly`, `RegisterKeepsEmailsUnique` and `RunKeepsEmailsUnique` hold only for requests handled one after another.
- Logging through `console.log` and `console.error`.
- What happens after a rejected login promise depends on the framework and the Node.js version. The model stops at `Rejected`.
