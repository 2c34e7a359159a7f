# Student login service and login screen, modelled in Dafny

This project models the decision core of a small Express/MySQL backend and its React login screen:

- The account service (`backend/index.js`). The `student` table is a class holding a sequence of rows and the next auto-increment id. POST `/signup`, `/login` and `/google-auth` are methods on it. `Serve` runs any sequence of those requests, one atomic step after another. Every `SELECT ... WHERE` is the generic filter `Table.Select`, and `results[0]` is its first element. The INSERT appends a row with the next id. The UPDATE rewrites the rows whose id matches.
- The e-mail validator shared by the backend files and the screen, `^[\w-]+(\.[\w-]+)*@([\w-]+\.)+[a-zA-Z]{2,7}$`. It is modelled twice: as a declarative pattern (`EmailPattern.MatchesPattern`: dot-joined words, `@`, dot-terminated labels, a 2–7 letter top-level label) and as a recogniser that splits on `@` and `.` (`EmailPattern.IsValidEmail`). The two are proved equivalent.
- The admin login (`backend/adminLogin.js`). It is a function of the `adminlog` table, so it cannot change the table.
- The enquiry log (`backend/enquiryForm.js`). It is a class over the `enquirydetails` table, with the validated append and the five-column read.
- The screen (`frontend/src/screens/Login.jsx`). This covers the signup gate (e-mail pattern, then ten digits), the mapping from a server error to an alert, the spread updates of the two credential records, and the state changes of the submit handlers. The server's answer is a parameter of each handler.

The library calls are symbolic terms (module `Crypto`):

- A bcrypt digest records its cost, its salt and the password it was made from. `compare` checks that password.
- A JWT is its claims together with the key that signed it.
- `verifyIdToken` is replaced by its outcome, passed in: `Some(profile)` or `None`.

The random salt, the random Google password and `NOW()` are also inputs. Response messages are the source's string constants. The three duplicate-signup messages are written as a head plus the shared tail `" Please try logging in."`, which concatenates to the same text.

Some behaviour the code has and the model keeps:

- The server never checks the mobile format; only the screen does.
- A Google sign-up stores the mobile `''`. A later password signup with an empty mobile therefore gets "Mobile number already exists". Only non-empty mobiles are proved to stay unique.
- The signup form's `confirmPassword` is never compared with the password (`LoginScreen.ConfirmPasswordIgnored`).

## Model

| member | source | states |
|---|---|---|
| EmailPattern.IsValidEmailCorrect | backend/index.js:59-62 | the recogniser accepts a string exactly when it matches the pattern: dot-separated `[\w-]+` words, `@`, one or more `[\w-]+.` labels, a 2–7 letter final label |
| EmailPattern.RecogniserSound | backend/index.js:59-62 | every string the recogniser accepts decomposes into local words, domain labels and a top-level label as the pattern requires |
| EmailPattern.RecogniserComplete | backend/index.js:59-62 | every decomposition the pattern admits is accepted by the recogniser |
| EmailPattern.SplitJoin | backend/index.js:59-62 | splitting a separator-joined list of separator-free parts gives back the parts (the recogniser's `@`/`.` split inverts the pattern's joins) |
| Crypto.Hash | backend/index.js:186-187 | a digest from `bcrypt.hash(password, 10)` has cost 10 and verifies against its own password |
| Crypto.CompareHash | backend/index.js:227-228 | `bcrypt.compare` accepts a digest for its own password; under the symbolic digest, for no other (bcrypt itself also accepts passwords that agree on the first 72 bytes, see Left out) |
| Crypto.SignVerify | backend/index.js:240 | a signed token verifies under its own key with its claims, and under any other key not at all |
| Table.Select | backend/index.js:152-153 | `SELECT * ... WHERE p` returns only matching rows of the table and every matching row; it is non-empty iff some row matches, and its first element is the first matching row |
| StudentAccounts.WithEmailFirst | backend/index.js:214-225 | the lookup by e-mail is non-empty iff the e-mail is taken, and `results[0]` is the first row with that e-mail |
| StudentAccounts.WithMobileTaken | backend/index.js:160-161 | the lookup by mobile is non-empty iff some row has that mobile |
| StudentAccounts.MarkGoogleUserOne | backend/index.js:120-121 | with ids strictly increasing, `UPDATE ... WHERE id = ?` on row k's id sets the flag of row k and of no other row |
| StudentAccounts.AppendFresh | backend/index.js:189-190 | appending a row with the next id and an unseen e-mail keeps the ids increasing and below the counter, makes it the first row with its e-mail, changes no earlier row, and keeps e-mails (and, for a free mobile, mobiles) unique |
| StudentAccounts.FlagFirst | backend/index.js:116-122 | setting the flag of the first row with an e-mail keeps that row the only first one with it, changes no id, e-mail or mobile, and keeps both uniqueness invariants |
| StudentAccounts.StudentTable.Insert | backend/index.js:189-190 | the INSERT appends exactly one row whose id is the returned insert id, keeps the table valid, and preserves e-mail uniqueness and (for an empty or free mobile) mobile uniqueness |
| StudentAccounts.StudentTable.SetGoogleUser | backend/index.js:120-121 | the UPDATE sets the flag of the one row with that id, changes nothing else, and keeps the table valid |
| StudentAccounts.StudentTable.Signup | backend/index.js:147-207 | the decision table: both taken → "Account already exists…", only e-mail → "Email already exists…", only mobile → "Mobile number already exists…", and only then a malformed e-mail → "Invalid email format"; 200 iff neither is taken and the e-mail matches the pattern; a success appends exactly one row (next id, given name/e-mail/mobile, the bcrypt digest of the password, flag 0) and changes no prior row; every failure leaves the table unchanged; uniqueness is preserved |
| StudentAccounts.StudentTable.Login | backend/index.js:210-247 | 200 iff the first row with the e-mail has a digest matching the password; an unknown e-mail and a wrong password get the same 400 "Invalid credentials"; the token binds that row's id under the student key; the table is not changed |
| StudentAccounts.StudentTable.GoogleAuth | backend/index.js:66-144 | a rejected token gets 401 with the table unchanged; an unseen e-mail appends exactly one row (next id, mobile `''`, flag 1, hashed random password) and the token binds the new id; a seen e-mail appends nothing, sets the first matching row's flag (no other row changes), and the token binds that row's id; afterwards the e-mail's first row is flagged and is the one the token names; uniqueness is preserved |
| StudentAccounts.StudentTable.Serve | backend/index.js:66-207 | any sequence of signup, login and Google requests returns one response per request, keeps the table valid, never deletes a row, changes a prior row at most by setting its Google flag, and keeps unique e-mails (and non-empty mobiles) unique |
| StudentAccounts.StudentTable.SignupThenLogin | backend/index.js:186-241 | after a successful signup, logging in with the same e-mail and password succeeds with a token for the new row's id |
| StudentAccounts.StudentTable.GoogleAuthTwice | backend/index.js:88-137 | a second Google sign-in with the same profile succeeds with the same response as the first (the same symbolic token, hence the same user id; see Left out), and the two together add one row for an unseen e-mail and none for a seen one |
| AdminLogin.AdminLogin | backend/adminLogin.js:15-46 | 200 iff some `adminlog` row has exactly that username and plaintext password; otherwise 400 "Invalid admin credentials"; a success signs `{user1: {id}}` of the first matching row with the admin key |
| AdminLogin.AdminTokenIsNotStudentToken | backend/adminLogin.js:32-38 | a token issued by admin login never verifies under the student key, assuming the two configured secrets differ (see Left out) |
| EnquiryForm.IsValidEmail | backend/enquiryForm.js:36-39 | this file's validator accepts exactly the same language as the signup validator (the pattern) |
| EnquiryForm.EnquiryTable.Submit | backend/enquiryForm.js:12-33 | a malformed e-mail gets 400 "Invalid email format" with the table unchanged; a valid one appends exactly one row (name, e-mail, mobile := mob, query, the insertion time) after the untouched existing rows and answers "Form submitted successfully" |
| EnquiryForm.EnquiryTable.GetEnquiries | backend/enquiryForm.js:42-50 | returns one entry per stored row, in order, each the row's name, e-mail, mobile, query and date; the table is not changed |
| LoginScreen.Update | frontend/src/screens/Login.jsx:165 | `{...credentials, [name]: value}` sets the named field and leaves the other four as they were |
| LoginScreen.UpdateLogin | frontend/src/screens/Login.jsx:169 | `{...loginCredentials, [name]: value}` sets the named field and leaves the other as it was |
| LoginScreen.SignupGate | frontend/src/screens/Login.jsx:97-111 | the request is sent iff the e-mail matches the pattern and the mobile is exactly ten ASCII digits; a bad e-mail is reported before a bad mobile; the form sent is name, e-mail, password and mobile as entered |
| LoginScreen.ConfirmPasswordIgnored | frontend/src/screens/Login.jsx:97-111 | the confirmation field has no effect on the gate, so a mismatching confirmation is sent anyway |
| LoginScreen.IncludesOccurs | frontend/src/screens/Login.jsx:123-127 | `s.includes(sub)` holds iff `sub` occurs in `s` at some position |
| LoginScreen.SignupFailureAlert | frontend/src/screens/Login.jsx:120-134 | no (or an empty) server message → "Error creating account…"; a message with both "Email" and "Mobile" → "This Account already exists…", taking precedence; only "Email" → the e-mail alert; only "Mobile" → the mobile alert; neither → the message itself |
| LoginScreen.AccountExistsShownVerbatim | frontend/src/screens/Login.jsx:123-131 | the server's both-taken message "Account already exists. Please try logging in." (backend/index.js:168) holds neither keyword, so the screen shows it as it is and never raises its own both-taken alert for it |
| LoginScreen.EmailExistsAlert | frontend/src/screens/Login.jsx:125-126 | the server's e-mail-taken message maps to "This Email already exists…" |
| LoginScreen.MobileExistsAlert | frontend/src/screens/Login.jsx:127-128 | the server's mobile-taken message maps to "This Mobile number already exists…" |
| LoginScreen.InvalidFormatShownVerbatim | frontend/src/screens/Login.jsx:129-130 | the server's "Invalid email format" is shown as it is |
| LoginScreen.ServerSignupErrors | frontend/src/screens/Login.jsx:120-134 | for every 400 error the signup endpoint can send, the alert is never the both-taken alert: the two single-field duplicates map to their alerts, the rest are shown verbatim |
| LoginScreen.Screen.constructor | frontend/src/screens/Login.jsx:12-14 | the screen starts with empty credentials, empty login credentials and no error |
| LoginScreen.Screen.HandleSignupSubmit | frontend/src/screens/Login.jsx:95-136 | a form the gate stops raises its alert and sends nothing, with no state change; an accepted signup resets all five fields to `""` and the error to null; a failed one raises SignupFailureAlert's alert and keeps the fields |
| LoginScreen.Screen.HandleLoginSubmit | frontend/src/screens/Login.jsx:138-157 | sends the login fields; a success clears them and the error and stores the token in the cookie; a failure raises "Invalid credentials…" and changes nothing |
| LoginScreen.Screen.HandleGoogleSignIn | frontend/src/screens/Login.jsx:65-85 | a success clears the login fields and the error and stores the token; a failure raises the Google error alert and changes nothing |
| LoginScreen.Screen.OnChange | frontend/src/screens/Login.jsx:159-166 | a mobile value `isNaN` flags leaves the state unchanged; any other edit sets only the named field |
| LoginScreen.Screen.OnLoginChange | frontend/src/screens/Login.jsx:168-170 | sets only the named login field |

## Left out

- Database-error (500) answers and `console` logging. Every query is modelled as succeeding. The best-effort UPDATE in the Google path, whose failure the handler only logs, is modelled as succeeding too.
- The MySQL connection, Express routing and middleware, CORS headers, `dotenv` and `app.listen`. They are configuration and I/O.
- Concurrency. Each request is one atomic step. The check-then-insert race between two concurrent signups or Google sign-ins for the same e-mail, which could break uniqueness, is therefore not modelled.
- StudentAccounts.StudentTable.Signup: compares e-mails and mobiles by exact string equality. MySQL compares them by the column's collation: case-insensitive and, depending on the version, accent- and trailing-space-insensitive. The same holds for Login and GoogleAuth.
- AdminLogin.AdminLogin: compares the username and the plaintext password by exact string equality. MySQL compares them by the column's collation, so under the usual case-insensitive collation a password that differs only in letter case (or, depending on the version, in accents or trailing spaces) is also accepted. "Exactly" in its row holds of the model only.
- Crypto.Hash: bcrypt, JWT signing and Google token verification are symbolic. A digest matches only its own password (no collisions), and a token is its claims plus its key, without the `iat` claim jsonwebtoken adds. The real algorithms and encodings are not modelled.
- Crypto.CompareHash: bcrypt uses only the first 72 bytes of a password, so `compare` also accepts any password that agrees with the hashed one on those bytes. The symbolic Compare checks the whole password, so the "only if" half holds of the model and not of bcrypt. StudentAccounts.StudentTable.Login inherits this: where the model answers 400 to a long password that differs only after byte 72, the server answers 200.
- AdminLogin.AdminTokenIsNotStudentToken: the two signing keys are distinct constructors, so the model assumes `JWT_SECRET` and `ADMIN_JWT_SECRET` are configured to different values. Nothing in the code enforces this; if they are equal, an admin token also verifies under the student key.
- StudentAccounts.StudentTable.GoogleAuth: the random password (`Math.random`), the bcrypt salt and the result of verifying the ID token are inputs.
- EnquiryForm.EnquiryTable.Submit: the row's date is the input `now` rather than SQL `NOW()`.
- EnquiryForm.EnquiryTable: the `id` field of a stored enquiry and the `nextId` counter are padding state. The code never names an id column of `enquirydetails`; they stand for whatever key the database keeps, no contract depends on their values, and the five-column read drops them.
- StudentAccounts.StudentTable.GoogleAuthTwice: Crypto.Sign leaves out the `iat` (issued-at, in seconds) claim that jsonwebtoken adds by default. Two real sign-ins in different seconds return different `authToken` strings naming the same id; identical responses hold only of the symbolic token.
- Table.Select: the SELECTs have no `ORDER BY`, so "`results[0]` is the first matching row in table order" assumes the engine returns matching rows in insertion order. SQL does not promise this; with another order, login and Google sign-in would pick a different row among rows sharing an e-mail (possible only if e-mails were already duplicated).
- StudentAccounts.StudentTable.Insert: ids are a counter that the INSERT takes and advances. MySQL's auto-increment can also skip values; the model only relies on ids increasing.
- LoginScreen.Screen.OnChange: JavaScript's `isNaN` string-to-number coercion is an abstract parameter.
- React rendering and JSX, the Google SDK script loading in `useEffect`, the wrapper toggles and animations, password-visibility toggles, `navigate`, and the `alert` side effects. The alert text is each handler's result.
- Field names other than the five inputs (the spread update with an unknown `name` would add a key). Only the rendered inputs are modelled.
