/**
 * The account service of the backend: the `student` table and the `/signup`, `/login`
 * and `/google-auth` handlers.  Each request runs as one atomic step over the table;
 * the SELECTs become Table.Select, the INSERTs an append and the UPDATE a rewrite of
 * the rows with the given id.
 */
module StudentAccounts {
  import opened Wrappers
  import opened Crypto
  import opened Http
  import opened Table
  import EmailPattern

  /** A row of `student`; `is_google_user` (0 or 1) is a bool. */
  datatype Student = Student(
    id: nat, name: string, email: string, password: Digest, mobile: string, isGoogleUser: bool)

  /** The tail the three duplicate messages share (written apart so proofs can read the text). */
  const TryLoggingIn := " Please try logging in."
  const AccountExists := "Account already exists." + TryLoggingIn
  const EmailExists := "Email already exists." + TryLoggingIn
  const MobileExists := "Mobile number already exists." + TryLoggingIn
  const InvalidEmailFormat := "Invalid email format"
  const SignupSuccessful := "Signup successful"
  const InvalidCredentials := "Invalid credentials"
  const LoginSuccessful := "Login successful"
  const GoogleSuccessful := "Google authentication successful"
  const InvalidGoogleToken := "Invalid Google token"

  /** `SELECT * FROM student WHERE email = ?` */
  function WithEmail(rows: seq<Student>, email: string): seq<Student> {
    Select(rows, (s: Student) => s.email == email)
  }

  /** `SELECT * FROM student WHERE mobile = ?` */
  function WithMobile(rows: seq<Student>, mobile: string): seq<Student> {
    Select(rows, (s: Student) => s.mobile == mobile)
  }

  /** `UPDATE student SET is_google_user = 1 WHERE id = ?` */
  function MarkGoogleUser(rows: seq<Student>, id: nat): seq<Student> {
    seq(|rows|, i requires 0 <= i < |rows| =>
      if rows[i].id == id then rows[i].(isGoogleUser := true) else rows[i])
  }

  ghost predicate EmailTaken(rows: seq<Student>, email: string) {
    exists i :: 0 <= i < |rows| && rows[i].email == email
  }

  ghost predicate MobileTaken(rows: seq<Student>, mobile: string) {
    exists i :: 0 <= i < |rows| && rows[i].mobile == mobile
  }

  /** Row `k` is the one `results[0]` picks from a lookup by e-mail. */
  ghost predicate FirstWithEmail(rows: seq<Student>, email: string, k: int) {
    0 <= k < |rows| && rows[k].email == email && forall j :: 0 <= j < k ==> rows[j].email != email
  }

  ghost predicate EmailsUnique(rows: seq<Student>) {
    forall i, j :: 0 <= i < j < |rows| ==> rows[i].email != rows[j].email
  }

  /** Non-empty mobile numbers are unique (Google accounts all have the empty one). */
  ghost predicate MobilesUnique(rows: seq<Student>) {
    forall i, j :: 0 <= i < j < |rows| && rows[i].mobile != "" ==> rows[i].mobile != rows[j].mobile
  }

  /** AUTO_INCREMENT: ids increase in insertion order and stay below the next id. */
  ghost predicate IdsOrdered(rows: seq<Student>, nextId: nat) {
    && (forall i :: 0 <= i < |rows| ==> rows[i].id < nextId)
    && (forall i, j :: 0 <= i < j < |rows| ==> rows[i].id < rows[j].id)
  }

  lemma WithEmailFirst(rows: seq<Student>, email: string)
    ensures |WithEmail(rows, email)| > 0 <==> EmailTaken(rows, email)
    ensures |WithEmail(rows, email)| > 0 ==>
      exists k :: FirstWithEmail(rows, email, k) && WithEmail(rows, email)[0] == rows[k]
  {
    var p := (s: Student) => s.email == email;
    if |WithEmail(rows, email)| > 0 {
      var k :| IsFirst(rows, p, k) && Select(rows, p)[0] == rows[k];
      assert FirstWithEmail(rows, email, k);
    }
  }

  lemma WithMobileTaken(rows: seq<Student>, mobile: string)
    ensures |WithMobile(rows, mobile)| > 0 <==> MobileTaken(rows, mobile)
  {
  }

  /** With distinct ids, the UPDATE by the id of row `k` sets the flag of row `k` and of no other row. */
  lemma {:induction false} MarkGoogleUserOne(rows: seq<Student>, nextId: nat, k: int)
    requires IdsOrdered(rows, nextId) && 0 <= k < |rows|
    ensures MarkGoogleUser(rows, rows[k].id) == rows[k := rows[k].(isGoogleUser := true)]
  {
    var r := MarkGoogleUser(rows, rows[k].id);
    forall i | 0 <= i < |rows| ensures r[i] == rows[k := rows[k].(isGoogleUser := true)][i] {
      if i < k {
        assert rows[i].id < rows[k].id;
      } else if k < i {
        assert rows[k].id < rows[i].id;
      }
    }
  }

  /**
   * `after` is `before` with rows appended and, at most, some Google flags set: what
   * any sequence of requests does to the table (no row is deleted or otherwise edited).
   */
  ghost predicate Grows(before: seq<Student>, after: seq<Student>) {
    && |before| <= |after|
    && forall i :: 0 <= i < |before| ==>
         after[i] == before[i] || after[i] == before[i].(isGoogleUser := true)
  }

  lemma GrowsTransitive(a: seq<Student>, b: seq<Student>, c: seq<Student>)
    requires Grows(a, b) && Grows(b, c)
    ensures Grows(a, c)
  {
  }

  /** Appending a row with the next id and an unseen e-mail keeps the table's invariants. */
  lemma AppendFresh(rows: seq<Student>, nextId: nat, row: Student)
    requires IdsOrdered(rows, nextId) && row.id == nextId && !EmailTaken(rows, row.email)
    ensures IdsOrdered(rows + [row], nextId + 1)
    ensures FirstWithEmail(rows + [row], row.email, |rows|)
    ensures Grows(rows, rows + [row])
    ensures EmailsUnique(rows) ==> EmailsUnique(rows + [row])
    ensures MobilesUnique(rows) && (row.mobile == "" || !MobileTaken(rows, row.mobile)) ==>
      MobilesUnique(rows + [row])
  {
  }

  /**
   * Setting the flag of the first row with an e-mail changes no id, e-mail or mobile,
   * and that row stays the (only) first one with the e-mail.
   */
  lemma FlagFirst(rows: seq<Student>, nextId: nat, email: string, k: int)
    requires IdsOrdered(rows, nextId) && FirstWithEmail(rows, email, k)
    ensures forall j :: FirstWithEmail(rows, email, j) ==> j == k
    ensures var r := rows[k := rows[k].(isGoogleUser := true)];
      && IdsOrdered(r, nextId)
      && FirstWithEmail(r, email, k) && r[k].isGoogleUser && r[k].id == rows[k].id
      && Grows(rows, r)
      && (EmailsUnique(rows) ==> EmailsUnique(r))
      && (MobilesUnique(rows) ==> MobilesUnique(r))
  {
    var r := rows[k := rows[k].(isGoogleUser := true)];
    assert forall j :: 0 <= j < |r| ==> r[j].email == rows[j].email && r[j].mobile == rows[j].mobile;
  }

  /** A request to the account service, with the inputs its library calls draw on. */
  datatype Request =
    | SignupRequest(name: string, email: string, mobile: string, password: string, salt: Salt)
    | LoginRequest(email: string, password: string)
    | GoogleRequest(ticket: Option<GoogleProfile>, randomPassword: string, salt: Salt)

  class StudentTable {
    var rows: seq<Student>
    var nextId: nat

    ghost predicate Valid()
      reads this
    {
      IdsOrdered(rows, nextId)
    }

    constructor (existing: seq<Student>, counter: nat)
      requires IdsOrdered(existing, counter)
      ensures Valid() && rows == existing && nextId == counter
    {
      rows := existing;
      nextId := counter;
    }

    /**
     * POST /signup.  Duplicate checks come first (both, then e-mail, then mobile), the
     * e-mail format check only after them, and a success appends exactly one row.
     */
    method Signup(name: string, email: string, mobile: string, password: string, salt: Salt)
      returns (res: Response)
      requires Valid()
      modifies this
      ensures Valid()
      ensures EmailTaken(old(rows), email) && MobileTaken(old(rows), mobile) ==>
        res == BadRequest(AccountExists)
      ensures EmailTaken(old(rows), email) && !MobileTaken(old(rows), mobile) ==>
        res == BadRequest(EmailExists)
      ensures !EmailTaken(old(rows), email) && MobileTaken(old(rows), mobile) ==>
        res == BadRequest(MobileExists)
      ensures (!EmailTaken(old(rows), email) && !MobileTaken(old(rows), mobile) &&
               !EmailPattern.MatchesPattern(email)) ==> res == BadRequest(InvalidEmailFormat)
      ensures res.status == 200 <==>
        !EmailTaken(old(rows), email) && !MobileTaken(old(rows), mobile) && EmailPattern.MatchesPattern(email)
      ensures res.status == 200 ==>
        && res == Ok(SignupSuccessful)
        && rows == old(rows) + [Student(old(nextId), name, email, Hash(password, salt), mobile, false)]
        && nextId == old(nextId) + 1
        && FirstWithEmail(rows, email, |old(rows)|)
      ensures res.status != 200 ==> rows == old(rows) && nextId == old(nextId)
      ensures Grows(old(rows), rows)
      ensures EmailsUnique(old(rows)) ==> EmailsUnique(rows)
      ensures MobilesUnique(old(rows)) ==> MobilesUnique(rows)
    {
      WithEmailFirst(rows, email);
      WithMobileTaken(rows, mobile);
      EmailPattern.IsValidEmailCorrect(email);
      var emailResults := WithEmail(rows, email);
      var mobileResults := WithMobile(rows, mobile);
      if |emailResults| > 0 && |mobileResults| > 0 {
        return BadRequest(AccountExists);
      }
      if |emailResults| > 0 {
        return BadRequest(EmailExists);
      }
      if |mobileResults| > 0 {
        return BadRequest(MobileExists);
      }
      if !EmailPattern.IsValidEmail(email) {
        return BadRequest(InvalidEmailFormat);
      }
      var hashedPassword := Hash(password, salt);
      var _ := Insert(name, email, hashedPassword, mobile, false);
      res := Ok(SignupSuccessful);
    }

    /**
     * POST /login.  An unknown e-mail and a wrong password get the same answer; a
     * success signs the id of the first row with that e-mail with the student key.
     */
    method Login(email: string, password: string) returns (res: Response)
      ensures res.status == 200 <==>
        exists k :: FirstWithEmail(rows, email, k) && Compare(password, rows[k].password)
      ensures res.status != 200 ==> res == BadRequest(InvalidCredentials)
      ensures forall k :: FirstWithEmail(rows, email, k) && Compare(password, rows[k].password) ==>
        res == Response(200, Auth(LoginSuccessful, Sign(User(rows[k].id), JwtSecret)))
    {
      WithEmailFirst(rows, email);
      var results := WithEmail(rows, email);
      if |results| == 0 {
        return BadRequest(InvalidCredentials);
      }
      var user := results[0];
      var passwordMatch := Compare(password, user.password);
      if !passwordMatch {
        return BadRequest(InvalidCredentials);
      }
      res := Response(200, Auth(LoginSuccessful, Sign(User(user.id), JwtSecret)));
    }

    /**
     * `INSERT INTO student ...`: the new row gets the next id, which is the insert id.
     * The caller has checked that the e-mail is unseen.
     */
    method Insert(name: string, email: string, password: Digest, mobile: string, isGoogleUser: bool)
      returns (insertId: nat)
      requires Valid() && !EmailTaken(rows, email)
      modifies this
      ensures Valid()
      ensures insertId == old(nextId) && nextId == old(nextId) + 1
      ensures rows == old(rows) + [Student(insertId, name, email, password, mobile, isGoogleUser)]
      ensures FirstWithEmail(rows, email, |old(rows)|)
      ensures Grows(old(rows), rows)
      ensures EmailsUnique(old(rows)) ==> EmailsUnique(rows)
      ensures MobilesUnique(old(rows)) && (mobile == "" || !MobileTaken(old(rows), mobile)) ==>
        MobilesUnique(rows)
    {
      AppendFresh(rows, nextId, Student(nextId, name, email, password, mobile, isGoogleUser));
      rows := rows + [Student(nextId, name, email, password, mobile, isGoogleUser)];
      insertId := nextId;
      nextId := nextId + 1;
    }

    /** `UPDATE student SET is_google_user = 1 WHERE id = ?` on the id of row `k`. */
    method SetGoogleUser(id: nat, ghost k: nat)
      requires Valid() && k < |rows| && rows[k].id == id
      modifies this
      ensures Valid()
      ensures rows == old(rows)[k := old(rows)[k].(isGoogleUser := true)] && nextId == old(nextId)
    {
      MarkGoogleUserOne(rows, nextId, k);
      rows := MarkGoogleUser(rows, id);
    }

    /**
     * POST /google-auth.  `ticket` is what verifying the ID token gave (None: it was
     * rejected).  An unseen e-mail gets a new linked row with an empty mobile and a
     * hashed random password; a seen one gets its first row's flag set and nothing appended.
     * `linked` is the row the e-mail is linked to afterwards.
     */
    method GoogleAuth(ticket: Option<GoogleProfile>, randomPassword: string, salt: Salt)
      returns (res: Response, ghost linked: nat)
      requires Valid()
      modifies this
      ensures Valid()
      ensures ticket.None? ==>
        res == Response(401, Error(InvalidGoogleToken)) && rows == old(rows) && nextId == old(nextId)
      ensures ticket.Some? && !EmailTaken(old(rows), ticket.value.email) ==>
        && rows == old(rows) + [Student(old(nextId), ticket.value.name, ticket.value.email,
                                        Hash(randomPassword, salt), "", true)]
        && nextId == old(nextId) + 1
        && res == Response(200, Auth(GoogleSuccessful, Sign(User(old(nextId)), JwtSecret)))
      ensures ticket.Some? && EmailTaken(old(rows), ticket.value.email) ==>
        |rows| == |old(rows)| && nextId == old(nextId)
      ensures ticket.Some? ==> forall k :: FirstWithEmail(old(rows), ticket.value.email, k) ==>
        && rows == old(rows)[k := old(rows)[k].(isGoogleUser := true)]
        && nextId == old(nextId)
        && res == Response(200, Auth(GoogleSuccessful, Sign(User(old(rows)[k].id), JwtSecret)))
      ensures ticket.Some? ==>
        && FirstWithEmail(rows, ticket.value.email, linked)
        && rows[linked].isGoogleUser
        && res == Response(200, Auth(GoogleSuccessful, Sign(User(rows[linked].id), JwtSecret)))
      ensures Grows(old(rows), rows)
      ensures EmailsUnique(old(rows)) ==> EmailsUnique(rows)
      ensures MobilesUnique(old(rows)) ==> MobilesUnique(rows)
    {
      if ticket.None? {
        return Response(401, Error(InvalidGoogleToken)), 0;
      }
      var email, name := ticket.value.email, ticket.value.name;
      WithEmailFirst(rows, email);
      var results := WithEmail(rows, email);
      var userId;
      if |results| == 0 {
        var hashedPassword := Hash(randomPassword, salt);
        assert forall k :: !FirstWithEmail(rows, email, k);
        linked := |rows|;
        userId := Insert(name, email, hashedPassword, "", true);
      } else {
        ghost var k :| FirstWithEmail(rows, email, k) && results[0] == rows[k];
        FlagFirst(rows, nextId, email, k);
        linked := k;
        userId := results[0].id;
        if !results[0].isGoogleUser {
          SetGoogleUser(userId, k);
        } else {
          assert rows == rows[k := rows[k].(isGoogleUser := true)];
        }
      }
      res := Response(200, Auth(GoogleSuccessful, Sign(User(userId), JwtSecret)));
    }

    /**
     * The requests served one after another, each as one atomic step.  Whatever the
     * sequence, rows are never deleted, a prior row changes at most by getting its
     * Google flag set, and unique e-mails (and non-empty mobiles) stay unique.
     */
    method Serve(requests: seq<Request>) returns (responses: seq<Response>)
      requires Valid()
      modifies this
      ensures Valid()
      ensures |responses| == |requests|
      ensures Grows(old(rows), rows)
      ensures EmailsUnique(old(rows)) ==> EmailsUnique(rows)
      ensures MobilesUnique(old(rows)) ==> MobilesUnique(rows)
    {
      responses := [];
      var i := 0;
      while i < |requests|
        invariant 0 <= i <= |requests| && |responses| == i
        invariant Valid()
        invariant Grows(old(rows), rows)
        invariant EmailsUnique(old(rows)) ==> EmailsUnique(rows)
        invariant MobilesUnique(old(rows)) ==> MobilesUnique(rows)
      {
        ghost var before := rows;
        var res;
        match requests[i] {
          case SignupRequest(name, email, mobile, password, salt) =>
            res := Signup(name, email, mobile, password, salt);
          case LoginRequest(email, password) =>
            res := Login(email, password);
          case GoogleRequest(ticket, randomPassword, salt) =>
            ghost var linked;
            res, linked := GoogleAuth(ticket, randomPassword, salt);
        }
        GrowsTransitive(old(rows), before, rows);
        responses := responses + [res];
        i := i + 1;
      }
    }

    /** After a successful signup, logging in with the same e-mail and password yields a token for the new row. */
    method SignupThenLogin(name: string, email: string, mobile: string, password: string, salt: Salt)
      returns (signup: Response, login: Response)
      requires Valid()
      modifies this
      ensures Valid()
      ensures signup.status == 200 ==>
        login == Response(200, Auth(LoginSuccessful, Sign(User(old(nextId)), JwtSecret)))
    {
      signup := Signup(name, email, mobile, password, salt);
      login := Login(email, password);
    }

    /** A second Google sign-in with the same profile appends nothing and yields the same token. */
    method GoogleAuthTwice(profile: GoogleProfile, password1: string, salt1: Salt, password2: string, salt2: Salt)
      returns (first: Response, second: Response)
      requires Valid()
      modifies this
      ensures Valid()
      ensures first.status == 200 && second == first
      ensures |rows| == |old(rows)| + (if EmailTaken(old(rows), profile.email) then 0 else 1)
    {
      ghost var k;
      first, k := GoogleAuth(Some(profile), password1, salt1);
      ghost var middle := rows;
      assert middle[k := middle[k].(isGoogleUser := true)] == middle;
      second, k := GoogleAuth(Some(profile), password2, salt2);
    }
}
}
