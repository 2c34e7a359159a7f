/**
 * POST /api/adminlogin: a read-only lookup of an exact (username, password) pair in
 * `adminlog`, answered with a token signed with the admin key.  The handler is a
 * function of the table, so it cannot change it.
 */
module AdminLogin {
  import opened Crypto
  import opened Http
  import opened Table

  /** A row of `adminlog`; the password is stored and compared as plain text. */
  datatype Admin = Admin(id: nat, username: string, password: string)

  const InvalidAdminCredentials := "Invalid admin credentials"
  const AdminLoginSuccess := "Admin login successfully"

  ghost predicate Matches(admin: Admin, username: string, password: string) {
    admin.username == username && admin.password == password
  }

  /** `SELECT * FROM adminlog WHERE username = ? AND password = ?`, then the answer. */
  function AdminLogin(adminlog: seq<Admin>, username: string, password: string): (res: Response)
    ensures res.status == 200 <==>
      exists i :: 0 <= i < |adminlog| && Matches(adminlog[i], username, password)
    ensures res.status != 200 ==> res == BadRequest(InvalidAdminCredentials)
    ensures res.status == 200 ==> exists k ::
      && 0 <= k < |adminlog| && Matches(adminlog[k], username, password)
      && (forall j :: 0 <= j < k ==> !Matches(adminlog[j], username, password))
      && res == Response(200, AdminAuth(AdminLoginSuccess, Sign(User1(adminlog[k].id), AdminJwtSecret)))
  {
    var p := (a: Admin) => a.username == username && a.password == password;
    var results := Select(adminlog, p);
    if |results| == 0 then
      BadRequest(InvalidAdminCredentials)
    else
      assert exists k :: IsFirst(adminlog, p, k) && results[0] == adminlog[k];
      Response(200, AdminAuth(AdminLoginSuccess, Sign(User1(results[0].id), AdminJwtSecret)))
  }

  /** An admin token never verifies under the student key, so it cannot stand in for a student token. */
  lemma AdminTokenIsNotStudentToken(adminlog: seq<Admin>, username: string, password: string)
    ensures var res := AdminLogin(adminlog, username, password);
      res.status == 200 ==> res.body.AdminAuth? && Verify(res.body.authToken1, JwtSecret).None?
  {
  }
}
