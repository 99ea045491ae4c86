/** Request gates: the user-side `requireLogin` middleware of server.js and
    the admin login check and `requireAdmin` middleware of admin-server.js. */
module Access {
  import opened Common
  import opened UserModel

  /** What `requireLogin` does with a request. */
  datatype LoginGate =
    | Proceed                              // `next()`
    | RedirectToLogin(destroySession: bool) // `res.redirect("/login")`
    | BannedPage                           // session destroyed, "Your account has been banned."

  /** The `requireLogin` decision for the session's user id against the
      user collection. */
  function RequireLogin(sessionUser: Option<UserId>, users: map<UserId, User>): (g: LoginGate)
    ensures g == Proceed <==>
      sessionUser.Some? && sessionUser.value in users
      && !users[sessionUser.value].banned && !users[sessionUser.value].deleted
    ensures g == BannedPage <==> sessionUser.Some? && sessionUser.value in users && users[sessionUser.value].banned
    ensures g == RedirectToLogin(false) <==> sessionUser.None?
  {
    match sessionUser
    case None => RedirectToLogin(false)
    case Some(id) =>
      if id !in users then RedirectToLogin(true)
      else if users[id].banned then BannedPage
      else if users[id].deleted then RedirectToLogin(true)
      else Proceed
  }

  /** ECMAScript white space and line terminators, the characters
      `String.prototype.trim` removes. */
  predicate IsJsSpace(c: char) {
    || c == '\t' || c == '\n' || c == '\U{000B}' || c == '\U{000C}' || c == '\r' || c == ' '
    || c == '\U{00A0}' || c == '\U{1680}' || ('\U{2000}' <= c <= '\U{200A}')
    || c == '\U{2028}' || c == '\U{2029}' || c == '\U{202F}' || c == '\U{205F}'
    || c == '\U{3000}' || c == '\U{FEFF}'
  }

  /** `s` with its leading white space removed. */
  function TrimStart(s: string): (r: string)
    ensures r == [] || !IsJsSpace(r[0])
    ensures |r| <= |s| && r == s[|s| - |r|..]
    ensures forall i :: 0 <= i < |s| - |r| ==> IsJsSpace(s[i])
  {
    if s != [] && IsJsSpace(s[0]) then TrimStart(s[1..]) else s
  }

  /** `s` with its trailing white space removed. */
  function TrimEnd(s: string): (r: string)
    ensures r == [] || !IsJsSpace(r[|r| - 1])
    ensures |r| <= |s| && r == s[..|r|]
    ensures forall i :: |r| <= i < |s| ==> IsJsSpace(s[i])
  {
    if s != [] && IsJsSpace(s[|s| - 1]) then TrimEnd(s[..|s| - 1]) else s
  }

  /** `String.prototype.trim`. */
  function Trim(s: string): (r: string)
    ensures r == [] || (!IsJsSpace(r[0]) && !IsJsSpace(r[|r| - 1]))
    ensures exists i, j :: 0 <= i <= j <= |s| && r == s[i..j]
                          && (forall k :: 0 <= k < i ==> IsJsSpace(s[k]))
                          && (forall k :: j <= k < |s| ==> IsJsSpace(s[k]))
  {
    var t := TrimStart(s);
    var r := TrimEnd(t);
    var i := |s| - |t|;
    assert r == s[i..i + |r|];
    assert forall k :: i + |r| <= k < |s| ==> s[k] == t[k - i];
    r
  }

  /** Trimming twice is trimming once. */
  lemma TrimIdempotent(s: string)
    ensures Trim(Trim(s)) == Trim(s)
  {
    var r := Trim(s);
    if r != [] {
      assert TrimStart(r) == r;
      assert TrimEnd(r) == r;
    }
  }

  /** Optional chaining `x?.trim()`: a missing value stays missing and a
      present one is trimmed. */
  function TrimOpt(x: Option<string>): (r: Option<string>)
    ensures r.None? <==> x.None?
    ensures x.Some? ==> r == Some(Trim(x.value))
  {
    match x
    case None => None
    case Some(s) => Some(Trim(s))
  }

  /** The admin login check as written: the trimmed submitted email and
      password are compared with the trimmed configured ones using `===`,
      and `undefined === undefined` holds. */
  function AdminLogin(email: Option<string>, password: Option<string>,
                      adminEmail: Option<string>, adminPassword: Option<string>): (ok: bool)
    ensures ok <==>
      && (email.None? <==> adminEmail.None?)
      && (password.None? <==> adminPassword.None?)
      && (email.Some? && adminEmail.Some? ==> Trim(email.value) == Trim(adminEmail.value))
      && (password.Some? && adminPassword.Some? ==> Trim(password.value) == Trim(adminPassword.value))
  {
    TrimOpt(email) == TrimOpt(adminEmail) && TrimOpt(password) == TrimOpt(adminPassword)
  }

  /** With no admin credentials configured, a login request that omits both
      fields is accepted. */
  lemma UnconfiguredLoginAccepted()
    ensures AdminLogin(None, None, None, None)
  {
  }

  /** The evidently intended check: credentials must be configured and
      submitted, and equal once trimmed. */
  function AdminLoginConfigured(email: Option<string>, password: Option<string>,
                                adminEmail: Option<string>, adminPassword: Option<string>): (ok: bool)
    ensures ok ==> adminEmail.Some? && adminPassword.Some? && email.Some? && password.Some?
    ensures ok <==> AdminLogin(email, password, adminEmail, adminPassword)
                    && adminEmail.Some? && adminPassword.Some?
  {
    && adminEmail.Some? && adminPassword.Some?
    && email.Some? && password.Some?
    && Trim(email.value) == Trim(adminEmail.value)
    && Trim(password.value) == Trim(adminPassword.value)
  }

  /** Surrounding white space in a submitted credential never changes the
      outcome, whatever is configured, for both the check as written and the
      corrected one. */
  lemma LoginIgnoresPadding(email: string, password: string, adminEmail: Option<string>, adminPassword: Option<string>)
    ensures AdminLogin(Some(email), Some(password), adminEmail, adminPassword)
         == AdminLogin(Some(Trim(email)), Some(Trim(password)), adminEmail, adminPassword)
    ensures AdminLoginConfigured(Some(email), Some(password), adminEmail, adminPassword)
         == AdminLoginConfigured(Some(Trim(email)), Some(Trim(password)), adminEmail, adminPassword)
  {
    TrimIdempotent(email);
    TrimIdempotent(password);
  }

  datatype AdminGate = AdminProceed | RedirectToAdminLogin

  /** `requireAdmin`: pass exactly when the session's admin flag is set. */
  function RequireAdmin(sessionAdmin: bool): (g: AdminGate)
    ensures g == AdminProceed <==> sessionAdmin
  {
    if !sessionAdmin then RedirectToAdminLogin else AdminProceed
  }

  /** The session's admin flag after a login attempt: a successful one sets
      it, a failed one leaves it as it was. */
  function AdminFlagAfterLogin(flag: bool, email: Option<string>, password: Option<string>,
                               adminEmail: Option<string>, adminPassword: Option<string>): (r: bool)
    ensures AdminLogin(email, password, adminEmail, adminPassword) ==> RequireAdmin(r) == AdminProceed
    ensures !AdminLogin(email, password, adminEmail, adminPassword) ==> r == flag
  {
    if AdminLogin(email, password, adminEmail, adminPassword) then true else flag
  }
}
