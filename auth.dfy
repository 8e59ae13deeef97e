/** Registration and login: the field checks, the whitespace stripping, the
    two format checks (an email pattern matched at the start of the text
    and a password pattern that must match the whole text) and the order in
    which the checks answer. Users are a list in insertion order; password
    hashing and checking are parameters. */
module Auth {
  import opened Wrappers
  import opened Chars

  // ---------------------------------------------------------------------
  // `str.strip()`.

  /** The ASCII characters Python's `str.isspace` accepts. */
  predicate IsSpace(c: char) {
    c == ' ' || 9 <= c as int <= 13 || 28 <= c as int <= 31
  }

  /** The number of leading whitespace characters. */
  function LeadLen(s: string): (n: nat)
    ensures n <= |s|
    ensures forall q :: 0 <= q < n ==> IsSpace(s[q])
    ensures n < |s| ==> !IsSpace(s[n])
  {
    if s == [] || !IsSpace(s[0]) then 0
    else
      var n := LeadLen(s[1..]);
      assert forall q :: 1 <= q < n + 1 ==> s[q] == s[1..][q - 1];
      n + 1
  }

  /** The number of trailing whitespace characters. */
  function TrailLen(s: string): (n: nat)
    ensures n <= |s|
    ensures forall q :: |s| - n <= q < |s| ==> IsSpace(s[q])
    ensures n < |s| ==> !IsSpace(s[|s| - n - 1])
  {
    if s == [] || !IsSpace(s[|s| - 1]) then 0
    else TrailLen(s[..|s| - 1]) + 1
  }

  /** `s.strip()`: the text between the leading and the trailing whitespace. */
  function Strip(s: string): (r: string)
    ensures r == [] || (!IsSpace(r[0]) && !IsSpace(r[|r| - 1]))
    ensures exists i, j :: 0 <= i <= j <= |s| && r == s[i..j] &&
              (forall q :: 0 <= q < i ==> IsSpace(s[q])) &&
              (forall q :: j <= q < |s| ==> IsSpace(s[q]))
  {
    var i := LeadLen(s);
    var t := s[i..];
    var n := TrailLen(t);
    assert t[..|t| - n] == s[i..|s| - n];
    s[i..|s| - n]
  }

  /** Stripping twice is stripping once. */
  lemma StripIdempotent(s: string)
    ensures Strip(Strip(s)) == Strip(s)
  {
    var r := Strip(s);
    assert LeadLen(r) == 0;
    assert r[0..] == r;
    assert TrailLen(r) == 0;
  }

  // ---------------------------------------------------------------------
  // The email pattern `[^@]+@[^@]+\.[^@]+`, matched at the start.

  /** Text without an `@`. */
  predicate NoAt(s: string) {
    forall q :: 0 <= q < |s| ==> s[q] != '@'
  }

  /** The pattern matches the prefix `s[..k]`: a name before the `@` at
      `i`, a host part before the `.` at `j`, and a non-empty rest up to
      `k`, none of them holding an `@`. */
  ghost predicate EmailMatchAt(s: string, i: int, j: int, k: int) {
    1 <= i && i + 2 <= j && j + 2 <= k <= |s| && s[i] == '@' && s[j] == '.' &&
    NoAt(s[..i]) && NoAt(s[i + 1..j]) && NoAt(s[j + 1..k])
  }

  /** `EMAIL_REGEX.match(s)` succeeds: some prefix of `s` matches. */
  ghost predicate EmailRegexMatch(s: string) {
    exists i, j, k :: EmailMatchAt(s, i, j, k)
  }

  /** The position of the first `c` in `s`, or `|s|`. */
  function IndexOf(s: string, c: char): (r: nat)
    ensures r <= |s|
    ensures forall q :: 0 <= q < r ==> s[q] != c
    ensures r < |s| ==> s[r] == c
  {
    if s == [] || s[0] == c then 0
    else
      var r := IndexOf(s[1..], c);
      assert forall q :: 1 <= q < r + 1 ==> s[q] == s[1..][q - 1];
      r + 1
  }

  /** Line 34, decided directly: a non-empty name before the first `@`, and
      a `.` with at least one character on each side inside the `@`-free
      run that follows it. */
  function EmailAccepted(s: string): bool {
    var i := IndexOf(s, '@');
    if i == 0 || i == |s| then false
    else
      var e := i + 1 + IndexOf(s[i + 1..], '@');
      exists j :: i + 2 <= j <= e - 2 && s[j] == '.'
  }

  /** The direct decision agrees with the pattern: whatever follows the
      matched prefix is ignored. */
  lemma EmailAcceptedIff(s: string)
    ensures EmailAccepted(s) <==> EmailRegexMatch(s)
  {
    if EmailAccepted(s) {
      EmailAcceptedMatches(s);
    }
    if EmailRegexMatch(s) {
      var i, j, k :| EmailMatchAt(s, i, j, k);
      EmailMatchAccepted(s, i, j, k);
    }
  }

  /** A direct acceptance yields a match: the first `@`, the `.` found, and
      one character after it. */
  lemma EmailAcceptedMatches(s: string)
    requires EmailAccepted(s)
    ensures EmailRegexMatch(s)
  {
    var i := IndexOf(s, '@');
    var e := i + 1 + IndexOf(s[i + 1..], '@');
    var j :| i + 2 <= j <= e - 2 && s[j] == '.';
    forall q | i + 1 <= q < e
      ensures s[q] != '@'
    {
      assert s[q] == s[i + 1..][q - i - 1];
    }
    assert EmailMatchAt(s, i, j, j + 2);
  }

  /** A match is a direct acceptance: its `@` is the first one, and its `.`
      lies before the next. */
  lemma EmailMatchAccepted(s: string, i: int, j: int, k: int)
    requires EmailMatchAt(s, i, j, k)
    ensures EmailAccepted(s)
  {
    assert forall q :: 0 <= q < i ==> s[q] == s[..i][q];
    assert i == IndexOf(s, '@');
    var t := s[i + 1..];
    assert forall q :: 0 <= q < j - i - 1 ==> t[q] == s[i + 1..j][q];
    assert t[j - i - 1] == '.';
    assert forall q :: j - i <= q < k - i - 1 ==> t[q] == s[j + 1..k][q - (j - i)];
    assert IndexOf(t, '@') >= k - i - 1;
  }

  /** The pattern is only anchored at the start: text after a matching
      prefix, even a second `@`, is accepted. */
  lemma EmailTrailingIgnored()
    ensures EmailAccepted("a@b.c@d")
    ensures !EmailAccepted("a@b.") && !EmailAccepted("@b.c") && !EmailAccepted("a@.c")
  {
    var s := "a@b.c@d";
    assert IndexOf(s, '@') == 1;
    assert s[2..] == "b.c@d";
    assert "b.c@d"[1..] == ".c@d" && ".c@d"[1..] == "c@d" && "c@d"[1..] == "@d";
    assert IndexOf("c@d", '@') == 1;
    assert IndexOf(s[2..], '@') == 3;
    assert s[3] == '.';
    assert IndexOf("a@b.", '@') == 1;
    assert IndexOf("a@.c", '@') == 1;
  }

  // ---------------------------------------------------------------------
  // The password pattern
  // `^(?=.*[a-z])(?=.*[A-Z])(?=.*\d)(?=.*[@$!%*?&])[A-Za-z\d@$!%*?&]{8,}$`.

  predicate IsLower(c: char) { 'a' <= c <= 'z' }
  predicate IsUpper(c: char) { 'A' <= c <= 'Z' }
  predicate IsSpecial(c: char) { c in "@$!%*?&" }

  /** The characters the password may consist of. */
  predicate Allowed(c: char) {
    IsLower(c) || IsUpper(c) || IsDigit(c) || IsSpecial(c)
  }

  /** A lookahead `(?=.*[...])`: a character of the class occurs before
      the first line break. */
  ghost predicate Ahead(s: string, inClass: char -> bool) {
    exists i :: 0 <= i < |s| && inClass(s[i]) && forall q :: 0 <= q < i ==> s[q] != '\n'
  }

  /** `PASSWORD_REGEX.match(s)`: the four lookaheads hold and at least
      eight allowed characters run to the end, or to a final line break,
      which `$` also accepts. */
  ghost predicate PasswordRegexMatch(s: string) {
    && Ahead(s, IsLower) && Ahead(s, IsUpper) && Ahead(s, IsDigit) && Ahead(s, IsSpecial)
    && exists n :: BodyMatch(s, n)
  }

  /** `[A-Za-z\d@$!%*?&]{8,}$`: the first `n` characters, at least eight,
      are allowed, and they are the whole text or all but a final line
      break. */
  ghost predicate BodyMatch(s: string, n: int) {
    (n == |s| || (0 <= n == |s| - 1 && s[n] == '\n')) && n >= 8 &&
    forall q :: 0 <= q < n ==> Allowed(s[q])
  }

  /** Line 39, decided directly: at least eight characters, all allowed,
      with a lowercase letter, an uppercase letter, a digit and one of
      `@$!%*?&` among them. */
  function PasswordAccepted(s: string): bool {
    && |s| >= 8
    && (forall q :: 0 <= q < |s| ==> Allowed(s[q]))
    && (exists q :: 0 <= q < |s| && IsLower(s[q]))
    && (exists q :: 0 <= q < |s| && IsUpper(s[q]))
    && (exists q :: 0 <= q < |s| && IsDigit(s[q]))
    && (exists q :: 0 <= q < |s| && IsSpecial(s[q]))
  }

  /** In a string of allowed characters a lookahead is plain occurrence. */
  lemma AheadInBody(s: string, n: nat, inClass: char -> bool)
    requires n <= |s| && forall q :: 0 <= q < n ==> Allowed(s[q])
    requires n == |s| || (n == |s| - 1 && s[n] == '\n' && !inClass('\n'))
    ensures Ahead(s, inClass) <==> exists q :: 0 <= q < n && inClass(s[q])
  {
    if Ahead(s, inClass) {
      var i :| 0 <= i < |s| && inClass(s[i]) && forall q :: 0 <= q < i ==> s[q] != '\n';
      assert i < n;
    }
    if exists q :: 0 <= q < n && inClass(s[q]) {
      var q :| 0 <= q < n && inClass(s[q]);
      assert forall p :: 0 <= p < q ==> Allowed(s[p]);
    }
  }

  /** The direct decision agrees with the pattern, except that the pattern
      also accepts an accepted password followed by one line break. */
  lemma PasswordAcceptedIff(s: string)
    ensures PasswordRegexMatch(s) <==>
            PasswordAccepted(s) || (|s| >= 1 && s[|s| - 1] == '\n' && PasswordAccepted(s[..|s| - 1]))
  {
    if PasswordRegexMatch(s) {
      var n :| BodyMatch(s, n);
      MatchAccepted(s, n);
    }
    if PasswordAccepted(s) {
      assert s[..|s|] == s;
      AcceptedMatches(s, |s|);
    } else if |s| >= 1 && s[|s| - 1] == '\n' && PasswordAccepted(s[..|s| - 1]) {
      AcceptedMatches(s, |s| - 1);
    }
  }

  /** A pattern match whose body is the first `n` characters: those
      characters are an accepted password. */
  lemma MatchAccepted(s: string, n: int)
    requires PasswordRegexMatch(s) && BodyMatch(s, n)
    ensures PasswordAccepted(s[..n])
  {
    var b := s[..n];
    assert forall q :: 0 <= q < n ==> b[q] == s[q];
    AheadInBody(s, n, IsLower);
    AheadInBody(s, n, IsUpper);
    AheadInBody(s, n, IsDigit);
    AheadInBody(s, n, IsSpecial);
  }

  /** An accepted password, alone or followed by one line break, matches
      the pattern. */
  lemma AcceptedMatches(s: string, n: int)
    requires 0 <= n <= |s| && PasswordAccepted(s[..n])
    requires n == |s| || (n == |s| - 1 && s[n] == '\n')
    ensures PasswordRegexMatch(s)
  {
    var b := s[..n];
    assert forall q :: 0 <= q < n ==> b[q] == s[q];
    AheadInBody(s, n, IsLower);
    AheadInBody(s, n, IsUpper);
    AheadInBody(s, n, IsDigit);
    AheadInBody(s, n, IsSpecial);
    assert BodyMatch(s, n);
  }

  /** The password is stripped before the check, so the line-break case
      never arises: on the checked text pattern and decision agree. */
  lemma PasswordOnStripped(raw: string)
    ensures PasswordRegexMatch(Strip(raw)) <==> PasswordAccepted(Strip(raw))
  {
    var s := Strip(raw);
    PasswordAcceptedIff(s);
    if |s| >= 1 {
      assert !IsSpace(s[|s| - 1]);
      assert s[|s| - 1] != '\n';
    }
  }

  /** A password with all four kinds of character is accepted. */
  lemma PasswordAcceptedExample()
    ensures PasswordAccepted("Passw0rd!")
  {
    var good := "Passw0rd!";
    assert IsUpper(good[0]) && IsLower(good[1]) && IsDigit(good[5]) && IsSpecial(good[8]);
  }

  /** Too short, without a special character, or with a space: rejected. */
  lemma PasswordRejectedExamples()
    ensures !PasswordAccepted("Pw0!")
    ensures !PasswordAccepted("Password1")
    ensures !PasswordAccepted("Passw0rd !")
  {
    assert !Allowed("Passw0rd !"[8]);
    var bad := "Password1";
    forall q | 0 <= q < |bad|
      ensures !IsSpecial(bad[q])
    {
      assert IsUpper(bad[q]) || IsLower(bad[q]) || IsDigit(bad[q]);
    }
  }

  // ---------------------------------------------------------------------
  // The routes.

  datatype User = User(id: nat, username: string, email: string, passwordHash: string, phoneNumber: string)

  /** A response: status, message and, on a successful login, the
      identity the access token is created for. */
  datatype Reply = Reply(status: int, message: string, token: Option<nat>)

  const MissingRegisterFields := "Missing username, email, password, or phone number"
  const InvalidEmail := "Invalid email format"
  const InvalidPassword := "Password must contain at least 8 characters, including one uppercase letter, one lowercase letter, one number, and one special character."
  const EmailExists := "User with this email already exists"
  const UsernameExists := "User with this username already exists"
  const Registered := "User registered successfully!"
  const ServerError := "Internal server error"
  const MissingLoginFields := "Missing email or password"
  const InvalidCredentials := "Invalid email or password!"

  /** `not data or not all(key in data for key in keys)`: an absent or
      empty body, or one lacking a key. */
  predicate Incomplete(data: Option<map<string, string>>, keys: set<string>) {
    data.None? || data.value == map[] || !(keys <= data.value.Keys)
  }

  predicate EmailTaken(users: seq<User>, email: string) {
    exists q :: 0 <= q < |users| && users[q].email == email
  }

  predicate UsernameTaken(users: seq<User>, username: string) {
    exists q :: 0 <= q < |users| && users[q].username == username
  }

  /** `User.query.filter_by(email=email).first()`. */
  function FirstByEmail(users: seq<User>, email: string): (r: Option<User>)
    ensures r.None? <==> !EmailTaken(users, email)
    ensures r.Some? ==> exists q :: 0 <= q < |users| && users[q] == r.value && r.value.email == email &&
                          forall p :: 0 <= p < q ==> users[p].email != email
  {
    if users == [] then None
    else if users[0].email == email then Some(users[0])
    else
      var r := FirstByEmail(users[1..], email);
      assert forall q :: 1 <= q < |users| ==> users[q] == users[1..][q - 1];
      assert EmailTaken(users, email) ==> EmailTaken(users[1..], email);
      r
  }

  /** Lines 17-74. `hashOf` stands for the password hashing and
      `committed` for the outcome of the database commit; the new row's id
      is the next one after the existing rows. Returns the reply and the
      users afterwards. */
  function Register(data: Option<map<string, string>>, users: seq<User>, hashOf: string -> string, committed: bool): (Reply, seq<User>) {
    if Incomplete(data, {"username", "email", "password", "phone_number"}) then
      (Reply(400, MissingRegisterFields, None), users)
    else
      var d := data.value;
      var username, email, phone, password := Strip(d["username"]), Strip(d["email"]), Strip(d["phone_number"]), Strip(d["password"]);
      if !EmailAccepted(email) then (Reply(400, InvalidEmail, None), users)
      else if !PasswordAccepted(password) then (Reply(400, InvalidPassword, None), users)
      else if EmailTaken(users, email) then (Reply(400, EmailExists, None), users)
      else if UsernameTaken(users, username) then (Reply(400, UsernameExists, None), users)
      else if !committed then (Reply(500, ServerError, None), users)
      else (Reply(201, Registered, None), users + [User(|users| + 1, username, email, hashOf(password), phone)])
  }

  /** Lines 78-107. `checks` stands for `check_password_hash`. */
  function Login(data: Option<map<string, string>>, users: seq<User>, checks: (string, string) -> bool): Reply {
    if Incomplete(data, {"email", "password"}) then Reply(400, MissingLoginFields, None)
    else
      var email, password := Strip(data.value["email"]), Strip(data.value["password"]);
      match FirstByEmail(users, email)
      case None => Reply(401, InvalidCredentials, None)
      case Some(user) =>
        if !checks(user.passwordHash, password) then Reply(401, InvalidCredentials, None)
        else Reply(200, "", Some(user.id))
  }

  /** Lines 23-52: the checks answer in the order fields, email format,
      password format, email taken, username taken, and only a request
      passing all of them adds a user, with the stripped fields. */
  lemma RegisterOutcome(data: Option<map<string, string>>, users: seq<User>, hashOf: string -> string, committed: bool)
    ensures var (reply, users') := Register(data, users, hashOf, committed);
            && (Incomplete(data, {"username", "email", "password", "phone_number"}) ==> reply.status == 400 && reply.message == MissingRegisterFields)
            && (reply.status == 201 <==>
                  && !Incomplete(data, {"username", "email", "password", "phone_number"})
                  && EmailRegexMatch(Strip(data.value["email"]))
                  && PasswordRegexMatch(Strip(data.value["password"]))
                  && !EmailTaken(users, Strip(data.value["email"]))
                  && !UsernameTaken(users, Strip(data.value["username"]))
                  && committed)
            && (reply.status == 201 ==>
                  users' == users + [User(|users| + 1, Strip(data.value["username"]), Strip(data.value["email"]),
                                          hashOf(Strip(data.value["password"])), Strip(data.value["phone_number"]))])
            && (reply.status != 201 ==> users' == users)
            && (reply.message == EmailExists ==> EmailRegexMatch(Strip(data.value["email"])) && PasswordRegexMatch(Strip(data.value["password"])))
  {
    if !Incomplete(data, {"username", "email", "password", "phone_number"}) {
      EmailAcceptedIff(Strip(data.value["email"]));
      PasswordOnStripped(data.value["password"]);
    }
  }

  /** No two users share an email, nor a username. */
  ghost predicate Unique(users: seq<User>) {
    forall p, q :: 0 <= p < q < |users| ==> users[p].email != users[q].email && users[p].username != users[q].username
  }

  /** Registration keeps emails and usernames unique. */
  lemma RegisterKeepsUnique(data: Option<map<string, string>>, users: seq<User>, hashOf: string -> string, committed: bool)
    requires Unique(users)
    ensures Unique(Register(data, users, hashOf, committed).1)
  {
    if !Incomplete(data, {"username", "email", "password", "phone_number"}) {
      var d := data.value;
      var username, email := Strip(d["username"]), Strip(d["email"]);
      if !EmailTaken(users, email) && !UsernameTaken(users, username) {
        AppendUnique(users, User(|users| + 1, username, email, hashOf(Strip(d["password"])), Strip(d["phone_number"])));
      }
    }
  }

  /** Appending a user whose email and username are both new keeps the
      users unique. */
  lemma AppendUnique(users: seq<User>, u: User)
    requires Unique(users) && !EmailTaken(users, u.email) && !UsernameTaken(users, u.username)
    ensures Unique(users + [u])
  {
    var users' := users + [u];
    forall p, q | 0 <= p < q < |users'|
      ensures users'[p].email != users'[q].email && users'[p].username != users'[q].username
    {
      assert users'[p] == users[p];
      if q == |users| {
        assert users'[q] == u;
      } else {
        assert users'[q] == users[q];
      }
    }
  }

  /** Lines 96-102: an unknown email and a wrong password get the same
      reply, and a login succeeds exactly for the first user with the
      stripped email whose hash checks. */
  lemma LoginOutcome(data: Option<map<string, string>>, users: seq<User>, checks: (string, string) -> bool)
    ensures var r := Login(data, users, checks);
            && (Incomplete(data, {"email", "password"}) <==> r.status == 400)
            && (r.status == 401 ==> r == Reply(401, InvalidCredentials, None))
            && (r.status == 200 <==>
                  !Incomplete(data, {"email", "password"}) &&
                  exists q :: 0 <= q < |users| && users[q].email == Strip(data.value["email"]) &&
                              (forall p :: 0 <= p < q ==> users[p].email != users[q].email) &&
                              checks(users[q].passwordHash, Strip(data.value["password"])))
            && (r.status == 200 ==> exists u :: u in users && r.token == Some(u.id) && u.email == Strip(data.value["email"]))
  {
    if !Incomplete(data, {"email", "password"}) {
      var email := Strip(data.value["email"]);
      FirstChecks(users, email, Strip(data.value["password"]), checks);
      var found := FirstByEmail(users, email);
      if found.Some? {
        var q :| 0 <= q < |users| && users[q] == found.value && found.value.email == email &&
                 forall p :: 0 <= p < q ==> users[p].email != email;
        assert found.value in users;
      }
    }
  }

  /** The user `filter_by(email).first()` finds has a hash that checks the
      password exactly when some user with that email, the first one, has
      such a hash. */
  lemma FirstChecks(users: seq<User>, email: string, password: string, checks: (string, string) -> bool)
    ensures (FirstByEmail(users, email).Some? && checks(FirstByEmail(users, email).value.passwordHash, password)) <==>
            exists q :: 0 <= q < |users| && users[q].email == email &&
                        (forall p :: 0 <= p < q ==> users[p].email != users[q].email) &&
                        checks(users[q].passwordHash, password)
  {
    var found := FirstByEmail(users, email);
    if found.Some? {
      var q' :| 0 <= q' < |users| && users[q'] == found.value && found.value.email == email &&
                forall p :: 0 <= p < q' ==> users[p].email != email;
      if exists q :: 0 <= q < |users| && users[q].email == email &&
                     (forall p :: 0 <= p < q ==> users[p].email != users[q].email) &&
                     checks(users[q].passwordHash, password) {
        var q :| 0 <= q < |users| && users[q].email == email &&
                 (forall p :: 0 <= p < q ==> users[p].email != users[q].email) &&
                 checks(users[q].passwordHash, password);
        assert q' == q;
      }
    }
  }

  /** Registering and then logging in with the same email and password
      succeeds, for the new user, whatever whitespace surrounded them,
      provided the hash checks the password it was made from. */
  lemma RegisterThenLogin(data: map<string, string>, users: seq<User>, hashOf: string -> string,
                          checks: (string, string) -> bool)
    requires Register(Some(data), users, hashOf, true).0.status == 201
    requires forall p :: checks(hashOf(p), p)
    ensures "email" in data && "password" in data
    ensures Login(Some(map["email" := data["email"], "password" := data["password"]]),
                  Register(Some(data), users, hashOf, true).1, checks) == Reply(200, "", Some(|users| + 1))
  {
    RegisterOutcome(Some(data), users, hashOf, true);
    var email, password := Strip(data["email"]), Strip(data["password"]);
    var newUser := User(|users| + 1, Strip(data["username"]), email, hashOf(password), Strip(data["phone_number"]));
    assert Register(Some(data), users, hashOf, true).1 == users + [newUser];
    NewUserFirst(users, newUser);
    LoginBodyComplete(data["email"], data["password"]);
    assert checks(newUser.passwordHash, password);
  }

  /** A user appended with an email nobody had is the one `filter_by(email)
      .first()` finds. */
  lemma NewUserFirst(users: seq<User>, u: User)
    requires !EmailTaken(users, u.email)
    ensures FirstByEmail(users + [u], u.email) == Some(u)
  {
    var users' := users + [u];
    assert users'[|users|] == u;
    assert EmailTaken(users', u.email);
    var found := FirstByEmail(users', u.email);
    var q :| 0 <= q < |users'| && users'[q] == found.value && found.value.email == u.email &&
             forall p :: 0 <= p < q ==> users'[p].email != u.email;
  }

  /** A login body with both fields is complete. */
  lemma LoginBodyComplete(email: string, password: string)
    ensures var login := map["email" := email, "password" := password];
      !Incomplete(Some(login), {"email", "password"}) && login["email"] == email && login["password"] == password
  {
    var login := map["email" := email, "password" := password];
    assert "email" in login && "password" in login;
    assert login != map[];
    assert forall k | k in {"email", "password"} :: k in login;
  }
}
