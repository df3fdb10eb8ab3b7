/** The stand-alone Express mock of the authentication API: two users held
    in memory, tokens of the form `mock-` followed by the base64 of
    `username:timestamp`, and the login and verify handlers. The clock is
    an input. */
module MockAuthServer {
  import opened Values
  import opened Text
  import opened Seqs
  import opened Encoding

  datatype MockUser = MockUser(id: nat, username: string, password: string, name: string, role: string)

  /** A user as the handlers send it: every field but the password. */
  datatype SafeUser = SafeUser(id: nat, username: string, name: string, role: string)

  datatype MockResponse =
    | Failure(status: nat, message: string)
    | LoginOk(token: string, user: SafeUser)
    | VerifyOk(user: SafeUser)

  const Users: seq<MockUser> := [
    MockUser(1, "admin", "admin", "Administrator", "admin"),
    MockUser(2, "user", "user", "Regular User", "user")
  ]

  const TokenPrefix: string := "mock-"
  const CredentialsRequired: string := "username and password required"
  const InvalidCredentials: string := "Invalid credentials"
  const InvalidToken: string := "Invalid token"

  /** `const { password: _p, ...safeUser } = user`. */
  function Safe(u: MockUser): (s: SafeUser)
    ensures s.id == u.id && s.username == u.username && s.name == u.name && s.role == u.role
  {
    SafeUser(u.id, u.username, u.name, u.role)
  }

  /** `makeToken(username)` at time `now` (milliseconds since the epoch). */
  function MakeToken(username: string, now: nat): (token: string)
    ensures TokenPrefix <= token
  {
    TokenPrefix + Base64Encode(Utf8Encode(username + ":" + NatToString(now)))
  }

  /** `parseToken(token)`: `Null` for a falsy token or one without the
      `mock-` prefix, otherwise the decoded payload up to its first `:`. */
  function ParseToken(token: Val): (r: Val)
    ensures r.Str? <==> JsTruthy(token) && TokenPrefix <= token.s
    ensures r.Str? ==> ':' !in r.s
  {
    if !JsTruthy(token) || !(TokenPrefix <= token.s) then Null
    else
      var payload := Utf8DecodeAscii(Base64Decode(token.s[|TokenPrefix|..]));
      SplitPartsAvoidSeparator(payload, ':');
      Str(Split(payload, ':')[0])
  }

  /** The payload of a token for an ASCII username is ASCII. */
  lemma PayloadAscii(username: string, now: nat)
    requires IsAscii(username)
    ensures IsAscii(username + ":" + NatToString(now))
  {
    var payload, digits := username + ":" + NatToString(now), NatToString(now);
    forall i | 0 <= i < |payload| ensures payload[i] as int < 128 {
      if i > |username| {
        assert payload[i] == digits[i - |username| - 1];
        assert IsDigit(digits[i - |username| - 1]);
      }
    }
  }

  /** The first `:`-separated part of the payload is the username up to its own first `:`. */
  lemma PayloadHead(username: string, digits: string)
    ensures Split(username + ":" + digits, ':')[0] == username[..IndexOf(username, ':')]
  {
    var payload := username + ":" + digits;
    SplitHead(payload, ':');
    var k := IndexOf(username, ':');
    assert payload[|username|] == ':';
    assert IndexOf(payload, ':') == k by {
      if k < |username| {
        assert payload[k] == username[k];
      }
    }
    assert payload[..k] == username[..k];
  }

  /** An ASCII username is read back from its token up to its first `:`. */
  lemma TokenRoundTrip(username: string, now: nat)
    requires IsAscii(username)
    ensures ParseToken(Str(MakeToken(username, now))) == Str(username[..IndexOf(username, ':')])
  {
    var payload := username + ":" + NatToString(now);
    PayloadAscii(username, now);
    var token := MakeToken(username, now);
    assert token[|TokenPrefix|..] == Base64Encode(Utf8Encode(payload));
    Base64RoundTrip(Utf8Encode(payload));
    Utf8AsciiRoundTrip(payload);
    PayloadHead(username, NatToString(now));
  }

  /** In particular a username without `:` comes back whole. */
  lemma TokenNamesUser(username: string, now: nat)
    requires IsAscii(username) && ':' !in username
    ensures ParseToken(Str(MakeToken(username, now))) == Str(username)
  {
    TokenRoundTrip(username, now);
    assert username[..|username|] == username;
  }

  /** `POST /api/auth/login`. */
  function Login(username: Val, password: Val, now: nat): (r: MockResponse)
    ensures r.Failure? || r.LoginOk?
    ensures r == Failure(400, CredentialsRequired) <==> !JsTruthy(username) || !JsTruthy(password)
    ensures r == Failure(401, InvalidCredentials) <==>
      JsTruthy(username) && JsTruthy(password) &&
      forall i :: 0 <= i < |Users| ==> Str(Users[i].username) != username || Str(Users[i].password) != password
    ensures r.LoginOk? ==>
      exists i :: 0 <= i < |Users| && Str(Users[i].username) == username &&
        Str(Users[i].password) == password &&
        r.user == Safe(Users[i]) && r.token == MakeToken(Users[i].username, now)
  {
    if !JsTruthy(username) || !JsTruthy(password) then Failure(400, CredentialsRequired)
    else
      match FirstWhere(Users, (u: MockUser) => Str(u.username) == username && Str(u.password) == password)
      case None => Failure(401, InvalidCredentials)
      case Some(i) => LoginOk(MakeToken(Users[i].username, now), Safe(Users[i]))
  }

  /** The token `verify` reads: the rest of a `Bearer ` header, else the
      `token` query parameter when truthy, else `Null`. A header that is not
      a bearer header is ignored. */
  function RequestToken(header: Val, query: Val): (t: Val)
    ensures JsTruthy(header) && "Bearer " <= header.s ==> t == Str(header.s[7..])
    ensures !(JsTruthy(header) && "Bearer " <= header.s) ==> t == JsOr(query, Null)
  {
    var auth := JsOr(header, Str("")).s;
    if "Bearer " <= auth then Str(auth[7..]) else JsOr(query, Null)
  }

  /** `GET /api/auth/verify`. */
  function Verify(header: Val, query: Val): (r: MockResponse)
    ensures r.Failure? || r.VerifyOk?
    ensures r.Failure? ==> r == Failure(401, InvalidToken)
    ensures var name := ParseToken(RequestToken(header, query));
      r.VerifyOk? <==> JsTruthy(name) && exists i :: 0 <= i < |Users| && Users[i].username == name.s
    ensures r.VerifyOk? ==>
      exists i :: 0 <= i < |Users| &&
        Str(Users[i].username) == ParseToken(RequestToken(header, query)) && r.user == Safe(Users[i])
  {
    var name := ParseToken(RequestToken(header, query));
    if !JsTruthy(name) then Failure(401, InvalidToken)
    else
      match FirstWhere(Users, (u: MockUser) => u.username == name.s)
      case None => Failure(401, InvalidToken)
      case Some(i) => VerifyOk(Safe(Users[i]))
  }

  /** The known usernames are distinct, non-empty and ASCII without `:`. */
  lemma UsersWellFormed()
    ensures forall i, j :: 0 <= i < j < |Users| ==> Users[i].username != Users[j].username
    ensures forall i :: 0 <= i < |Users| ==>
      Users[i].username != "" && IsAscii(Users[i].username) && ':' !in Users[i].username
  {
    assert Users[0].username == "admin" && Users[1].username == "user";
    assert Users[0].username[0] != Users[1].username[0];
  }

  /** A token a login hands out verifies as the same user, sent either as
      a bearer header or, with no bearer header, as the query parameter. */
  lemma LoginThenVerify(username: Val, password: Val, now: nat, query: Val)
    requires Login(username, password, now).LoginOk?
    ensures var r := Login(username, password, now);
      Verify(Str("Bearer " + r.token), query) == VerifyOk(r.user) &&
      Verify(Null, Str(r.token)) == VerifyOk(r.user)
  {
    var r := Login(username, password, now);
    UsersWellFormed();
    var i :| 0 <= i < |Users| && Str(Users[i].username) == username && Str(Users[i].password) == password &&
      r.user == Safe(Users[i]) && r.token == MakeToken(Users[i].username, now);
    TokenNamesUser(Users[i].username, now);
    var header := "Bearer " + r.token;
    assert header[..7] == "Bearer ";
    assert header[7..] == r.token;
    assert !("Bearer " <= r.token) by {
      assert r.token[0] == 'm';
    }
    var name := ParseToken(Str(r.token));
    var found := FirstWhere(Users, (u: MockUser) => u.username == name.s);
    assert name == Str(Users[i].username);
    assert found == Some(i);
  }
}
