/** The token authentication of the Laravel back end: which user a login
    looks up, when it refuses, the API token it issues, and how `verify`
    reads a token from the `Authorization` header or the `token` query
    parameter. The password hash check and the random bytes are inputs. */
module AuthController {
  import opened Values
  import opened Seqs
  import opened Encoding

  /** A row of the `users` table: column names to values. */
  type User = map<string, Val>

  /** `column = value`, one condition of the login lookup. */
  datatype Clause = Eq(column: string, value: string)

  datatype AuthResponse =
    | Denied(status: nat, message: string)
    | LoggedIn(token: string, user: User)
    | Verified(user: User)

  const IdentifierRequired: string := "username or email required"
  const InvalidCredentials: string := "Invalid credentials"
  const TokenRequired: string := "Token required"
  const InvalidToken: string := "Invalid token"

  predicate Holds(c: Clause, u: User) {
    Get(u, c.column) == Str(c.value)
  }

  /** A user satisfies a group of conditions joined by `orWhere`. Laravel
      drops the `or` of the first condition in a group, so the group is the
      plain disjunction of its conditions. */
  predicate AnyHolds(clauses: seq<Clause>, u: User)
    decreases |clauses|
  {
    |clauses| > 0 && (Holds(clauses[0], u) || AnyHolds(clauses[1..], u))
  }

  /** Which users a login with these identifiers is meant to find. With a
      `username` column: the given username as a username, and the given
      email as an email, or the username as an email when no email is given.
      Without one: the email, or else the username, as an email. */
  predicate LoginMatches(u: User, username: Val, email: Val, hasUsernameColumn: bool) {
    if hasUsernameColumn then
      (PhpTruthy(username) && Get(u, "username") == username) ||
      (PhpTruthy(email) && Get(u, "email") == email) ||
      (!PhpTruthy(email) && PhpTruthy(username) && Get(u, "email") == username)
    else Get(u, "email") == PhpElvis(email, username)
  }

  /** The lookup `login` builds, one condition at a time. It runs only
      after the check that some identifier is given. */
  method BuildLookup(username: Val, email: Val, hasUsernameColumn: bool) returns (clauses: seq<Clause>)
    requires PhpTruthy(username) || PhpTruthy(email)
    ensures 1 <= |clauses| <= 2
    ensures forall u :: AnyHolds(clauses, u) <==> LoginMatches(u, username, email, hasUsernameColumn)
  {
    clauses := [];
    if hasUsernameColumn {
      if PhpTruthy(username) {
        clauses := clauses + [Eq("username", username.s)];
      }
      if PhpTruthy(email) {
        clauses := clauses + [Eq("email", email.s)];
      } else if PhpTruthy(username) {
        clauses := clauses + [Eq("email", username.s)];
      }
    } else {
      var emailToSearch := PhpElvis(email, username);
      clauses := [Eq("email", emailToSearch.s)];
    }
    forall u ensures AnyHolds(clauses, u) <==> LoginMatches(u, username, email, hasUsernameColumn) {
      AnyHoldsShort(clauses, u);
    }
  }

  lemma AnyHoldsShort(clauses: seq<Clause>, u: User)
    requires 1 <= |clauses| <= 2
    ensures AnyHolds(clauses, u) <==> Holds(clauses[0], u) || (|clauses| == 2 && Holds(clauses[1], u))
  {
    if |clauses| == 2 {
      assert clauses[1..][1..] == [];
    } else {
      assert clauses[1..] == [];
    }
  }

  /** With a `username` column and only a username, a user is found by that
      value as username or as email. */
  lemma UsernameOnly(u: User, username: Val, email: Val)
    requires PhpTruthy(username) && !PhpTruthy(email)
    ensures LoginMatches(u, username, email, true) <==>
      Get(u, "username") == username || Get(u, "email") == username
  {
  }

  /** `$user->makeHidden(['password'])`: the user as the response shows it. */
  function Hidden(u: User): (r: User)
    ensures "password" !in r
    ensures forall k :: k in u && k != "password" ==> k in r && r[k] == u[k]
    ensures forall k :: k in r ==> k in u
  {
    u - {"password"}
  }

  /** `bin2hex(random_bytes(40))`: the API token. */
  function NewToken(randomBytes: seq<uint8>): (token: string)
    requires |randomBytes| == 40
    ensures |token| == 80
    ensures forall i :: 0 <= i < |token| ==> IsLowerHexDigit(token[i])
    ensures HexDecode(token) == Some(randomBytes)
  {
    HexRoundTrip(randomBytes);
    HexEncode(randomBytes)
  }

  /** The token `verify` reads: the `Authorization` header when it is truthy,
      else the `token` query parameter (each `''` when absent), with a
      leading `Bearer ` removed. */
  function ExtractToken(header: Val, query: Val): (token: string)
    ensures var auth := if PhpTruthy(header) then header.s else OrEmpty(query);
      ("Bearer " <= auth ==> "Bearer " + token == auth) &&
      (!("Bearer " <= auth) ==> token == auth)
  {
    var auth := PhpElvis(Coalesce(header, Str("")), Coalesce(query, Str(""))).s;
    if "Bearer " <= auth then auth[7..] else auth
  }

  /** A bearer header gives the text after `Bearer `. */
  lemma BearerHeader(t: string, query: Val)
    ensures ExtractToken(Str("Bearer " + t), query) == t
  {
    var auth := "Bearer " + t;
    assert auth[..7] == "Bearer ";
    assert auth[7..] == t;
  }

  /** A header that does not start with `Bearer ` is used whole. */
  lemma PlainHeader(header: string, query: Val)
    requires PhpTruthy(Str(header)) && !("Bearer " <= header)
    ensures ExtractToken(Str(header), query) == header
  {
  }

  /** Without a truthy header, the query parameter is used, whole or after
      `Bearer `. */
  lemma QueryFallback(header: Val, query: Val)
    requires !PhpTruthy(header)
    ensures ExtractToken(header, query) == ExtractToken(Null, query)
  {
  }

  predicate HasToken(token: string, u: User) {
    Get(u, "api_token") == Str(token)
  }

  /** `AuthController::verify` over the rows of `users`. */
  function Verify(rows: seq<User>, header: Val, query: Val): (r: AuthResponse)
    ensures r.Denied? || r.Verified?
    ensures r.Denied? ==> r.status == 401
    ensures var token := ExtractToken(header, query);
      (r == Denied(401, TokenRequired) <==> !PhpTruthy(Str(token))) &&
      (r == Denied(401, InvalidToken) <==>
        PhpTruthy(Str(token)) && forall i :: 0 <= i < |rows| ==> !HasToken(token, rows[i]))
    ensures r.Verified? ==> "password" !in r.user
    ensures r.Verified? ==>
      exists i :: 0 <= i < |rows| && HasToken(ExtractToken(header, query), rows[i]) && r.user == Hidden(rows[i])
  {
    var token := ExtractToken(header, query);
    if !PhpTruthy(Str(token)) then Denied(401, TokenRequired)
    else
      match FirstWhere(rows, u => HasToken(token, u))
      case None => Denied(401, InvalidToken)
      case Some(i) => Verified(Hidden(rows[i]))
  }

  /** The `users` table, whose rows `login` updates in place. */
  class UserTable {
    var rows: seq<User>

    constructor (initial: seq<User>)
      ensures rows == initial
    {
      rows := initial;
    }

    /** `AuthController::login`. Without a truthy username or email it
        answers 422 and looks nothing up. An unknown user and a wrong
        password get the same 401. On success the first matching user's
        `api_token` becomes the hex of the 40 random bytes, and the response
        carries that token and the user without the password. `hashCheck`
        stands for `Hash::check`. */
    method Login(username: Val, email: Val, password: string, hasUsernameColumn: bool,
                 hashCheck: (string, Val) -> bool, randomBytes: seq<uint8>) returns (r: AuthResponse)
      requires |randomBytes| == 40
      modifies this
      ensures !PhpTruthy(username) && !PhpTruthy(email) ==>
        r == Denied(422, IdentifierRequired) && rows == old(rows)
      ensures PhpTruthy(username) || PhpTruthy(email) ==>
        var found := FirstWhere(old(rows), u => LoginMatches(u, username, email, hasUsernameColumn));
        (found.None? ==> r == Denied(401, InvalidCredentials) && rows == old(rows)) &&
        (found.Some? ==>
          var i := found.value;
          if !hashCheck(password, Get(old(rows)[i], "password")) then
            r == Denied(401, InvalidCredentials) && rows == old(rows)
          else
            var token := NewToken(randomBytes);
            rows == old(rows)[i := old(rows)[i]["api_token" := Str(token)]] &&
            r == LoggedIn(token, Hidden(rows[i])))
      ensures r.LoggedIn? ==> "password" !in r.user && |r.token| == 80
    {
      if !PhpTruthy(username) && !PhpTruthy(email) {
        return Denied(422, IdentifierRequired);
      }
      var clauses := BuildLookup(username, email, hasUsernameColumn);
      FirstWhereCongruent(rows, u => AnyHolds(clauses, u),
        u => LoginMatches(u, username, email, hasUsernameColumn));
      var found := FirstWhere(rows, u => AnyHolds(clauses, u));
      if found.None? {
        return Denied(401, InvalidCredentials);
      }
      var i := found.value;
      var user := rows[i];
      if !hashCheck(password, Get(user, "password")) {
        return Denied(401, InvalidCredentials);
      }
      var token := NewToken(randomBytes);
      user := user["api_token" := Str(token)];
      rows := rows[i := user];
      r := LoggedIn(token, Hidden(user));
    }
  }
}
