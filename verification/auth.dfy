/** The authentication middleware: the token-checking ladder in front of
    every protected route, and the role gate. Signature verification and the
    user lookup are parameters: `verify` stands for `jwt.verify` under the
    configured secret, `users` for the user table. */
module AuthMiddleware {
  import opened Domain

  /** What a middleware does with a request: answer it with a status, or
      attach the user and hand the request on. Exactly one of the two. */
  datatype Action = Respond(status: nat) | Next(user: User)

  // ---------------------------------------------------------------------
  // Splitting the Authorization header

  /** A string's pieces between single spaces, as JavaScript's `split(" ")`
      cuts them: two adjacent spaces give an empty piece, and the empty
      string gives one empty piece. */
  function Split(s: string): (parts: seq<string>)
    ensures |parts| >= 1
    ensures forall i :: 0 <= i < |parts| ==> ' ' !in parts[i]
    ensures ' ' !in s ==> parts == [s]
    decreases |s|
  {
    if |s| == 0 then [""]
    else
      var rest := Split(s[1..]);
      if s[0] == ' ' then [""] + rest
      else
        assert s == [s[0]] + s[1..];
        [[s[0]] + rest[0]] + rest[1..]
  }

  /** The pieces glued back with single spaces, as `join(" ")`. */
  function Join(parts: seq<string>): string
  {
    if |parts| == 0 then ""
    else if |parts| == 1 then parts[0]
    else parts[0] + " " + Join(parts[1..])
  }

  /** Splitting loses nothing: joining the pieces gives the string back. */
  lemma {:induction false} JoinSplit(s: string)
    ensures Join(Split(s)) == s
    decreases |s|
  {
    if |s| > 0 {
      var rest := Split(s[1..]);
      JoinSplit(s[1..]);
      if s[0] == ' ' {
        assert Split(s) == [""] + rest;
        assert Join(Split(s)) == "" + " " + Join(rest);
        assert s == [' '] + s[1..];
      } else {
        var head := [s[0]] + rest[0];
        assert Split(s) == [head] + rest[1..];
        if |rest| == 1 {
          assert Join(rest) == rest[0];
          assert s == [s[0]] + s[1..];
        } else {
          assert Join(rest) == rest[0] + " " + Join(rest[1..]);
          assert Join(Split(s)) == head + " " + Join(rest[1..]);
          assert s == [s[0]] + s[1..];
        }
      }
    }
  }

  /** A word without spaces followed by a space ends the first piece. */
  lemma {:induction false} SplitAfterWord(w: string, t: string)
    requires ' ' !in w
    ensures Split(w + " " + t) == [w] + Split(t)
    decreases |w|
  {
    if |w| == 0 {
      assert w + " " + t == [' '] + t;
      assert (w + " " + t)[1..] == t;
    } else {
      SplitAfterWord(w[1..], t);
      assert (w + " " + t)[1..] == w[1..] + " " + t;
      assert [w[0]] + w[1..] == w;
    }
  }

  /** Splitting is the inverse of joining pieces that hold no space. */
  lemma {:induction false} SplitJoin(parts: seq<string>)
    requires |parts| >= 1
    requires forall i :: 0 <= i < |parts| ==> ' ' !in parts[i]
    ensures Split(Join(parts)) == parts
    decreases |parts|
  {
    if |parts| > 1 {
      SplitJoin(parts[1..]);
      SplitAfterWord(parts[0], Join(parts[1..]));
      assert [parts[0]] + parts[1..] == parts;
    }
  }

  /** `h` is a space-free first word, one space, `word`, and then nothing or
      text that starts with a space. */
  ghost predicate Layout(h: string, first: string, word: string, more: string)
  {
    ' ' !in first && (more == "" || more[0] == ' ') && h == first + " " + word + more
  }

  /** When a string has a second piece, it is the text right after the first
      space, up to the next space or the end. */
  lemma SecondPieceFollowsFirstSpace(h: string)
    requires |Split(h)| >= 2
    ensures exists scheme, more :: Layout(h, scheme, Split(h)[1], more)
  {
    var parts := Split(h);
    JoinSplit(h);
    var tail := parts[1..];
    assert Join(parts) == parts[0] + " " + Join(tail);
    if |parts| == 2 {
      assert Join(tail) == parts[1];
      assert Layout(h, parts[0], parts[1], "");
    } else {
      assert tail[1..] == parts[2..];
      assert Join(tail) == parts[1] + " " + Join(parts[2..]);
      var more := " " + Join(parts[2..]);
      assert Layout(h, parts[0], parts[1], more);
    }
  }

  /** The bearer token: the second space-separated piece of the header. A
      missing or empty header, a header without a space, and an empty second
      piece all give no token. The first piece is never looked at. */
  function ExtractToken(header: Option<string>): (token: Option<string>)
    ensures header.None? || ' ' !in header.value ==> token.None?
    ensures token.Some? ==> token.value != "" && ' ' !in token.value
    ensures token.Some? ==>
              && header.Some?
              && exists scheme, more :: Layout(header.value, scheme, token.value, more)
  {
    if header.None? || header.value == "" then None
    else
      var parts := Split(header.value);
      if |parts| >= 2 && parts[1] != "" then
        SecondPieceFollowsFirstSpace(header.value);
        Some(parts[1])
      else None
  }

  /** Whatever the scheme word is, the word after the first space is the
      token, and anything after a further space is ignored. */
  lemma SchemeIsNotChecked(scheme: string, token: string, more: string)
    requires ' ' !in scheme && ' ' !in token && token != ""
    ensures ExtractToken(Some(scheme + " " + token)) == Some(token)
    ensures ExtractToken(Some(scheme + " " + token + " " + more)) == Some(token)
  {
    SplitAfterWord(scheme, token);
    assert Split(token) == [token];
    SplitAfterWord(scheme, token + " " + more);
    SplitAfterWord(token, more);
    assert scheme + " " + token + " " + more == scheme + " " + (token + " " + more);
  }

  /** A doubled space after the scheme leaves an empty second piece, so no
      token is found. */
  lemma DoubleSpaceGivesNoToken(scheme: string, token: string)
    requires ' ' !in scheme && ' ' !in token
    ensures ExtractToken(Some(scheme + "  " + token)) == None
  {
    assert Join(["", token]) == "" + " " + token;
    assert Join([scheme, "", token]) == scheme + " " + Join(["", token]);
    assert scheme + "  " + token == Join([scheme, "", token]);
    SplitJoin([scheme, "", token]);
  }

  // ---------------------------------------------------------------------
  // The middlewares

  /** A user table as the database keeps it: each row is stored under its
      own id. */
  predicate KeyedById(users: map<Id, User>)
  {
    forall k :: k in users ==> users[k].id == k
  }

  /** The authentication ladder: a missing or empty secret is a server
      error before the header is read; then no token gives 401; a token
      that fails verification gives 403; a decoded user id with no user
      gives 401; otherwise that user is attached and the request goes on. */
  function AuthenticateToken(
    secret: Option<string>,
    header: Option<string>,
    verify: (string, string) -> Option<Id>,
    users: map<Id, User>): (r: Action)
    ensures secret.None? || secret.value == "" ==> r == Respond(500)
    ensures secret.Some? && secret.value != "" && ExtractToken(header).None? ==> r == Respond(401)
    ensures (secret.Some? && secret.value != "" && ExtractToken(header).Some?
             && verify(ExtractToken(header).value, secret.value).None?) ==> r == Respond(403)
    ensures (secret.Some? && secret.value != "" && ExtractToken(header).Some?
             && verify(ExtractToken(header).value, secret.value).Some?
             && verify(ExtractToken(header).value, secret.value).value !in users) ==> r == Respond(401)
    ensures r.Next? <==>
              && secret.Some? && secret.value != ""
              && ExtractToken(header).Some?
              && verify(ExtractToken(header).value, secret.value).Some?
              && verify(ExtractToken(header).value, secret.value).value in users
    ensures r.Next? ==> r.user == users[verify(ExtractToken(header).value, secret.value).value]
    ensures KeyedById(users) && r.Next? ==> r.user.id == verify(ExtractToken(header).value, secret.value).value
    ensures r.Respond? ==> r.status == 500 || r.status == 401 || r.status == 403
  {
    if secret.None? || secret.value == "" then Respond(500)
    else
      match ExtractToken(header)
      case None => Respond(401)
      case Some(token) =>
        match verify(token, secret.value)
        case None => Respond(403)
        case Some(userId) =>
          if userId !in users then Respond(401) else Next(users[userId])
  }

  /** The role gate: no attached user gives 401, before the roles are
      consulted; a role outside the list gives 403; otherwise the request
      goes on with the same user. */
  function RequireRole(roles: seq<string>, user: Option<User>): (r: Action)
    ensures user.None? ==> r == Respond(401)
    ensures user.Some? && user.value.role !in roles ==> r == Respond(403)
    ensures r.Next? <==> user.Some? && user.value.role in roles
    ensures r.Next? ==> r.user == user.value
  {
    if user.None? then Respond(401)
    else if user.value.role !in roles then Respond(403)
    else Next(user.value)
  }

  /** The two refusals after the secret check are told apart exactly: 401
      means no token could be read or the decoded user is unknown, 403 means
      a token was read but did not verify. */
  lemma UnauthorizedVersusForbidden(
    secret: string, header: Option<string>,
    verify: (string, string) -> Option<Id>, users: map<Id, User>)
    requires secret != ""
    ensures AuthenticateToken(Some(secret), header, verify, users) == Respond(401) <==>
              || ExtractToken(header).None?
              || (verify(ExtractToken(header).value, secret).Some?
                  && verify(ExtractToken(header).value, secret).value !in users)
    ensures AuthenticateToken(Some(secret), header, verify, users) == Respond(403) <==>
              ExtractToken(header).Some? && verify(ExtractToken(header).value, secret).None?
    ensures AuthenticateToken(Some(secret), header, verify, users) != Respond(500)
  {
  }

  /** Behind a successful authentication the role gate never answers 401:
      it lets the same user through iff their role is listed, else 403. */
  lemma RoleGateAfterAuthentication(
    secret: Option<string>, header: Option<string>,
    verify: (string, string) -> Option<Id>, users: map<Id, User>, roles: seq<string>)
    requires AuthenticateToken(secret, header, verify, users).Next?
    ensures var u := AuthenticateToken(secret, header, verify, users).user;
            && RequireRole(roles, Some(u)) != Respond(401)
            && (RequireRole(roles, Some(u)) == Next(u) <==> u.role in roles)
            && (RequireRole(roles, Some(u)) == Respond(403) <==> u.role !in roles)
  {
  }
}
