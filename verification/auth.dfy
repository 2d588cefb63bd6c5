/** The request guards of server/src/middleware/authMiddleware.js: `protect`
    reads a bearer token and attaches the user it names, `authorize` admits
    only the listed roles. Token verification is an input; the user collection
    is a sequence. */
module Auth {
  import opened Wrappers
  import opened JsStrings

  /** The user fields the guards and controllers read. Roles are strings, as
      stored; the three the application assigns are below. */
  datatype User = User(id: nat, name: string, email: string, role: string)

  const JournalistRole: string := "journalist"
  const EditorRole: string := "editor"
  const AdminRole: string := "admin"

  /** The user collection. */
  type Users = seq<User>

  /** Some user has this id. */
  predicate HasUser(users: Users, id: nat) {
    exists i :: 0 <= i < |users| && users[i].id == id
  }

  /** `User.findById(id)` */
  function FindUser(users: Users, id: nat): (r: Option<User>)
    ensures r.Some? <==> HasUser(users, id)
    ensures r.Some? ==> r.value in users && r.value.id == id
    decreases |users|
  {
    if |users| == 0 then None
    else if users[0].id == id then Some(users[0])
    else
      assert forall i :: 0 < i < |users| ==> users[i] == users[1..][i - 1];
      FindUser(users[1..], id)
  }

  /** What a guard does with a request: pass it on with `req.user` set, or
      answer it. */
  datatype Gate = Next(user: Option<User>) | Deny(status: nat, message: string)

  /* ---------------- protect ---------------- */

  /** The characters before the first space (all of `s` when there is none). */
  function UpToSpace(s: string): (r: string)
    ensures |r| <= |s| && r == s[..|r|] && ' ' !in r
    ensures |r| < |s| ==> s[|r|] == ' '
    decreases |s|
  {
    if |s| == 0 || s[0] == ' ' then ""
    else
      var rest := UpToSpace(s[1..]);
      assert [s[0]] + rest == s[..|rest| + 1];
      [s[0]] + rest
  }

  /** `s.split(" ")[1]`: the field between the first and the second space, or
      `None` (`undefined`) when there is no space. */
  function SecondField(s: string): (r: Option<string>)
    ensures r.None? <==> ' ' !in s
    ensures r.Some? ==> ' ' !in r.value
    ensures r.Some? ==> var n := |UpToSpace(s)| + 1;
              n + |r.value| <= |s| && s[n..n + |r.value|] == r.value
              && (n + |r.value| == |s| || s[n + |r.value|] == ' ')
  {
    var first := UpToSpace(s);
    if |first| == |s| then
      assert s == first;
      None
    else
      assert s[|first|] in s;
      var rest := s[|first| + 1..];
      var second := UpToSpace(rest);
      assert s[|first| + 1..|first| + 1 + |second|] == rest[..|second|];
      Some(second)
  }

  /** The field read back from a header built as word, space, token: the
      token, whatever follows it after another space. */
  lemma SecondFieldOf(word: string, token: string, tail: string)
    requires ' ' !in word && ' ' !in token
    requires tail == "" || tail[0] == ' '
    ensures SecondField(word + " " + token + tail) == Some(token)
  {
    var s := word + " " + token + tail;
    HeaderSplits(word, token, tail);
    UpToSpaceOf(word, " " + token + tail);
    UpToSpaceOf(token, tail);
    SecondFieldAfter(s, word);
  }

  /** A header built as word, space, token and tail splits at the space. */
  lemma HeaderSplits(word: string, token: string, tail: string)
    ensures var s := word + " " + token + tail;
            s == word + (" " + token + tail) && s[|word| + 1..] == token + tail
  {
  }

  /** Once the first field is known, the second is the first field of what
      follows its space. */
  lemma SecondFieldAfter(s: string, first: string)
    requires UpToSpace(s) == first && |first| < |s|
    ensures SecondField(s) == Some(UpToSpace(s[|first| + 1..]))
  {
  }

  /** The prefix before the first space of `w + t`, when `w` holds no space
      and `t` is empty or starts with one. */
  lemma {:induction false} UpToSpaceOf(w: string, t: string)
    requires ' ' !in w
    requires t == "" || t[0] == ' '
    ensures UpToSpace(w + t) == w
    decreases |w|
  {
    if |w| > 0 {
      assert (w + t)[1..] == w[1..] + t;
      assert w[0] in w;
      assert forall c :: c in w[1..] ==> c in w;
      UpToSpaceOf(w[1..], t);
      assert w == [w[0]] + w[1..];
    }
  }

  const BearerScheme: string := "Bearer"
  const NoTokenMessage: string := "No token provided"
  const BadTokenMessage: string := "Invalid or expired token"

  /** `protect`. `header` is the Authorization header ("" when absent);
      `verify` gives the user id a token carries, or `None` when
      `jwt.verify` throws, which it does for a missing token too. A verified
      token whose user no longer exists still passes, with no user attached. */
  function Protect(header: string, verify: string -> Option<nat>, users: Users): (r: Gate)
    ensures !StartsWith(header, BearerScheme) ==> r == Deny(401, NoTokenMessage)
    ensures r.Deny? ==> r.status == 401
    ensures r.Next? <==>
              StartsWith(header, BearerScheme) && SecondField(header).Some?
              && verify(SecondField(header).value).Some?
    ensures r.Next? ==> r.user == FindUser(users, verify(SecondField(header).value).value)
  {
    if header != "" && StartsWith(header, BearerScheme) then
      match SecondField(header)
      case None => Deny(401, BadTokenMessage)
      case Some(token) =>
        match verify(token)
        case None => Deny(401, BadTokenMessage)
        case Some(id) => Next(FindUser(users, id))
    else Deny(401, NoTokenMessage)
  }

  /** The scheme is tested as a prefix, not as a word: any header starting
      with "Bearer" whose second field verifies is accepted. */
  lemma SchemeIsAPrefix(scheme: string, token: string, verify: string -> Option<nat>, users: Users)
    requires ' ' !in scheme && ' ' !in token
    requires StartsWith(scheme, BearerScheme)
    requires verify(token).Some?
    ensures Protect(scheme + " " + token, verify, users) == Next(FindUser(users, verify(token).value))
  {
    SecondFieldOf(scheme, token, "");
    assert scheme + " " + token + "" == scheme + " " + token;
    assert (scheme + " " + token)[..|BearerScheme|] == scheme[..|BearerScheme|];
  }

  /** A bare "Bearer" has no second field, so it is answered as an invalid
      token rather than as a missing one. */
  lemma BareSchemeIsInvalidToken(verify: string -> Option<nat>, users: Users)
    ensures Protect(BearerScheme, verify, users) == Deny(401, BadTokenMessage)
  {
  }

  /* ---------------- authorize ---------------- */

  const NotAuthenticatedMessage: string := "Not authenticated"
  const AccessDeniedMessage: string := "Access denied"

  /** `authorize(...roles)`: 401 without a user, 403 for a role not listed,
      otherwise the request goes on unchanged. */
  function Authorize(roles: seq<string>, user: Option<User>): (r: Gate)
    ensures user.None? ==> r == Deny(401, NotAuthenticatedMessage)
    ensures user.Some? && user.value.role !in roles ==> r == Deny(403, AccessDeniedMessage)
    ensures r.Next? <==> user.Some? && user.value.role in roles
    ensures r.Next? ==> r.user == user
  {
    if user.None? then Deny(401, NotAuthenticatedMessage)
    else if user.value.role !in roles then Deny(403, AccessDeniedMessage)
    else Next(user)
  }

  /** `protect` followed by `authorize(...roles)`, as every guarded route
      chains them. */
  function Guard(roles: seq<string>, header: string, verify: string -> Option<nat>, users: Users): (g: Gate)
    ensures g.Next? ==> g.user.Some? && g.user.value in users && g.user.value.role in roles
    ensures g.Deny? ==> g.status == 401 || g.status == 403
  {
    match Protect(header, verify, users)
    case Deny(status, message) => Deny(status, message)
    case Next(user) => Authorize(roles, user)
  }

  /** A request gets through a guarded route exactly when its header carries
      a bearer token that verifies, names an existing user, and that user's
      role is listed; the handler then sees that user. */
  lemma GuardAdmits(roles: seq<string>, header: string, verify: string -> Option<nat>, users: Users)
    ensures var g := Guard(roles, header, verify, users);
            g.Next? <==>
              StartsWith(header, BearerScheme) && SecondField(header).Some?
              && verify(SecondField(header).value).Some?
              && HasUser(users, verify(SecondField(header).value).value)
              && FindUser(users, verify(SecondField(header).value).value).value.role in roles
    ensures var g := Guard(roles, header, verify, users);
            g.Next? ==> g.user.Some? && g.user.value in users && g.user.value.role in roles
  {
  }

  /** A valid token for a deleted user is let through by `protect` and
      stopped by `authorize` with 401. */
  lemma DeletedUserNotAuthenticated(roles: seq<string>, header: string, verify: string -> Option<nat>, users: Users)
    requires StartsWith(header, BearerScheme) && SecondField(header).Some?
    requires verify(SecondField(header).value).Some?
    requires !HasUser(users, verify(SecondField(header).value).value)
    ensures Protect(header, verify, users) == Next(None)
    ensures Guard(roles, header, verify, users) == Deny(401, NotAuthenticatedMessage)
  {
  }
}
