/**
 * The API's request gatekeeping (backend/src/middleware/auth.js): the
 * bearer-token check that admits administrators and the role check that
 * follows it.  Token verification is a parameter: a partial function from
 * the token text to the decoded claims, `None` when verification fails.
 */
module Auth {
  import opened Wrappers
  import opened Text

  /** The decoded token payload; `role` is `None` when the payload has none. */
  datatype Claims = Claims(id: string, role: Option<string>)

  /** `req.user`. */
  datatype User = User(id: string, role: string)

  /** A response the middleware sends, or `Allow` for a call of `next()`. */
  datatype Decision = Deny(status: nat, message: string) | Allow

  const BearerPrefix: string := "Bearer "
  const NoTokenMessage: string := "Access denied. No token provided."
  const InvalidTokenMessage: string := "Invalid token."
  const AdminRequiredMessage: string := "Access denied. Admin privileges required."

  /** The user every admitted request carries, whatever the token's id. */
  const AdminUser: User := User("admin", "admin")

  /** `authHeader.split(' ')[1]`: the text after "Bearer " up to the next
      space. */
  function BearerToken(header: string): (token: string)
    requires StartsWith(header, BearerPrefix)
    ensures token <= header[|BearerPrefix|..] && ' ' !in token
    ensures |token| < |header| - |BearerPrefix| ==> header[|BearerPrefix| + |token|] == ' '
  {
    assert header == "Bearer" + [' '] + header[|BearerPrefix|..];
    SplitAtSeparator("Bearer", ' ', header[|BearerPrefix|..]);
    SplitHead(header[|BearerPrefix|..], ' ');
    Split(header, ' ')[1]
  }

  /** `authenticateAdmin` as the cascade of early returns it is. */
  function AdminDecision(header: Option<string>, verify: string -> Option<Claims>): Decision {
    if header.None? || header.value == "" || !StartsWith(header.value, BearerPrefix) then
      Deny(401, NoTokenMessage)
    else
      match verify(BearerToken(header.value))
      case None => Deny(401, InvalidTokenMessage)
      case Some(claims) =>
        if claims.role != Some("admin") then Deny(403, AdminRequiredMessage) else Allow
  }

  /** The four outcomes of `authenticateAdmin` and exactly when each occurs. */
  lemma AdminDecisionCases(header: Option<string>, verify: string -> Option<Claims>)
    ensures var d := AdminDecision(header, verify);
      && (header.None? || !StartsWith(header.value, BearerPrefix) <==> d == Deny(401, NoTokenMessage))
      && (d == Deny(401, InvalidTokenMessage) <==>
            header.Some? && StartsWith(header.value, BearerPrefix) && verify(BearerToken(header.value)).None?)
      && (d == Deny(403, AdminRequiredMessage) <==>
            && header.Some? && StartsWith(header.value, BearerPrefix)
            && verify(BearerToken(header.value)).Some?
            && verify(BearerToken(header.value)).value.role != Some("admin"))
      && (d == Allow <==>
            && header.Some? && StartsWith(header.value, BearerPrefix)
            && verify(BearerToken(header.value)).Some?
            && verify(BearerToken(header.value)).value.role == Some("admin"))
  {
  }

  /** The token is the second space-separated field: for "Bearer " followed
      by a space-free text, the text itself. */
  lemma BearerTokenOfSimpleHeader(token: string)
    requires ' ' !in token
    ensures BearerToken(BearerPrefix + token) == token
  {
    var header := BearerPrefix + token;
    assert header[|BearerPrefix|..] == token;
  }

  /** `isAdmin`: only a request whose user has the admin role passes. */
  function IsAdminDecision(user: Option<User>): (d: Decision)
    ensures d == Allow <==> user.Some? && user.value.role == "admin"
    ensures d != Allow ==> d == Deny(403, AdminRequiredMessage)
  {
    if user.None? || user.value.role != "admin" then Deny(403, AdminRequiredMessage) else Allow
  }

  /** A request admitted by `authenticateAdmin` always passes `isAdmin`. */
  lemma AuthenticatedPassesIsAdmin()
    ensures IsAdminDecision(Some(AdminUser)) == Allow
  {
  }

  /** The part of an Express request and response the middleware touches:
      the authorization header, `req.user`, the response sent (status and
      message) and how many times `next` has been called. */
  class Request {
    const authorization: Option<string>
    var user: Option<User>
    var sent: Option<(nat, string)>
    var nextCalls: nat

    constructor (authorization: Option<string>)
      ensures this.authorization == authorization
      ensures user == None && sent == None && nextCalls == 0
    {
      this.authorization := authorization;
      user := None;
      sent := None;
      nextCalls := 0;
    }

    /** `authenticateAdmin(req, res, next)`: on success sets `req.user` to
        the admin user and calls `next` once; otherwise sends the denial and
        does not call `next`. */
    method AuthenticateAdmin(verify: string -> Option<Claims>)
      modifies this
      ensures match AdminDecision(authorization, verify)
        case Allow =>
          user == Some(AdminUser) && nextCalls == old(nextCalls) + 1 && sent == old(sent)
        case Deny(status, message) =>
          sent == Some((status, message)) && nextCalls == old(nextCalls) && user == old(user)
    {
      var header := authorization;
      if header.None? || header.value == "" || !StartsWith(header.value, BearerPrefix) {
        sent := Some((401, NoTokenMessage));
        return;
      }
      var token := BearerToken(header.value);
      var decoded := verify(token);
      if decoded.None? {
        sent := Some((401, InvalidTokenMessage));
        return;
      }
      if decoded.value.role != Some("admin") {
        sent := Some((403, AdminRequiredMessage));
        return;
      }
      user := Some(AdminUser);
      nextCalls := nextCalls + 1;
    }

    /** `authenticate`: the same as `authenticateAdmin`. */
    method Authenticate(verify: string -> Option<Claims>)
      modifies this
      ensures match AdminDecision(authorization, verify)
        case Allow =>
          user == Some(AdminUser) && nextCalls == old(nextCalls) + 1 && sent == old(sent)
        case Deny(status, message) =>
          sent == Some((status, message)) && nextCalls == old(nextCalls) && user == old(user)
    {
      AuthenticateAdmin(verify);
    }

    /** `isAdmin(req, res, next)`. */
    method IsAdmin()
      modifies this
      ensures user == old(user)
      ensures match IsAdminDecision(user)
        case Allow => nextCalls == old(nextCalls) + 1 && sent == old(sent)
        case Deny(status, message) => sent == Some((status, message)) && nextCalls == old(nextCalls)
    {
      if user.None? || user.value.role != "admin" {
        sent := Some((403, AdminRequiredMessage));
        return;
      }
      nextCalls := nextCalls + 1;
    }
  }
}
