/**
  The middleware that admits a request only for an existing user with a verified
  email address, attaching that user and the session to the request on the way.

  Resolving the session from the request's credentials happens elsewhere; its
  answer is the input `lookup`.
 */
module VerifyUser {
  import opened Db

  datatype Session = Session(sessionId: string, userId: string)

  /** The user the session collaborator resolved from the credentials. */
  datatype SessionUser = SessionUser(userId: string)

  /** What the session collaborator returns: either part may be missing. */
  datatype SessionLookup = SessionLookup(session: Option<Session>, user: Option<SessionUser>)

  /** How the middleware ends: an error handed to `next`, or `next()` with none. */
  datatype Outcome = Unauthorized | BadRequest(message: string) | Proceed

  const UserMissing := "User does not exist"
  const EmailUnverified := "Email is not verified"

  /** The request fields the middleware writes. */
  class Request {
    var user: Option<User>
    var session: Option<Session>

    constructor ()
      ensures user == None && session == None
    {
      user, session := None, None;
    }
  }

  /** The first users row with the given id (`existingUser[0]`), if there is one. */
  function FindUser(users: seq<User>, userId: string): (r: Option<User>)
    ensures r.None? <==> forall u :: u in users ==> u.userId != userId
    ensures r.Some? ==> r.value in users && r.value.userId == userId
    ensures r.Some? ==> exists k :: 0 <= k < |users| && users[k] == r.value
                                    && forall j :: 0 <= j < k ==> users[j].userId != userId
  {
    if users == [] then None
    else if users[0].userId == userId then Some(users[0])
    else FindUser(users[1..], userId)
  }

  /**
    `verifySessionUserMiddleware`. The checks run in order: a missing session or user
    is Unauthorized before the users table is consulted; an unknown user id is a bad
    request; the user and session are then attached to the request, and only after
    that is the email verification checked.
   */
  method VerifySessionUserMiddleware(req: Request, db: Database, lookup: SessionLookup) returns (outcome: Outcome)
    modifies req
    ensures lookup.session.None? || lookup.user.None? ==> outcome == Unauthorized && unchanged(req)
    ensures lookup.session.Some? && lookup.user.Some? ==>
              var found := FindUser(db.users, lookup.user.value.userId);
              && (found.None? ==> outcome == BadRequest(UserMissing) && unchanged(req))
              && (found.Some? ==> req.user == found && req.session == lookup.session
                                  && outcome == if found.value.emailVerified then Proceed else BadRequest(EmailUnverified))
    ensures outcome == Proceed <==>
              && lookup.session.Some? && lookup.user.Some?
              && exists u :: u in db.users && u.userId == lookup.user.value.userId && u.emailVerified
                             && FindUser(db.users, u.userId) == Some(u)
    ensures unchanged(db)
  {
    if lookup.session.None? || lookup.user.None? {
      return Unauthorized;
    }
    var existingUser := FindUser(db.users, lookup.user.value.userId);
    if existingUser.None? {
      return BadRequest(UserMissing);
    }
    req.user := existingUser;
    req.session := lookup.session;
    if !existingUser.value.emailVerified {
      return BadRequest(EmailUnverified);
    }
    outcome := Proceed;
  }
}
