/**
 * The decision rules of the request handlers that change state: the session
 * check, the input checks with their status codes, and the calls into the
 * stores. Each handler runs its guards in the source's order and returns at
 * the first one that fails, leaving every store as it was.
 */
module Routes {
  import opened Wrappers
  import opened Seqs
  import opened Data
  import opened Polls
  import opened Results
  import opened Tables
  import opened Db
  import opened Auth
  import opened Cookies

  /**
   * An HTTP answer: its status, its message and, for creations, the new id.
   * A bare success answer (`{ success: true }`) has an empty message.
   */
  datatype Reply = Reply(status: int, message: string, id: Option<int>)

  /** JavaScript truthiness of an optional text field: present and not empty. */
  predicate Given(x: Option<string>) {
    x.Some? && x.value != ""
  }

  /** The outcome of the session check. */
  datatype Session = Authenticated(email: string) | Refused(reply: Reply)

  /**
   * The session check of the protected handlers: no cookie, or a token that
   * does not validate to a (non-empty) email, is refused with 401.
   */
  function Authenticate(cookies: seq<Cookie>, cookie: Option<string>, now: int): (r: Session)
    ensures r.Authenticated? <==>
              Given(cookie) && ValidateCookie(cookies, cookie.value, now).Some? &&
              ValidateCookie(cookies, cookie.value, now).value != ""
    ensures r.Authenticated? ==> ValidateCookie(cookies, cookie.value, now) == Some(r.email)
    ensures r.Refused? ==> r.reply.status == 401
  {
    if !Given(cookie) then Refused(Reply(401, "Not authenticated", None))
    else
      match ValidateCookie(cookies, cookie.value, now)
      case None => Refused(Reply(401, "Invalid session", None))
      case Some(email) => if email == "" then Refused(Reply(401, "Invalid session", None)) else Authenticated(email)
  }

  // ---------------------------------------------------------------------
  // The invariant the handlers keep beyond the store's own

  /** No two membership rows link the same email to the same group. */
  predicate MembershipUnique(ugs: seq<UserGroup>) {
    forall i, j :: 0 <= i < j < |ugs| ==> ugs[i].userEmail != ugs[j].userEmail || ugs[i].groupId != ugs[j].groupId
  }

  /** Some group of the table has this id. */
  predicate HasGroup(gs: seq<Group>, gid: int) {
    exists k :: 0 <= k < |gs| && gs[k].id == gid
  }

  /** Every membership row names a group of the table. */
  predicate RowsReferenceGroups(ugs: seq<UserGroup>, gs: seq<Group>) {
    forall i :: 0 <= i < |ugs| ==> HasGroup(gs, ugs[i].groupId)
  }

  /** The whole server invariant: the store's own, and the two above. */
  ghost predicate Sound(db: Database)
    reads db
  {
    db.Valid() && MembershipUnique(db.userGroups) && RowsReferenceGroups(db.userGroups, db.groups)
  }

  /** The same groups, in the same places, with possibly different polls. */
  predicate SameGroupIds(a: seq<Group>, b: seq<Group>) {
    |a| == |b| && forall k :: 0 <= k < |a| ==> a[k].id == b[k].id
  }

  /** Changes that keep the group ids keep every row pointing at a group. */
  lemma SameGroupIdsKeepRows(ugs: seq<UserGroup>, a: seq<Group>, b: seq<Group>)
    requires SameGroupIds(a, b) && RowsReferenceGroups(ugs, a)
    ensures RowsReferenceGroups(ugs, b)
  {
    forall i | 0 <= i < |ugs| ensures HasGroup(b, ugs[i].groupId) {
      assert HasGroup(a, ugs[i].groupId);
      var k :| 0 <= k < |a| && a[k].id == ugs[i].groupId;
      assert b[k].id == ugs[i].groupId;
    }
  }

  /** Poll creation, option addition, voting and the sweep never touch a group id. */
  lemma StoreChangesKeepGroupIds(gs: seq<Group>, ugs: seq<UserGroup>, gid: int, p: Poll, pollId: int,
                                 name: string, description: Option<string>, email: string, now: int)
    ensures SameGroupIds(gs, AttachPoll(gs, gid, p))
    ensures AddOption(gs, pollId, name, description).Some? ==> SameGroupIds(gs, AddOption(gs, pollId, name, description).value)
    ensures SameGroupIds(gs, CastVote(gs, ugs, email, pollId, name, now))
    ensures SameGroupIds(gs, Swept(gs, now))
  {
  }

  /**
   * The row added when a group is created keeps the invariant: its group id is
   * new, so no earlier row can name it.
   */
  lemma CreatorRowKeepsSound(ugs: seq<UserGroup>, gs: seq<Group>, g: Group, email: string)
    requires MembershipUnique(ugs) && RowsReferenceGroups(ugs, gs)
    requires forall k :: 0 <= k < |gs| ==> gs[k].id < g.id
    ensures MembershipUnique(ugs + [UserGroup(email, g.id, Admin)])
    ensures RowsReferenceGroups(ugs + [UserGroup(email, g.id, Admin)], gs + [g])
  {
    var r := ugs + [UserGroup(email, g.id, Admin)];
    var gs' := gs + [g];
    forall i | 0 <= i < |ugs| ensures ugs[i].groupId != g.id {
      assert HasGroup(gs, ugs[i].groupId);
    }
    forall i | 0 <= i < |r| ensures HasGroup(gs', r[i].groupId) {
      if i < |ugs| {
        assert HasGroup(gs, ugs[i].groupId);
        var k :| 0 <= k < |gs| && gs[k].id == ugs[i].groupId;
        assert gs'[k] == gs[k];
      } else {
        assert gs'[|gs|] == g;
      }
    }
  }

  /** The row added by a join keeps the invariant: the group exists and the user was not in it. */
  lemma JoinRowKeepsSound(ugs: seq<UserGroup>, gs: seq<Group>, email: string, gid: int)
    requires MembershipUnique(ugs) && RowsReferenceGroups(ugs, gs)
    requires !IsMember(ugs, email, gid)
    requires HasGroup(gs, gid)
    ensures MembershipUnique(ugs + [UserGroup(email, gid, Member)])
    ensures RowsReferenceGroups(ugs + [UserGroup(email, gid, Member)], gs)
  {
  }

  // ---------------------------------------------------------------------
  // Handlers

  /**
   * `POST /api/group`: after the session check, a missing name is refused with
   * 400; otherwise a group is created and the caller becomes its admin.
   */
  method CreateGroup(db: Database, sessions: SessionStore, cookie: Option<string>,
                     name: Option<string>, description: Option<string>, now: int) returns (reply: Reply)
    requires Sound(db)
    modifies db
    ensures Sound(db)
    ensures Authenticate(sessions.cookies, cookie, now).Refused? ==>
              reply == Authenticate(sessions.cookies, cookie, now).reply
    ensures Authenticate(sessions.cookies, cookie, now).Authenticated? && !Given(name) ==> reply.status == 400
    ensures reply.status == 200 <==> Authenticate(sessions.cookies, cookie, now).Authenticated? && Given(name)
    ensures reply.status != 200 ==> db.users == old(db.users) && db.groups == old(db.groups) && db.userGroups == old(db.userGroups)
    ensures reply.status == 200 ==>
              var id := NextId(GroupIds(old(db.groups)));
              && reply.id == Some(id)
              && db.users == old(db.users)
              && db.groups == old(db.groups) + [Group(id, name.value, if Given(description) then description.value else "", now, [])]
              && db.userGroups == old(db.userGroups) + [UserGroup(Authenticate(sessions.cookies, cookie, now).email, id, Admin)]
  {
    var session := Authenticate(sessions.cookies, cookie, now);
    if session.Refused? {
      return session.reply;
    }
    var email := session.email;
    if !Given(name) {
      return Reply(400, "Group name is required", None);
    }
    var text := if Given(description) then description.value else "";
    ghost var groups0, rows0 := db.groups, db.userGroups;
    var groupId := db.AddGroup(name.value, text, now);
    db.AddUserToGroup(email, groupId, Admin);
    CreatorRowKeepsSound(rows0, groups0, Group(groupId, name.value, text, now, []), email);
    reply := Reply(200, "Group created", Some(groupId));
  }

  /**
   * `POST /api/group/:groupId/join`: after the session check and the id check,
   * an unknown caller is first registered with an empty name; an unknown group
   * is refused with 404, an existing membership with 400; otherwise one row
   * with role member is added.
   */
  method JoinGroup(db: Database, sessions: SessionStore, cookie: Option<string>,
                   groupId: Option<int>, now: int) returns (reply: Reply)
    requires Sound(db)
    modifies db
    ensures Sound(db)
    ensures db.groups == old(db.groups)
    ensures Authenticate(sessions.cookies, cookie, now).Refused? ==>
              reply == Authenticate(sessions.cookies, cookie, now).reply && db.users == old(db.users)
    ensures Authenticate(sessions.cookies, cookie, now).Authenticated? && groupId.None? ==>
              reply.status == 400 && db.users == old(db.users)
    ensures Authenticate(sessions.cookies, cookie, now).Authenticated? && groupId.Some? ==>
              var email := Authenticate(sessions.cookies, cookie, now).email;
              && UserExists(db.users, email)
              && db.users == (if UserExists(old(db.users), email) then old(db.users) else old(db.users) + [User(Some(""), email)])
              && (!HasGroup(db.groups, groupId.value) ==> reply.status == 404)
              && (HasGroup(db.groups, groupId.value) && IsMember(old(db.userGroups), email, groupId.value) ==> reply.status == 400)
    ensures reply.status == 200 <==>
              && Authenticate(sessions.cookies, cookie, now).Authenticated?
              && groupId.Some?
              && HasGroup(db.groups, groupId.value)
              && !IsMember(old(db.userGroups), Authenticate(sessions.cookies, cookie, now).email, groupId.value)
    ensures reply.status == 200 ==>
              db.userGroups == old(db.userGroups) + [UserGroup(Authenticate(sessions.cookies, cookie, now).email, groupId.value, Member)]
    ensures reply.status != 200 ==> db.userGroups == old(db.userGroups)
  {
    var session := Authenticate(sessions.cookies, cookie, now);
    if session.Refused? {
      return session.reply;
    }
    var email := session.email;
    if groupId.None? {
      return Reply(400, "Invalid group ID", None);
    }
    var gid := groupId.value;
    if !UserExists(db.users, email) {
      db.AddUser(User(Some(""), email));
      assert db.users[|db.users| - 1].email == email;
    }
    var info := GetGroupPublicInfo(db.groups, gid);
    if info.None? {
      return Reply(404, "Group not found", None);
    }
    var userInfo := GetUserInfo(db.users, db.groups, db.userGroups, email);
    UserInfoShowsMembership(db.users, db.groups, db.userGroups, email, gid);
    if userInfo.Some? && GroupIndex(userInfo.value, gid).Some? {
      return Reply(400, "Already a member of this group", None);
    }
    JoinRowKeepsSound(db.userGroups, db.groups, email, gid);
    db.AddUserToGroup(email, gid, Member);
    reply := Reply(200, "", None);
  }

  /**
   * `POST /api/poll`: after the session check, only the presence of the group
   * id (non-zero), the title and the end time is checked; the poll is created
   * with zero votes. Neither membership nor a future end is required, and a
   * group id without a group still answers with a fresh poll id.
   */
  method CreatePoll(db: Database, sessions: SessionStore, cookie: Option<string>,
                    groupId: Option<int>, title: Option<string>, end: Option<int>, now: int) returns (reply: Reply)
    requires Sound(db)
    modifies db
    ensures Sound(db)
    ensures db.users == old(db.users) && db.userGroups == old(db.userGroups)
    ensures Authenticate(sessions.cookies, cookie, now).Refused? ==>
              reply == Authenticate(sessions.cookies, cookie, now).reply
    ensures reply.status == 200 <==>
              && Authenticate(sessions.cookies, cookie, now).Authenticated?
              && groupId.Some? && groupId.value != 0 && Given(title) && end.Some?
    ensures Authenticate(sessions.cookies, cookie, now).Authenticated? && reply.status != 200 ==> reply.status == 400
    ensures reply.status != 200 ==> db.groups == old(db.groups)
    ensures reply.status == 200 ==>
              var id := NextId(PollIds(old(db.groups)));
              && reply.id == Some(id)
              && db.groups == AttachPoll(old(db.groups), groupId.value, NewPoll(id, title.value, end.value))
  {
    var session := Authenticate(sessions.cookies, cookie, now);
    if session.Refused? {
      return session.reply;
    }
    if groupId.None? || groupId.value == 0 || !Given(title) || end.None? {
      return Reply(400, "Group ID, title, and end date are required", None);
    }
    ghost var groups0 := db.groups;
    var pollId := db.AddPollToGroup(title.value, end.value, groupId.value);
    StoreChangesKeepGroupIds(groups0, db.userGroups, groupId.value, NewPoll(pollId, title.value, end.value), 0, "", None, "", now);
    SameGroupIdsKeepRows(db.userGroups, groups0, db.groups);
    reply := Reply(200, "Poll created", Some(pollId));
  }

  /**
   * `POST /api/poll/:pollId/option`: after the session check, a non-numeric
   * poll id or a missing option name is refused with 400 before any change;
   * an unknown poll ends in 500; otherwise the option is added (or, when its
   * name exists, nothing changes).
   */
  method AddOptionRoute(db: Database, sessions: SessionStore, cookie: Option<string>, pollId: Option<int>,
                        optionName: Option<string>, optionDescription: Option<string>, now: int) returns (reply: Reply)
    requires Sound(db)
    modifies db
    ensures Sound(db)
    ensures db.users == old(db.users) && db.userGroups == old(db.userGroups)
    ensures Authenticate(sessions.cookies, cookie, now).Refused? ==>
              reply == Authenticate(sessions.cookies, cookie, now).reply
    ensures Authenticate(sessions.cookies, cookie, now).Authenticated? && (pollId.None? || !Given(optionName)) ==>
              reply.status == 400
    ensures reply.status != 200 ==> db.groups == old(db.groups)
    ensures reply.status == 500 <==>
              && Authenticate(sessions.cookies, cookie, now).Authenticated? && pollId.Some? && Given(optionName)
              && AddOption(old(db.groups), pollId.value, optionName.value, optionDescription).None?
    ensures reply.status == 200 <==>
              && Authenticate(sessions.cookies, cookie, now).Authenticated? && pollId.Some? && Given(optionName)
              && AddOption(old(db.groups), pollId.value, optionName.value, optionDescription).Some?
    ensures reply.status == 200 ==>
              db.groups == AddOption(old(db.groups), pollId.value, optionName.value, optionDescription).value
  {
    var session := Authenticate(sessions.cookies, cookie, now);
    if session.Refused? {
      return session.reply;
    }
    if pollId.None? {
      return Reply(400, "Invalid poll ID", None);
    }
    if !Given(optionName) {
      return Reply(400, "Option name is required", None);
    }
    ghost var groups0 := db.groups;
    var found := db.AddOptionToPoll(pollId.value, optionName.value, optionDescription);
    StoreChangesKeepGroupIds(groups0, db.userGroups, 0, NewPoll(0, "", 0), pollId.value, optionName.value, optionDescription, "", now);
    SameGroupIdsKeepRows(db.userGroups, groups0, db.groups);
    if !found {
      return Reply(500, "Internal server error", None);
    }
    reply := Reply(200, "", None);
  }

  /**
   * `POST /api/poll/:pollId/vote`: after the session check, a non-numeric poll
   * id or a missing option name is refused with 400 before any change;
   * otherwise the vote is cast and the answer is 200 whether or not the store
   * accepted it.
   */
  method VoteRoute(db: Database, sessions: SessionStore, cookie: Option<string>, pollId: Option<int>,
                   optionName: Option<string>, now: int) returns (reply: Reply)
    requires Sound(db)
    modifies db
    ensures Sound(db)
    ensures db.users == old(db.users) && db.userGroups == old(db.userGroups)
    ensures Authenticate(sessions.cookies, cookie, now).Refused? ==>
              reply == Authenticate(sessions.cookies, cookie, now).reply
    ensures Authenticate(sessions.cookies, cookie, now).Authenticated? && (pollId.None? || !Given(optionName)) ==>
              reply.status == 400
    ensures reply.status == 200 <==>
              Authenticate(sessions.cookies, cookie, now).Authenticated? && pollId.Some? && Given(optionName)
    ensures reply.status != 200 ==> db.groups == old(db.groups)
    ensures reply.status == 200 ==>
              db.groups == CastVote(old(db.groups), db.userGroups, Authenticate(sessions.cookies, cookie, now).email,
                                    pollId.value, optionName.value, now)
  {
    var session := Authenticate(sessions.cookies, cookie, now);
    if session.Refused? {
      return session.reply;
    }
    if pollId.None? {
      return Reply(400, "Invalid poll ID", None);
    }
    if !Given(optionName) {
      return Reply(400, "Option name is required", None);
    }
    ghost var groups0 := db.groups;
    db.AddVoteToPollOption(session.email, pollId.value, optionName.value, now);
    StoreChangesKeepGroupIds(groups0, db.userGroups, 0, NewPoll(0, "", 0), pollId.value, optionName.value, None, session.email, now);
    SameGroupIdsKeepRows(db.userGroups, groups0, db.groups);
    reply := Reply(200, "", None);
  }

  /**
   * One run of the periodic expiry check: the sweep of the store, whose
   * messages are handed to the mailer. It keeps the server invariant.
   */
  method PollChecker(db: Database, now: int) returns (outbox: seq<Notice>)
    requires Sound(db)
    modifies db
    ensures Sound(db)
    ensures db.groups == Swept(old(db.groups), now)
    ensures db.users == old(db.users) && db.userGroups == old(db.userGroups)
    ensures outbox == SweepNotices(old(db.groups), db.userGroups, now)
  {
    ghost var groups0 := db.groups;
    outbox := db.CheckPollDates(now);
    StoreChangesKeepGroupIds(groups0, db.userGroups, 0, NewPoll(0, "", 0), 0, "", None, "", now);
    SameGroupIdsKeepRows(db.userGroups, groups0, db.groups);
  }

  /**
   * `GET /api/login`: a missing email is refused with 400. The unknown-user
   * guard negates the pending lookup rather than its result; a pending lookup
   * is an object and so truthy, the guard is always false, and an unknown
   * email is never refused. When the verification mail goes out (`delivered`
   * holds the code it carried), the code is stored.
   */
  method Login(db: Database, codes: CodeStore, email: Option<string>, delivered: Option<string>, now: int)
    returns (reply: Reply)
    modifies codes
    ensures reply.status == 200 <==> Given(email)
    ensures reply.status != 200 ==> reply.status == 400 && codes.codes == old(codes.codes)
    ensures Given(email) && delivered.Some? ==>
              codes.codes == old(codes.codes) + [Code(email.value, delivered.value, now + CodeLifetime, InitialAttempts, 0)]
    ensures delivered.None? ==> codes.codes == old(codes.codes)
  {
    if !Given(email) {
      return Reply(400, "Email query parameter is required", None);
    }
    if delivered.Some? {
      codes.SaveVerificationCode(email.value, delivered.value, now);
    }
    reply := Reply(200, "Login endpoint hit", None);
  }

  /**
   * `GET /api/register`: a missing email is refused with 400, a known one with
   * 400; otherwise the user is added with an empty name and, when the mail goes
   * out, its code is stored.
   */
  method Register(db: Database, codes: CodeStore, email: Option<string>, delivered: Option<string>, now: int)
    returns (reply: Reply)
    requires Sound(db)
    modifies db, codes
    ensures Sound(db)
    ensures db.groups == old(db.groups) && db.userGroups == old(db.userGroups)
    ensures reply.status == 200 <==> Given(email) && !UserExists(old(db.users), email.value)
    ensures reply.status != 200 ==> reply.status == 400 && db.users == old(db.users) && codes.codes == old(codes.codes)
    ensures reply.status == 200 ==> db.users == old(db.users) + [User(Some(""), email.value)]
    ensures reply.status == 200 && delivered.Some? ==>
              codes.codes == old(codes.codes) + [Code(email.value, delivered.value, now + CodeLifetime, InitialAttempts, 0)]
    ensures delivered.None? ==> codes.codes == old(codes.codes)
  {
    if !Given(email) {
      return Reply(400, "Email query parameter is required", None);
    }
    if UserExists(db.users, email.value) {
      return Reply(400, "User already exists", None);
    }
    db.AddUser(User(Some(""), email.value));
    if delivered.Some? {
      codes.SaveVerificationCode(email.value, delivered.value, now);
    }
    reply := Reply(200, "Register endpoint hit", None);
  }

  /**
   * `GET /api/login/code`: the code is validated; on success a new session
   * token (built from the random draws `picks`) is stored for the email and
   * returned as the session cookie, otherwise the answer is 400.
   */
  method LoginCode(codes: CodeStore, sessions: SessionStore, email: string, code: string,
                   picks: seq<nat>, now: int) returns (reply: Reply, session: Option<string>)
    requires |picks| == TokenLength && forall i :: 0 <= i < |picks| ==> picks[i] < |Alphabet|
    modifies codes, sessions
    ensures codes.codes == Validate(old(codes.codes), email, code, now).codes
    ensures reply.status == 200 <==> Validate(old(codes.codes), email, code, now).ok
    ensures reply.status != 200 ==> reply.status == 400 && session.None? && sessions.cookies == old(sessions.cookies)
    ensures reply.status == 200 ==>
              && session.Some? && |session.value| == TokenLength
              && sessions.cookies == Saved(old(sessions.cookies), email, session.value, now)
  {
    var ok := codes.ValidateCode(email, code, now);
    if !ok {
      return Reply(400, "Invalid code", None), None;
    }
    var token := GenerateCookie(picks);
    sessions.SaveCookie(email, token, now);
    reply, session := Reply(200, "Code is valid", None), Some(token);
  }
}
