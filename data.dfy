/**
 * The record types of the voting back end: the three tables of the main store
 * (users, groups with their embedded polls, membership rows), the verification
 * code records and the session records.
 * Timestamps (ISO strings and `Date.now()` values alike) are integer milliseconds.
 */
module Data {
  import opened Wrappers

  /** A membership role: exactly "admin" or "member". */
  datatype Role = Admin | Member

  /** The role's spelling in the stored JSON. */
  function RoleName(r: Role): (s: string)
    ensures ParseRole(s) == Some(r)
  {
    match r
    case Admin => "admin"
    case Member => "member"
  }

  /** Reading a stored role back: only the two spellings are roles. */
  function ParseRole(s: string): (r: Option<Role>)
    ensures r.Some? <==> s == "admin" || s == "member"
  {
    if s == "admin" then Some(Admin)
    else if s == "member" then Some(Member)
    else None
  }

  /** A registered user; the name is optional and the email is the key. */
  datatype User = User(name: Option<string>, email: string)

  /** One option of a poll with its vote counter and optional description. */
  datatype PollOption = PollOption(optionName: string, votes: nat, optionDescription: Option<string>)

  /**
   * A poll: id, total vote counter, options, the emails that already voted,
   * end time and title.
   */
  datatype Poll = Poll(id: int, votes: nat, options: seq<PollOption>, alreadyVoted: seq<string>,
                       end: int, title: string)

  /** A group with its id, texts, time of last use and the list of its active polls. */
  datatype Group = Group(id: int, name: string, description: string, lastUse: int, polls: seq<Poll>)

  /** A membership row: one user email in one group with one role. */
  datatype UserGroup = UserGroup(userEmail: string, groupId: int, role: Role)

  /**
   * A verification code record: email, code, expiry, remaining attempts and
   * attempts already made. Attempts are plain numbers and may go below zero.
   */
  datatype Code = Code(email: string, code: string, expiresAt: int, attempts: int, alreadyAttempted: int)

  /** A session record binding an email to a token until an expiry time. */
  datatype Cookie = Cookie(email: string, cookie: string, expiresAt: int)
}
