/**
 * The main store's tables as values: the read-only queries, the store
 * invariant, and the specification of each change the store makes
 * (group creation, poll creation, option addition, vote casting and the
 * expiry sweep) together with the lemmas about them.
 */
module Tables {
  import opened Wrappers
  import opened Seqs
  import opened Data
  import opened Polls
  import opened Results

  // ---------------------------------------------------------------------
  // Read-only queries

  /** `users.some(u => u.email === email)`. */
  function UserExists(users: seq<User>, email: string): (b: bool)
    ensures b <==> exists i :: 0 <= i < |users| && users[i].email == email
  {
    if users == [] then false
    else
      assert forall i :: 1 <= i < |users| ==> users[i] == users[1..][i - 1];
      users[0].email == email || UserExists(users[1..], email)
  }

  /** There is a membership row for this email in this group. */
  predicate IsMember(ugs: seq<UserGroup>, email: string, gid: int) {
    exists i :: 0 <= i < |ugs| && ugs[i].userEmail == email && ugs[i].groupId == gid
  }

  /** `rows.some(ug => ug.groupId === gid)`. */
  function InAnyRow(rows: seq<UserGroup>, gid: int): bool {
    FirstIndex((ug: UserGroup) => ug.groupId == gid, rows).Some?
  }

  /** The membership rows of one email. */
  function RowsOf(ugs: seq<UserGroup>, email: string): seq<UserGroup> {
    Filter((ug: UserGroup) => ug.userEmail == email, ugs)
  }

  /**
   * `getUserInfo`: None for an unknown email, otherwise the groups that have
   * a membership row for it, in the order of the groups table.
   */
  function GetUserInfo(users: seq<User>, groups: seq<Group>, ugs: seq<UserGroup>, email: string): Option<seq<Group>> {
    if !UserExists(users, email) then None
    else
      var rows := RowsOf(ugs, email);
      if |rows| == 0 then Some([])
      else Some(Filter((g: Group) => InAnyRow(rows, g.id), groups))
  }

  lemma MemberIffInRows(ugs: seq<UserGroup>, email: string, gid: int)
    ensures IsMember(ugs, email, gid) <==> InAnyRow(RowsOf(ugs, email), gid)
  {
    var rows := RowsOf(ugs, email);
    if IsMember(ugs, email, gid) {
      var i :| 0 <= i < |ugs| && ugs[i].userEmail == email && ugs[i].groupId == gid;
      assert ugs[i] in rows;
      var k :| 0 <= k < |rows| && rows[k] == ugs[i];
      assert rows[k].groupId == gid;
    }
    if InAnyRow(rows, gid) {
      var k := FirstIndex((ug: UserGroup) => ug.groupId == gid, rows).value;
      assert rows[k] in ugs && rows[k].userEmail == email;
    }
  }

  /**
   * What `getUserInfo` reports: nothing for an unknown email; for a known one
   * exactly the groups of the table that have a membership row for it.
   */
  lemma GetUserInfoSpec(users: seq<User>, groups: seq<Group>, ugs: seq<UserGroup>, email: string)
    ensures GetUserInfo(users, groups, ugs, email).None? <==> !UserExists(users, email)
    ensures GetUserInfo(users, groups, ugs, email).Some? ==>
      && (forall i :: 0 <= i < |GetUserInfo(users, groups, ugs, email).value| ==>
            GetUserInfo(users, groups, ugs, email).value[i] in groups &&
            IsMember(ugs, email, GetUserInfo(users, groups, ugs, email).value[i].id))
      && (forall i :: 0 <= i < |groups| && IsMember(ugs, email, groups[i].id) ==>
            groups[i] in GetUserInfo(users, groups, ugs, email).value)
  {
    if UserExists(users, email) {
      var r := GetUserInfo(users, groups, ugs, email).value;
      var rows := RowsOf(ugs, email);
      forall i | 0 <= i < |r| ensures r[i] in groups && IsMember(ugs, email, r[i].id) {
        MemberIffInRows(ugs, email, r[i].id);
      }
      forall i | 0 <= i < |groups| && IsMember(ugs, email, groups[i].id) ensures groups[i] in r {
        MemberIffInRows(ugs, email, groups[i].id);
      }
    }
  }

  /**
   * For a known user and an existing group, the join handler's test on the
   * `getUserInfo` answer (`some(g => g.id === gid)`) holds exactly when the
   * user already has a membership row for the group.
   */
  lemma UserInfoShowsMembership(users: seq<User>, groups: seq<Group>, ugs: seq<UserGroup>, email: string, gid: int)
    requires UserExists(users, email)
    requires exists k :: 0 <= k < |groups| && groups[k].id == gid
    ensures GroupIndex(GetUserInfo(users, groups, ugs, email).value, gid).Some? <==> IsMember(ugs, email, gid)
  {
    GetUserInfoSpec(users, groups, ugs, email);
    var info := GetUserInfo(users, groups, ugs, email).value;
    var fk := GroupIndex(info, gid);
    if fk.Some? {
      assert info[fk.value] in groups && IsMember(ugs, email, info[fk.value].id);
    }
    if IsMember(ugs, email, gid) {
      var k :| 0 <= k < |groups| && groups[k].id == gid;
      assert groups[k] in info;
      var j :| 0 <= j < |info| && info[j] == groups[k];
      assert info[j].id == gid;
    }
  }

  /** Group `g` holds a poll with this id. */
  predicate HasPoll(g: Group, id: int) {
    exists j :: 0 <= j < |g.polls| && g.polls[j].id == id
  }

  /**
   * Where the source's loops find a poll: the first group holding a poll
   * with that id, and the first such poll in that group.
   */
  function FindPoll(gs: seq<Group>, id: int): (r: Option<(nat, nat)>)
    ensures r.Some? ==> r.value.0 < |gs| && r.value.1 < |gs[r.value.0].polls|
    ensures r.Some? ==> gs[r.value.0].polls[r.value.1].id == id
    ensures r.Some? ==> forall k :: 0 <= k < r.value.0 ==> !HasPoll(gs[k], id)
    ensures r.Some? ==> forall j :: 0 <= j < r.value.1 ==> gs[r.value.0].polls[j].id != id
    ensures r.None? <==> forall k :: 0 <= k < |gs| ==> !HasPoll(gs[k], id)
  {
    if gs == [] then None
    else
      match FirstIndex((p: Poll) => p.id == id, gs[0].polls)
      case Some(j) => Some((0, j))
      case None =>
        assert !HasPoll(gs[0], id);
        match FindPoll(gs[1..], id)
        case None =>
          assert forall k :: 1 <= k < |gs| ==> gs[k] == gs[1..][k - 1];
          None
        case Some(loc) =>
          assert forall k :: 1 <= k <= loc.0 ==> gs[k] == gs[1..][k - 1];
          Some((loc.0 + 1, loc.1))
  }

  /**
   * What the source's group-by-group search settles on: when no group before
   * `k` holds the id and `j` is the first matching poll of group `k`, the
   * search result is `(k, j)`.
   */
  lemma FindPollAt(gs: seq<Group>, id: int, k: nat, j: nat)
    requires k < |gs| && j < |gs[k].polls| && gs[k].polls[j].id == id
    requires forall m :: 0 <= m < k ==> !HasPoll(gs[m], id)
    requires forall i :: 0 <= i < j ==> gs[k].polls[i].id != id
    ensures FindPoll(gs, id) == Some((k, j))
  {
    assert HasPoll(gs[k], id);
    var loc := FindPoll(gs, id).value;
    assert HasPoll(gs[loc.0], id);
  }

  /** `getPollById`: the poll with that id, if any group holds one. */
  function PollById(gs: seq<Group>, id: int): (r: Option<Poll>)
    ensures r.Some? ==> r.value.id == id && exists k :: 0 <= k < |gs| && r.value in gs[k].polls
    ensures r.None? <==> forall k :: 0 <= k < |gs| ==> !HasPoll(gs[k], id)
  {
    match FindPoll(gs, id)
    case None => None
    case Some(loc) => Some(gs[loc.0].polls[loc.1])
  }

  /** `groups.find(g => g.id === gid)` as a position. */
  function GroupIndex(gs: seq<Group>, gid: int): Option<nat> {
    FirstIndex((g: Group) => g.id == gid, gs)
  }

  /** `getPollsForGroup`: the polls of the first group with that id, or none. */
  function PollsForGroup(gs: seq<Group>, gid: int): (r: seq<Poll>)
    ensures (forall k :: 0 <= k < |gs| ==> gs[k].id != gid) ==> r == []
    ensures GroupIdsUnique(gs) ==> forall k :: 0 <= k < |gs| && gs[k].id == gid ==> r == gs[k].polls
  {
    match GroupIndex(gs, gid)
    case None => []
    case Some(k) => gs[k].polls
  }

  /** The answer of `getGroupInfo`. */
  datatype GroupInfo = GroupInfo(id: int, name: string, description: string, members: nat)

  /** The answer of `getGroupPublicInfo`: no member count. */
  datatype PublicInfo = PublicInfo(id: int, name: string, description: string)

  /** The group id of every membership row. */
  function RowGroupIds(ugs: seq<UserGroup>): seq<int> {
    seq(|ugs|, i requires 0 <= i < |ugs| => ugs[i].groupId)
  }

  /** The membership rows naming a group, in table order. */
  function RowsFor(ugs: seq<UserGroup>, gid: int): seq<UserGroup> {
    Filter((ug: UserGroup) => ug.groupId == gid, ugs)
  }

  /**
   * `getGroupInfo`: the name and description of the first group with that id,
   * and as member count the number of membership rows naming the id.
   */
  function GetGroupInfo(gs: seq<Group>, ugs: seq<UserGroup>, gid: int): (r: Option<GroupInfo>)
    ensures r.None? <==> forall k :: 0 <= k < |gs| ==> gs[k].id != gid
    ensures r.Some? ==> r.value.id == gid
    ensures r.Some? ==> exists k :: 0 <= k < |gs| && gs[k].id == gid && (forall m :: 0 <= m < k ==> gs[m].id != gid) &&
                                    r.value.name == gs[k].name && r.value.description == gs[k].description
    ensures r.Some? ==> r.value.members == multiset(RowGroupIds(ugs))[gid]
  {
    match GroupIndex(gs, gid)
    case None => None
    case Some(k) =>
      RowsForCount(ugs, gid);
      Some(GroupInfo(gs[k].id, gs[k].name, gs[k].description, |RowsFor(ugs, gid)|))
  }

  /** The number of membership rows naming the group: the occurrences of its id among the rows' group ids. */
  lemma {:induction false} RowsForCount(ugs: seq<UserGroup>, gid: int)
    ensures |RowsFor(ugs, gid)| == multiset(RowGroupIds(ugs))[gid]
  {
    if ugs != [] {
      RowsForCount(ugs[1..], gid);
      assert RowsFor(ugs, gid) == (if ugs[0].groupId == gid then [ugs[0]] else []) + RowsFor(ugs[1..], gid);
      assert RowGroupIds(ugs) == [ugs[0].groupId] + RowGroupIds(ugs[1..]);
    }
  }

  /** `getGroupPublicInfo`: the first group with that id, without its member count. */
  function GetGroupPublicInfo(gs: seq<Group>, gid: int): (r: Option<PublicInfo>)
    ensures r.None? <==> forall k :: 0 <= k < |gs| ==> gs[k].id != gid
    ensures r.Some? ==> r.value.id == gid
    ensures r.Some? ==> exists k :: 0 <= k < |gs| && gs[k].id == gid && (forall m :: 0 <= m < k ==> gs[m].id != gid) &&
                                    r.value.name == gs[k].name && r.value.description == gs[k].description
  {
    match GroupIndex(gs, gid)
    case None => None
    case Some(k) => Some(PublicInfo(gs[k].id, gs[k].name, gs[k].description))
  }

  /** One entry of `getPollsForUser`: a poll with the name of its group. */
  datatype PollWithGroup = PollWithGroup(poll: Poll, groupName: string)

  /** The polls of a group tagged with the group's name. */
  function Tagged(ps: seq<Poll>, name: string): (r: seq<PollWithGroup>)
    ensures |r| == |ps|
    ensures forall j :: 0 <= j < |r| ==> r[j] == PollWithGroup(ps[j], name)
  {
    seq(|ps|, j requires 0 <= j < |ps| => PollWithGroup(ps[j], name))
  }

  /** The entries one membership row contributes: the polls of the first group with its id. */
  function RowPolls(gs: seq<Group>, ug: UserGroup): seq<PollWithGroup> {
    match GroupIndex(gs, ug.groupId)
    case None => []
    case Some(k) => Tagged(gs[k].polls, gs[k].name)
  }

  /** `getPollsForUser`: the entries of the email's membership rows, row by row. */
  function PollsForUser(gs: seq<Group>, ugs: seq<UserGroup>, email: string): seq<PollWithGroup> {
    if ugs == [] then []
    else
      PollsForUser(gs, ugs[..|ugs| - 1], email)
      + (if ugs[|ugs| - 1].userEmail == email then RowPolls(gs, ugs[|ugs| - 1]) else [])
  }

  /**
   * Every entry of `getPollsForUser` is a poll of a group the email has a
   * membership row for, labelled with that group's name; with unique group
   * ids, every poll of such a group is listed.
   */
  lemma {:induction false} PollsForUserSpec(gs: seq<Group>, ugs: seq<UserGroup>, email: string)
    ensures forall x :: x in PollsForUser(gs, ugs, email) ==>
      exists k :: 0 <= k < |gs| && IsMember(ugs, email, gs[k].id) && x.poll in gs[k].polls && x.groupName == gs[k].name
    ensures GroupIdsUnique(gs) ==> forall k, j :: 0 <= k < |gs| && IsMember(ugs, email, gs[k].id) && 0 <= j < |gs[k].polls| ==>
      PollWithGroup(gs[k].polls[j], gs[k].name) in PollsForUser(gs, ugs, email)
  {
    if ugs != [] {
      var init := ugs[..|ugs| - 1];
      var last := ugs[|ugs| - 1];
      PollsForUserSpec(gs, init, email);
      assert forall g :: IsMember(init, email, g) ==> IsMember(ugs, email, g) by {
        forall g | IsMember(init, email, g) ensures IsMember(ugs, email, g) {
          var i :| 0 <= i < |init| && init[i].userEmail == email && init[i].groupId == g;
          assert ugs[i] == init[i];
        }
      }
      if last.userEmail == email {
        assert IsMember(ugs, email, last.groupId);
      }
      if GroupIdsUnique(gs) {
        forall k, j | 0 <= k < |gs| && IsMember(ugs, email, gs[k].id) && 0 <= j < |gs[k].polls|
          ensures PollWithGroup(gs[k].polls[j], gs[k].name) in PollsForUser(gs, ugs, email)
        {
          var i :| 0 <= i < |ugs| && ugs[i].userEmail == email && ugs[i].groupId == gs[k].id;
          if i < |ugs| - 1 {
            assert init[i] == ugs[i];
            assert IsMember(init, email, gs[k].id);
          } else {
            var t := Tagged(gs[k].polls, gs[k].name);
            assert RowPolls(gs, last) == t;
            assert t[j] == PollWithGroup(gs[k].polls[j], gs[k].name);
          }
        }
      }
    }
  }

  // ---------------------------------------------------------------------
  // The store invariant

  /** No two groups share an id. */
  predicate GroupIdsUnique(gs: seq<Group>) {
    forall i, j :: 0 <= i < j < |gs| ==> gs[i].id != gs[j].id
  }

  /** The ids of the groups, in table order. */
  function GroupIds(gs: seq<Group>): seq<int> {
    seq(|gs|, i requires 0 <= i < |gs| => gs[i].id)
  }

  /** The ids of one group's polls, in order. */
  function GroupPollIds(ps: seq<Poll>): seq<int> {
    seq(|ps|, i requires 0 <= i < |ps| => ps[i].id)
  }

  /** `groups.flatMap(g => g.polls).map(p => p.id)`: every poll id, group after group. */
  function PollIds(gs: seq<Group>): seq<int> {
    if gs == [] then [] else GroupPollIds(gs[0].polls) + PollIds(gs[1..])
  }

  /** No poll id occurs twice among all groups' polls. */
  ghost predicate PollIdsUnique(gs: seq<Group>) {
    forall id :: multiset(PollIds(gs))[id] <= 1
  }

  /** Every stored poll keeps the counting invariant. */
  predicate PollsConsistent(gs: seq<Group>) {
    forall i, j :: 0 <= i < |gs| && 0 <= j < |gs[i].polls| ==> Consistent(gs[i].polls[j])
  }

  /** The invariant of the groups table. */
  ghost predicate WellFormed(gs: seq<Group>) {
    GroupIdsUnique(gs) && PollIdsUnique(gs) && PollsConsistent(gs)
  }

  /** A poll id that occurs in some group occurs in the flattened id list. */
  lemma {:induction false} PollIdListed(gs: seq<Group>, k: nat, j: nat)
    requires k < |gs| && j < |gs[k].polls|
    ensures gs[k].polls[j].id in PollIds(gs)
  {
    if k == 0 {
      assert GroupPollIds(gs[0].polls)[j] == gs[0].polls[j].id;
    } else {
      PollIdListed(gs[1..], k - 1, j);
    }
  }

  lemma {:induction false} PollIdsAppend(a: seq<Group>, b: seq<Group>)
    ensures PollIds(a + b) == PollIds(a) + PollIds(b)
  {
    if a == [] {
      assert a + b == b;
    } else {
      assert (a + b)[1..] == a[1..] + b;
      PollIdsAppend(a[1..], b);
    }
  }

  /** The flattened ids split around one group. */
  lemma {:induction false} PollIdsSplit(gs: seq<Group>, k: nat)
    requires k < |gs|
    ensures PollIds(gs) == PollIds(gs[..k]) + GroupPollIds(gs[k].polls) + PollIds(gs[k + 1..])
  {
    if k == 0 {
      assert gs[..0] == [];
    } else {
      PollIdsSplit(gs[1..], k - 1);
      assert gs[1..][k - 1] == gs[k];
      assert gs[1..][k..] == gs[k + 1..];
      assert gs[..k][1..] == gs[1..][..k - 1];
      assert PollIds(gs[..k]) == GroupPollIds(gs[0].polls) + PollIds(gs[1..][..k - 1]);
    }
  }

  /** Replacing one group leaves the ids of all other groups in place. */
  lemma PollIdsUpdate(gs: seq<Group>, k: nat, g: Group)
    requires k < |gs|
    ensures PollIds(gs[k := g]) == PollIds(gs[..k]) + GroupPollIds(g.polls) + PollIds(gs[k + 1..])
  {
    var r := gs[k := g];
    PollIdsSplit(r, k);
    assert r[..k] == gs[..k] && r[k + 1..] == gs[k + 1..];
  }

  // ---------------------------------------------------------------------
  // Group creation

  /** A new group appended with the next id and no polls keeps the invariant. */
  lemma AddGroupWellFormed(gs: seq<Group>, g: Group)
    requires WellFormed(gs)
    requires g.id == NextId(GroupIds(gs)) && g.polls == []
    ensures WellFormed(gs + [g])
    ensures forall i :: 0 <= i < |gs| ==> gs[i].id < g.id
  {
    forall i | 0 <= i < |gs| ensures gs[i].id < g.id {
      assert GroupIds(gs)[i] == gs[i].id;
    }
    PollIdsAppend(gs, [g]);
    assert PollIds([g]) == [];
  }

  // ---------------------------------------------------------------------
  // Poll creation

  /** `addPollToGroup`'s append: to the first group with that id; no group, no change. */
  function AttachPoll(gs: seq<Group>, gid: int, p: Poll): seq<Group> {
    match GroupIndex(gs, gid)
    case None => gs
    case Some(k) => gs[k := gs[k].(polls := gs[k].polls + [p])]
  }

  /** Attaching a consistent poll with a fresh id keeps the invariant. */
  lemma AttachPollWellFormed(gs: seq<Group>, gid: int, p: Poll)
    requires WellFormed(gs) && Consistent(p) && p.id !in PollIds(gs)
    ensures WellFormed(AttachPoll(gs, gid, p))
  {
    var fk := GroupIndex(gs, gid);
    if fk.Some? {
      var k := fk.value;
      var g := gs[k].(polls := gs[k].polls + [p]);
      assert AttachPoll(gs, gid, p) == gs[k := g];
      UpdateGroupIds(gs, k, g);
      AppendPollIds(gs, k, p);
      var r := gs[k := g];
      forall i, j | 0 <= i < |r| && 0 <= j < |r[i].polls| ensures Consistent(r[i].polls[j]) {
        if i == k && j < |gs[k].polls| {
          assert r[i].polls[j] == gs[k].polls[j];
        }
      }
    }
  }

  /** Replacing a group by one with the same id keeps group ids unique. */
  lemma UpdateGroupIds(gs: seq<Group>, k: nat, g: Group)
    requires k < |gs| && g.id == gs[k].id && GroupIdsUnique(gs)
    ensures GroupIdsUnique(gs[k := g])
  {
    var r := gs[k := g];
    forall a, b | 0 <= a < b < |r| ensures r[a].id != r[b].id {
      assert r[a].id == gs[a].id && r[b].id == gs[b].id;
    }
  }

  /** Appending a poll with a fresh id to one group keeps poll ids unique. */
  lemma AppendPollIds(gs: seq<Group>, k: nat, p: Poll)
    requires k < |gs| && PollIdsUnique(gs) && p.id !in PollIds(gs)
    ensures PollIdsUnique(gs[k := gs[k].(polls := gs[k].polls + [p])])
  {
    var g := gs[k].(polls := gs[k].polls + [p]);
    var a, b, c := PollIds(gs[..k]), GroupPollIds(gs[k].polls), PollIds(gs[k + 1..]);
    PollIdsSplit(gs, k);
    PollIdsUpdate(gs, k, g);
    assert GroupPollIds(g.polls) == b + [p.id];
    MultisetInsert(a, b, c, p.id);
    var m := multiset(PollIds(gs));
    assert multiset(PollIds(gs[k := g])) == m + multiset{p.id};
    assert m[p.id] == 0;
  }

  /** Inserting `x` anywhere adds exactly one occurrence of it. */
  lemma MultisetInsert<T>(a: seq<T>, b: seq<T>, c: seq<T>, x: T)
    ensures multiset(a + (b + [x]) + c) == multiset(a + b + c) + multiset{x}
  {
    assert a + (b + [x]) + c == (a + b) + [x] + c;
  }

  /** Replacing a poll by one with the same id keeps poll ids unique. */
  lemma ReplacePollIds(gs: seq<Group>, k: nat, j: nat, q: Poll)
    requires k < |gs| && j < |gs[k].polls| && q.id == gs[k].polls[j].id && PollIdsUnique(gs)
    ensures PollIds(gs[k := gs[k].(polls := gs[k].polls[j := q])]) == PollIds(gs)
    ensures PollIdsUnique(gs[k := gs[k].(polls := gs[k].polls[j := q])])
  {
    var g := gs[k].(polls := gs[k].polls[j := q]);
    PollIdsSplit(gs, k);
    PollIdsUpdate(gs, k, g);
    assert GroupPollIds(g.polls) == GroupPollIds(gs[k].polls);
  }

  /**
   * Creating a poll in an existing group makes it retrievable by its id;
   * with no group of that id the table is unchanged.
   */
  lemma AttachPollFound(gs: seq<Group>, gid: int, p: Poll)
    requires p.id !in PollIds(gs)
    ensures (exists k :: 0 <= k < |gs| && gs[k].id == gid) ==> PollById(AttachPoll(gs, gid, p), p.id) == Some(p)
    ensures (forall k :: 0 <= k < |gs| ==> gs[k].id != gid) ==> AttachPoll(gs, gid, p) == gs
  {
    var fk := GroupIndex(gs, gid);
    if fk.Some? {
      var k := fk.value;
      var r := AttachPoll(gs, gid, p);
      assert r == gs[k := gs[k].(polls := gs[k].polls + [p])];
      forall i, j | 0 <= i < k && 0 <= j < |r[i].polls| ensures r[i].polls[j].id != p.id {
        PollIdListed(gs, i, j);
      }
      forall j | 0 <= j < |gs[k].polls| ensures r[k].polls[j].id != p.id {
        PollIdListed(gs, k, j);
      }
      FindPollAt(r, p.id, k, |gs[k].polls|);
    }
  }

  // ---------------------------------------------------------------------
  // Updating one poll in place (option addition, vote)

  /** The table with the poll at group `k`, position `j` replaced by `q`. */
  function ReplacePoll(gs: seq<Group>, k: nat, j: nat, q: Poll): (r: seq<Group>)
    requires k < |gs| && j < |gs[k].polls|
    ensures |r| == |gs|
  {
    gs[k := gs[k].(polls := gs[k].polls[j := q])]
  }

  /** Replacing a poll by a consistent one with the same id keeps the invariant. */
  lemma ReplacePollWellFormed(gs: seq<Group>, k: nat, j: nat, q: Poll)
    requires k < |gs| && j < |gs[k].polls|
    requires WellFormed(gs) && Consistent(q) && q.id == gs[k].polls[j].id
    ensures WellFormed(ReplacePoll(gs, k, j, q))
  {
    var g := gs[k].(polls := gs[k].polls[j := q]);
    var r := gs[k := g];
    UpdateGroupIds(gs, k, g);
    ReplacePollIds(gs, k, j, q);
    forall i, m | 0 <= i < |r| && 0 <= m < |r[i].polls| ensures Consistent(r[i].polls[m]) {
      if i != k || m != j {
        assert r[i].polls[m] == gs[i].polls[m];
      }
    }
  }

  /** A `find` by poll id depends only on the ids of the polls searched. */
  lemma {:induction false} FirstPollIndexByIds(ps: seq<Poll>, qs: seq<Poll>, id: int)
    requires GroupPollIds(ps) == GroupPollIds(qs)
    ensures FirstIndex((p: Poll) => p.id == id, ps) == FirstIndex((p: Poll) => p.id == id, qs)
  {
    if ps != [] {
      assert |qs| == |ps|;
      assert ps[0].id == GroupPollIds(ps)[0] && qs[0].id == GroupPollIds(qs)[0];
      assert GroupPollIds(ps[1..]) == GroupPollIds(ps)[1..];
      assert GroupPollIds(qs[1..]) == GroupPollIds(qs)[1..];
      FirstPollIndexByIds(ps[1..], qs[1..], id);
    }
  }

  /** The same poll ids, group by group. */
  predicate SamePollIds(a: seq<Group>, b: seq<Group>) {
    |a| == |b| && forall k :: 0 <= k < |a| ==> GroupPollIds(a[k].polls) == GroupPollIds(b[k].polls)
  }

  /** Locating a poll depends only on the poll ids of each group. */
  lemma {:induction false} FindPollByIds(a: seq<Group>, b: seq<Group>, id: int)
    requires SamePollIds(a, b)
    ensures FindPoll(a, id) == FindPoll(b, id)
  {
    if a != [] {
      FirstPollIndexByIds(a[0].polls, b[0].polls, id);
      assert SamePollIds(a[1..], b[1..]) by {
        forall k | 0 <= k < |a[1..]| ensures GroupPollIds(a[1..][k].polls) == GroupPollIds(b[1..][k].polls) {
          assert a[1..][k] == a[k + 1] && b[1..][k] == b[k + 1];
        }
      }
      FindPollByIds(a[1..], b[1..], id);
    }
  }

  /** Replacing a poll by one with the same id does not move where any poll id is found. */
  lemma FindPollReplace(gs: seq<Group>, k: nat, j: nat, q: Poll, id: int)
    requires k < |gs| && j < |gs[k].polls| && q.id == gs[k].polls[j].id
    ensures FindPoll(ReplacePoll(gs, k, j, q), id) == FindPoll(gs, id)
  {
    var r := ReplacePoll(gs, k, j, q);
    assert GroupPollIds(r[k].polls) == GroupPollIds(gs[k].polls);
    assert SamePollIds(r, gs) by {
      forall i | 0 <= i < |r| ensures GroupPollIds(r[i].polls) == GroupPollIds(gs[i].polls) {
        if i != k {
          assert r[i] == gs[i];
        }
      }
    }
    FindPollByIds(r, gs, id);
  }

  // ---------------------------------------------------------------------
  // Option addition

  /** `addOptionToPoll`: None is the "Poll not found" error; otherwise the table after the add. */
  function AddOption(gs: seq<Group>, pollId: int, name: string, description: Option<string>): Option<seq<Group>> {
    match FindPoll(gs, pollId)
    case None => None
    case Some(loc) =>
      Some(ReplacePoll(gs, loc.0, loc.1, WithOption(gs[loc.0].polls[loc.1], name, description)))
  }

  /** Option addition fails exactly for an unknown poll id, and keeps the invariant. */
  lemma AddOptionWellFormed(gs: seq<Group>, pollId: int, name: string, description: Option<string>)
    requires WellFormed(gs)
    ensures AddOption(gs, pollId, name, description).None? <==> forall k :: 0 <= k < |gs| ==> !HasPoll(gs[k], pollId)
    ensures AddOption(gs, pollId, name, description).Some? ==> WellFormed(AddOption(gs, pollId, name, description).value)
  {
    match FindPoll(gs, pollId)
    case None =>
    case Some(loc) =>
      var p := gs[loc.0].polls[loc.1];
      OptionAddConsistent(p, name, description);
      ReplacePollWellFormed(gs, loc.0, loc.1, WithOption(p, name, description));
  }

  /** Adding the same option name to the same poll a second time changes nothing. */
  lemma AddOptionIdempotent(gs: seq<Group>, pollId: int, name: string, d1: Option<string>, d2: Option<string>)
    requires AddOption(gs, pollId, name, d1).Some?
    ensures AddOption(AddOption(gs, pollId, name, d1).value, pollId, name, d2) == AddOption(gs, pollId, name, d1)
  {
    var loc := FindPoll(gs, pollId).value;
    var p := gs[loc.0].polls[loc.1];
    var q := WithOption(p, name, d1);
    var r := ReplacePoll(gs, loc.0, loc.1, q);
    FindPollReplace(gs, loc.0, loc.1, q, pollId);
    OptionAddIdempotent(p, name, d1, d2);
    assert r[loc.0].polls[loc.1] == q;
    assert WithOption(q, name, d2) == q;
    assert r[loc.0].polls[loc.1 := q] == r[loc.0].polls;
    assert r[loc.0].(polls := r[loc.0].polls) == r[loc.0];
    assert r[loc.0 := r[loc.0]] == r;
  }

  // ---------------------------------------------------------------------
  // Vote casting

  /** `options.find(o => o.optionName === name)` as a position. */
  function OptionIndex(os: seq<PollOption>, name: string): Option<nat> {
    FirstIndex((o: PollOption) => o.optionName == name, os)
  }

  /**
   * The five guards of `addVoteToPollOption`: the poll exists, the voter has a
   * membership row for the poll's group, the poll has not ended, the voter
   * has not voted on it, and the option exists.
   */
  predicate VoteAccepted(gs: seq<Group>, ugs: seq<UserGroup>, email: string, pollId: int, optionName: string, now: int) {
    match FindPoll(gs, pollId)
    case None => false
    case Some(loc) =>
      var p := gs[loc.0].polls[loc.1];
      && IsMember(ugs, email, gs[loc.0].id)
      && p.end > now
      && email !in p.alreadyVoted
      && OptionIndex(p.options, optionName).Some?
  }

  /** `addVoteToPollOption`: the table after the call. */
  function CastVote(gs: seq<Group>, ugs: seq<UserGroup>, email: string, pollId: int, optionName: string, now: int): seq<Group> {
    match FindPoll(gs, pollId)
    case None => gs
    case Some(loc) =>
      var g := gs[loc.0];
      var p := g.polls[loc.1];
      if !IsMember(ugs, email, g.id) then gs
      else if p.end <= now then gs
      else if email in p.alreadyVoted then gs
      else
        match OptionIndex(p.options, optionName)
        case None => gs
        case Some(i) => ReplacePoll(gs, loc.0, loc.1, Voted(p, i, email))
  }

  /**
   * A vote changes the table exactly when all five guards hold; in particular
   * a vote never lands on a poll whose end time has passed.
   */
  lemma CastVoteChangesIffAccepted(gs: seq<Group>, ugs: seq<UserGroup>, email: string, pollId: int, optionName: string, now: int)
    ensures CastVote(gs, ugs, email, pollId, optionName, now) != gs <==> VoteAccepted(gs, ugs, email, pollId, optionName, now)
  {
    if VoteAccepted(gs, ugs, email, pollId, optionName, now) {
      var loc := FindPoll(gs, pollId).value;
      var p := gs[loc.0].polls[loc.1];
      var i := OptionIndex(p.options, optionName).value;
      var r := CastVote(gs, ugs, email, pollId, optionName, now);
      assert |r[loc.0].polls[loc.1].alreadyVoted| == |p.alreadyVoted| + 1;
    }
  }

  /**
   * An accepted vote appends the voter once, raises the chosen option's and
   * the poll's counters by one, and changes nothing else in the table.
   */
  lemma CastVoteEffect(gs: seq<Group>, ugs: seq<UserGroup>, email: string, pollId: int, optionName: string, now: int)
    requires VoteAccepted(gs, ugs, email, pollId, optionName, now)
    ensures var loc := FindPoll(gs, pollId).value;
            var p := gs[loc.0].polls[loc.1];
            var i := OptionIndex(p.options, optionName).value;
            var r := CastVote(gs, ugs, email, pollId, optionName, now);
            && |r| == |gs|
            && (forall k :: 0 <= k < |gs| && k != loc.0 ==> r[k] == gs[k])
            && r[loc.0] == gs[loc.0].(polls := r[loc.0].polls)
            && |r[loc.0].polls| == |gs[loc.0].polls|
            && (forall j :: 0 <= j < |gs[loc.0].polls| && j != loc.1 ==> r[loc.0].polls[j] == gs[loc.0].polls[j])
            && r[loc.0].polls[loc.1].alreadyVoted == p.alreadyVoted + [email]
            && r[loc.0].polls[loc.1].votes == p.votes + 1
            && r[loc.0].polls[loc.1].options[i].votes == p.options[i].votes + 1
            && r[loc.0].polls[loc.1].options[i].optionName == optionName
            && (forall m :: 0 <= m < |p.options| && m != i ==> r[loc.0].polls[loc.1].options[m] == p.options[m])
            && r[loc.0].polls[loc.1] == p.(alreadyVoted := r[loc.0].polls[loc.1].alreadyVoted,
                                           votes := r[loc.0].polls[loc.1].votes,
                                           options := r[loc.0].polls[loc.1].options)
  {
  }

  /** Vote casting keeps the invariant: counters stay equal and nobody is recorded twice. */
  lemma CastVoteWellFormed(gs: seq<Group>, ugs: seq<UserGroup>, email: string, pollId: int, optionName: string, now: int)
    requires WellFormed(gs)
    ensures WellFormed(CastVote(gs, ugs, email, pollId, optionName, now))
  {
    if VoteAccepted(gs, ugs, email, pollId, optionName, now) {
      var loc := FindPoll(gs, pollId).value;
      var p := gs[loc.0].polls[loc.1];
      var i := OptionIndex(p.options, optionName).value;
      VotedConsistent(p, i, email);
      ReplacePollWellFormed(gs, loc.0, loc.1, Voted(p, i, email));
    }
  }

  /** After an accepted vote, any further vote by the same email on that poll changes nothing. */
  lemma SecondVoteIgnored(gs: seq<Group>, ugs: seq<UserGroup>, email: string, pollId: int,
                          o1: string, o2: string, now1: int, now2: int)
    requires VoteAccepted(gs, ugs, email, pollId, o1, now1)
    ensures var r := CastVote(gs, ugs, email, pollId, o1, now1);
            CastVote(r, ugs, email, pollId, o2, now2) == r
  {
    var loc := FindPoll(gs, pollId).value;
    var p := gs[loc.0].polls[loc.1];
    var i := OptionIndex(p.options, o1).value;
    var q := Voted(p, i, email);
    var r := ReplacePoll(gs, loc.0, loc.1, q);
    FindPollReplace(gs, loc.0, loc.1, q, pollId);
    assert r[loc.0].polls[loc.1] == q;
    assert email in q.alreadyVoted;
  }

  // ---------------------------------------------------------------------
  // The expiry sweep

  /** The polls that survive a sweep at `now`: those whose end is still ahead, in order. */
  function Live(ps: seq<Poll>, now: int): seq<Poll> {
    Filter((p: Poll) => p.end > now, ps)
  }

  /** The polls a sweep at `now` removes. */
  function Expired(ps: seq<Poll>, now: int): seq<Poll> {
    Filter((p: Poll) => p.end <= now, ps)
  }

  /** The groups table after `checkPollDates` at `now`. */
  function Swept(gs: seq<Group>, now: int): (r: seq<Group>)
    ensures |r| == |gs|
  {
    seq(|gs|, k requires 0 <= k < |gs| => gs[k].(polls := Live(gs[k].polls, now)))
  }

  /**
   * The sweep removes exactly the polls whose end is not after `now`, from
   * every group, keeps the survivors' order, and leaves every other field.
   */
  lemma SweptRemovesExpired(gs: seq<Group>, now: int, k: nat)
    requires k < |gs|
    ensures Swept(gs, now)[k] == gs[k].(polls := Swept(gs, now)[k].polls)
    ensures forall j :: 0 <= j < |Swept(gs, now)[k].polls| ==>
              Swept(gs, now)[k].polls[j] in gs[k].polls && Swept(gs, now)[k].polls[j].end > now
    ensures forall j :: 0 <= j < |gs[k].polls| && gs[k].polls[j].end > now ==> gs[k].polls[j] in Swept(gs, now)[k].polls
    ensures forall a, b :: gs[k].polls == a + b ==> Swept(gs, now)[k].polls == Live(a, now) + Live(b, now)
  {
    forall a, b | gs[k].polls == a + b ensures Swept(gs, now)[k].polls == Live(a, now) + Live(b, now) {
      FilterConcat((p: Poll) => p.end > now, a, b);
    }
  }

  /** Sweeping twice at the same time is the same as sweeping once. */
  lemma SweptIdempotent(gs: seq<Group>, now: int)
    ensures Swept(Swept(gs, now), now) == Swept(gs, now)
  {
    forall k | 0 <= k < |gs| ensures Live(Live(gs[k].polls, now), now) == Live(gs[k].polls, now) {
      var l := Live(gs[k].polls, now);
      FilterAll((p: Poll) => p.end > now, l);
    }
  }

  lemma GroupPollIdsCons(p: Poll, ps: seq<Poll>)
    ensures GroupPollIds([p] + ps) == [p.id] + GroupPollIds(ps)
  {
  }

  lemma {:induction false} LivePollIdsSub(ps: seq<Poll>, now: int)
    ensures multiset(GroupPollIds(Live(ps, now))) <= multiset(GroupPollIds(ps))
  {
    if ps != [] {
      LivePollIdsSub(ps[1..], now);
      GroupPollIdsCons(ps[0], ps[1..]);
      assert ps == [ps[0]] + ps[1..];
      if ps[0].end > now {
        assert Live(ps, now) == [ps[0]] + Live(ps[1..], now);
        GroupPollIdsCons(ps[0], Live(ps[1..], now));
      } else {
        assert Live(ps, now) == Live(ps[1..], now);
      }
    }
  }

  lemma {:induction false} SweptPollIdsSub(gs: seq<Group>, now: int)
    ensures multiset(PollIds(Swept(gs, now))) <= multiset(PollIds(gs))
  {
    if gs != [] {
      assert Swept(gs, now)[1..] == Swept(gs[1..], now);
      SweptPollIdsSub(gs[1..], now);
      LivePollIdsSub(gs[0].polls, now);
    }
  }

  /** The sweep keeps the invariant: group ids are untouched and the surviving polls are unchanged. */
  lemma SweptWellFormed(gs: seq<Group>, now: int)
    requires WellFormed(gs)
    ensures WellFormed(Swept(gs, now))
  {
    SweptPollIdsSub(gs, now);
    var r := Swept(gs, now);
    forall i, j | 0 <= i < |r| && 0 <= j < |r[i].polls| ensures Consistent(r[i].polls[j]) {
      assert r[i].polls[j] in gs[i].polls;
    }
  }

  /** The admin membership rows of a group, in table order. */
  function Admins(ugs: seq<UserGroup>, gid: int): seq<UserGroup> {
    Filter((ug: UserGroup) => ug.groupId == gid && ug.role == Admin, ugs)
  }

  /** One results message per admin row, in order, about poll `p` of the named group. */
  function NoticesFor(p: Poll, groupName: string, admins: seq<UserGroup>): (r: seq<Notice>)
    ensures |r| == |admins|
  {
    if admins == [] then []
    else NoticesFor(p, groupName, admins[..|admins| - 1])
         + [Notice(admins[|admins| - 1].userEmail, p, groupName)]
  }

  /** The messages for the expired polls of one group, last poll first as the reverse loop visits them. */
  function ExpiryNotices(ps: seq<Poll>, groupName: string, admins: seq<UserGroup>, now: int): seq<Notice> {
    if ps == [] then []
    else ExpiryNotices(ps[1..], groupName, admins, now)
         + (if ps[0].end <= now then NoticesFor(ps[0], groupName, admins) else [])
  }

  /** All messages of one sweep, group after group. */
  function SweepNotices(gs: seq<Group>, ugs: seq<UserGroup>, now: int): seq<Notice> {
    if gs == [] then []
    else
      var g := gs[|gs| - 1];
      SweepNotices(gs[..|gs| - 1], ugs, now) + ExpiryNotices(g.polls, g.name, Admins(ugs, g.id), now)
  }

  /**
   * One step of the reverse loop, which visits position `n - 1` when `n`
   * polls are still to be visited: that poll is kept or dropped, the rest as
   * before.
   */
  lemma LiveStep(ps: seq<Poll>, n: nat, now: int)
    requires 0 < n <= |ps|
    ensures Live(ps[n - 1..], now) == (if ps[n - 1].end > now then [ps[n - 1]] else []) + Live(ps[n..], now)
  {
    assert ps[n - 1..][0] == ps[n - 1];
    assert ps[n - 1..][1..] == ps[n..];
  }

  /** One step of the reverse loop: an expired poll at `n - 1` adds its messages after the later polls' ones. */
  lemma NoticesStep(ps: seq<Poll>, n: nat, groupName: string, admins: seq<UserGroup>, now: int)
    requires 0 < n <= |ps|
    ensures ExpiryNotices(ps[n - 1..], groupName, admins, now)
            == ExpiryNotices(ps[n..], groupName, admins, now)
               + (if ps[n - 1].end <= now then NoticesFor(ps[n - 1], groupName, admins) else [])
  {
    assert ps[n - 1..][0] == ps[n - 1];
    assert ps[n - 1..][1..] == ps[n..];
  }

  /**
   * The list the reverse loop works on: the `n` unvisited polls followed by
   * the survivors of the visited suffix. Visiting position `n - 1` splices the
   * poll out exactly when it has expired.
   */
  lemma KeptStep(ps: seq<Poll>, n: nat, kept: seq<Poll>, now: int)
    requires 0 < n <= |ps| && kept == ps[..n] + Live(ps[n..], now)
    ensures n <= |kept| && kept[n - 1] == ps[n - 1]
    ensures ps[n - 1].end <= now ==> kept[..n - 1] + kept[n..] == ps[..n - 1] + Live(ps[n - 1..], now)
    ensures ps[n - 1].end > now ==> kept == ps[..n - 1] + Live(ps[n - 1..], now)
  {
    var a, x, l := ps[..n - 1], ps[n - 1], Live(ps[n..], now);
    assert ps[..n] == a + [x];
    SpliceAt(a, x, l);
    LiveStep(ps, n, now);
  }

  /** Cutting `a + [x] + l` around position `|a|`. */
  lemma SpliceAt<T>(a: seq<T>, x: T, l: seq<T>)
    ensures (a + [x] + l)[|a|] == x
    ensures (a + [x] + l)[..|a|] + (a + [x] + l)[|a| + 1..] == a + l
    ensures a + [x] + l == a + ([x] + l)
  {
    var s := a + [x] + l;
    assert s[..|a|] == a;
    assert s[|a| + 1..] == l;
  }

  /** One step of the loop over groups: the messages of group `k` follow those of the groups before it. */
  lemma SweepNoticesStep(gs: seq<Group>, ugs: seq<UserGroup>, now: int, k: nat)
    requires k < |gs|
    ensures SweepNotices(gs[..k + 1], ugs, now)
            == SweepNotices(gs[..k], ugs, now) + ExpiryNotices(gs[k].polls, gs[k].name, Admins(ugs, gs[k].id), now)
  {
    assert gs[..k + 1][..k] == gs[..k];
    assert gs[..k + 1][k] == gs[k];
  }

  /** A sweep sends one message per admin row for each expired poll of the group. */
  lemma {:induction false} ExpiryNoticeCount(ps: seq<Poll>, groupName: string, admins: seq<UserGroup>, now: int)
    ensures |ExpiryNotices(ps, groupName, admins, now)| == |Expired(ps, now)| * |admins|
  {
    if ps != [] {
      ExpiryNoticeCount(ps[1..], groupName, admins, now);
      var e := |Expired(ps[1..], now)|;
      var n := |admins|;
      if ps[0].end <= now {
        assert Expired(ps, now) == [ps[0]] + Expired(ps[1..], now);
        assert |NoticesFor(ps[0], groupName, admins)| == n;
        assert (e + 1) * n == e * n + n;
      } else {
        assert Expired(ps, now) == Expired(ps[1..], now);
      }
    }
  }

  /** Every admin row of a group receives the results of every expired poll of that group. */
  lemma {:induction false} AdminNotified(gs: seq<Group>, ugs: seq<UserGroup>, now: int, k: nat, j: nat, a: UserGroup)
    requires k < |gs| && j < |gs[k].polls| && gs[k].polls[j].end <= now
    requires a in ugs && a.groupId == gs[k].id && a.role == Admin
    ensures Notice(a.userEmail, gs[k].polls[j], gs[k].name) in SweepNotices(gs, ugs, now)
  {
    var n := |gs| - 1;
    if k == n {
      var admins := Admins(ugs, gs[k].id);
      assert a in admins;
      ExpiredNoticed(gs[k].polls, gs[k].name, admins, now, j, a);
    } else {
      assert gs[..n][k] == gs[k];
      AdminNotified(gs[..n], ugs, now, k, j, a);
    }
  }

  lemma {:induction false} ExpiredNoticed(ps: seq<Poll>, groupName: string, admins: seq<UserGroup>, now: int, j: nat, a: UserGroup)
    requires j < |ps| && ps[j].end <= now && a in admins
    ensures Notice(a.userEmail, ps[j], groupName) in ExpiryNotices(ps, groupName, admins, now)
  {
    if j == 0 {
      NoticeForAdmin(ps[0], groupName, admins, a);
    } else {
      assert ps[1..][j - 1] == ps[j];
      ExpiredNoticed(ps[1..], groupName, admins, now, j - 1, a);
    }
  }

  lemma {:induction false} NoticeForAdmin(p: Poll, groupName: string, admins: seq<UserGroup>, a: UserGroup)
    requires a in admins
    ensures Notice(a.userEmail, p, groupName) in NoticesFor(p, groupName, admins)
  {
    var n := |admins| - 1;
    if admins[n] != a {
      assert a in admins[..n] by {
        var i :| 0 <= i < |admins| && admins[i] == a;
        assert admins[..n][i] == a;
      }
      NoticeForAdmin(p, groupName, admins[..n], a);
    }
  }
}
