/**
 * The main store as an object: the three tables are fields that every
 * operation updates in place, and the store invariant `Valid` (unique group
 * and poll ids, consistent counters in every poll) holds after each of them.
 * Each operation is tied to the table specification of the same name in
 * `Tables`, where its properties are proved.
 */
module Db {
  import opened Wrappers
  import opened Seqs
  import opened Data
  import opened Polls
  import opened Results
  import opened Tables

  /** The results messages for one expired poll: one per admin row, in the rows' order. */
  method NotifyAdmins(p: Poll, groupName: string, admins: seq<UserGroup>) returns (sent: seq<Notice>)
    ensures sent == NoticesFor(p, groupName, admins)
  {
    sent := [];
    var a := 0;
    while a < |admins|
      invariant 0 <= a <= |admins|
      invariant sent == NoticesFor(p, groupName, admins[..a])
    {
      assert admins[..a + 1][..a] == admins[..a];
      sent := sent + [Notice(admins[a].userEmail, p, groupName)];
      a := a + 1;
    }
    assert admins[..a] == admins;
  }

  /**
   * One group's part of the sweep: the polls are visited from the last to the
   * first, and each expired one is reported to the group's admins and spliced
   * out, so the positions still to be visited stay valid. `n` counts the polls
   * not yet visited; the next one visited is at `n - 1`.
   */
  method SweepPolls(g: Group, ugs: seq<UserGroup>, now: int) returns (kept: seq<Poll>, sent: seq<Notice>)
    ensures kept == Live(g.polls, now)
    ensures sent == ExpiryNotices(g.polls, g.name, Admins(ugs, g.id), now)
  {
    var ps, admins := g.polls, Admins(ugs, g.id);
    kept, sent := ps, [];
    var n := |ps|;
    assert ps[..n] == ps;
    while n > 0
      invariant 0 <= n <= |ps|
      invariant kept == ps[..n] + Live(ps[n..], now)
      invariant sent == ExpiryNotices(ps[n..], g.name, admins, now)
    {
      KeptStep(ps, n, kept, now);
      NoticesStep(ps, n, g.name, admins, now);
      var p := kept[n - 1];
      if p.end <= now {
        var msgs := NotifyAdmins(p, g.name, admins);
        sent := sent + msgs;
        kept := kept[..n - 1] + kept[n..];
      }
      n := n - 1;
    }
    assert ps[0..] == ps;
  }

  /** The main store: users, groups with their polls, and membership rows. */
  class Database {
    var users: seq<User>
    var groups: seq<Group>
    var userGroups: seq<UserGroup>

    /** The store invariant over the groups table. */
    ghost predicate Valid()
      reads this
    {
      WellFormed(groups)
    }

    /** A fresh store has three empty tables. */
    constructor ()
      ensures users == [] && groups == [] && userGroups == []
      ensures Valid()
    {
      users := [];
      groups := [];
      userGroups := [];
    }

    /** `addUser`: the record is appended as given; no uniqueness check is made here. */
    method AddUser(u: User)
      requires Valid()
      modifies this
      ensures users == old(users) + [u]
      ensures groups == old(groups) && userGroups == old(userGroups)
      ensures Valid()
    {
      users := users + [u];
    }

    /**
     * `addGroup`: the new group takes the next id (one above the largest, or 1)
     * and starts without polls; the id is returned.
     */
    method AddGroup(name: string, description: string, lastUse: int) returns (id: int)
      requires Valid()
      modifies this
      ensures id == NextId(GroupIds(old(groups)))
      ensures forall i :: 0 <= i < |old(groups)| ==> old(groups)[i].id < id
      ensures groups == old(groups) + [Group(id, name, description, lastUse, [])]
      ensures users == old(users) && userGroups == old(userGroups)
      ensures Valid()
    {
      id := NextId(GroupIds(groups));
      var g := Group(id, name, description, lastUse, []);
      AddGroupWellFormed(groups, g);
      groups := groups + [g];
    }

    /** `addUserToGroup`: one membership row is appended. */
    method AddUserToGroup(email: string, gid: int, role: Role)
      requires Valid()
      modifies this
      ensures userGroups == old(userGroups) + [UserGroup(email, gid, role)]
      ensures users == old(users) && groups == old(groups)
      ensures Valid()
    {
      userGroups := userGroups + [UserGroup(email, gid, role)];
    }

    /**
     * `addPollToGroup`: the id is one above the largest poll id of all groups
     * (or 1); the new poll, with no options and no voters, is appended to the
     * first group with id `gid`, or nowhere. The id is returned either way.
     */
    method AddPollToGroup(title: string, end: int, gid: int) returns (id: int)
      requires Valid()
      modifies this
      ensures id == NextId(PollIds(old(groups)))
      ensures groups == AttachPoll(old(groups), gid, NewPoll(id, title, end))
      ensures users == old(users) && userGroups == old(userGroups)
      ensures Valid()
    {
      id := NextId(PollIds(groups));
      var p := NewPoll(id, title, end);
      AttachPollWellFormed(groups, gid, p);
      groups := AttachPoll(groups, gid, p);
    }

    /** The loop shared by the poll operations: group by group, the first poll with the id. */
    method LocatePoll(id: int) returns (loc: Option<(nat, nat)>)
      ensures loc == FindPoll(groups, id)
    {
      var k := 0;
      while k < |groups|
        invariant 0 <= k <= |groups|
        invariant forall m :: 0 <= m < k ==> !HasPoll(groups[m], id)
      {
        var j := FirstIndex((p: Poll) => p.id == id, groups[k].polls);
        if j.Some? {
          FindPollAt(groups, id, k, j.value);
          return Some((k, j.value));
        }
        k := k + 1;
      }
      return None;
    }

    /** `getPollById`: the poll with that id, or None. */
    method GetPollById(id: int) returns (r: Option<Poll>)
      ensures r == PollById(groups, id)
    {
      var loc := LocatePoll(id);
      if loc.Some? {
        r := Some(groups[loc.value.0].polls[loc.value.1]);
      } else {
        r := None;
      }
    }

    /**
     * `addOptionToPoll`: `found` is false for the "Poll not found" error, which
     * leaves the store unchanged; otherwise the store is the one `AddOption`
     * describes (an existing option name changes nothing).
     */
    method AddOptionToPoll(pollId: int, name: string, description: Option<string>) returns (found: bool)
      requires Valid()
      modifies this
      ensures found <==> AddOption(old(groups), pollId, name, description).Some?
      ensures found ==> groups == AddOption(old(groups), pollId, name, description).value
      ensures !found ==> groups == old(groups)
      ensures users == old(users) && userGroups == old(userGroups)
      ensures Valid()
    {
      var loc := LocatePoll(pollId);
      if loc.None? {
        return false;
      }
      var k, j := loc.value.0, loc.value.1;
      AddOptionWellFormed(groups, pollId, name, description);
      groups := ReplacePoll(groups, k, j, WithOption(groups[k].polls[j], name, description));
      found := true;
    }

    /**
     * `addVoteToPollOption`: the guards are checked in the source's order and
     * the first failing one returns without a change; otherwise the three
     * counters of the poll are updated. The result is `CastVote`.
     */
    method AddVoteToPollOption(email: string, pollId: int, optionName: string, now: int)
      requires Valid()
      modifies this
      ensures groups == CastVote(old(groups), userGroups, email, pollId, optionName, now)
      ensures users == old(users) && userGroups == old(userGroups)
      ensures Valid()
    {
      CastVoteWellFormed(groups, userGroups, email, pollId, optionName, now);
      var loc := LocatePoll(pollId);
      if loc.None? {
        return;
      }
      var k, j := loc.value.0, loc.value.1;
      var g := groups[k];
      var row := FirstIndex((ug: UserGroup) => ug.userEmail == email && ug.groupId == g.id, userGroups);
      if row.None? {
        assert !IsMember(userGroups, email, g.id);
        return;
      }
      assert IsMember(userGroups, email, g.id);
      var p := g.polls[j];
      if p.end <= now {
        return;
      }
      if email in p.alreadyVoted {
        return;
      }
      var i := OptionIndex(p.options, optionName);
      if i.None? {
        return;
      }
      groups := ReplacePoll(groups, k, j, Voted(p, i.value, email));
    }

    /**
     * `checkPollDates`: every group loses its polls whose end is not after
     * `now`; `outbox` holds, in sending order, one results message per admin
     * row of the group for each removed poll.
     */
    method CheckPollDates(now: int) returns (outbox: seq<Notice>)
      requires Valid()
      modifies this
      ensures groups == Swept(old(groups), now)
      ensures outbox == SweepNotices(old(groups), userGroups, now)
      ensures users == old(users) && userGroups == old(userGroups)
      ensures Valid()
    {
      ghost var gs := groups;
      SweptWellFormed(gs, now);
      outbox := [];
      var k := 0;
      while k < |groups|
        invariant 0 <= k <= |groups| == |gs|
        invariant users == old(users) && userGroups == old(userGroups)
        invariant forall m :: 0 <= m < k ==> groups[m] == gs[m].(polls := Live(gs[m].polls, now))
        invariant forall m :: k <= m < |groups| ==> groups[m] == gs[m]
        invariant outbox == SweepNotices(gs[..k], userGroups, now)
      {
        var g := groups[k];
        var kept, sent := SweepPolls(g, userGroups, now);
        SweepNoticesStep(gs, userGroups, now, k);
        groups := groups[k := g.(polls := kept)];
        outbox := outbox + sent;
        k := k + 1;
      }
      assert gs[..k] == gs;
      assert groups == Swept(gs, now);
    }
  }
}
