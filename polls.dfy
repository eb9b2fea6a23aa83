/**
 * One poll on its own: its counting invariant, option addition and the
 * counter updates of a successful vote.
 */
module Polls {
  import opened Wrappers
  import opened Seqs
  import opened Data

  /** The sum of the options' vote counters. */
  function SumVotes(os: seq<PollOption>): nat {
    if os == [] then 0 else os[0].votes + SumVotes(os[1..])
  }

  /** No two options share a name. */
  predicate OptionNamesUnique(os: seq<PollOption>) {
    forall i, j :: 0 <= i < j < |os| ==> os[i].optionName != os[j].optionName
  }

  /**
   * The poll invariant: the total counter equals the sum of the option counters
   * and the number of recorded voters, nobody is recorded twice, and option
   * names are distinct.
   */
  predicate Consistent(p: Poll) {
    && p.votes == SumVotes(p.options)
    && p.votes == |p.alreadyVoted|
    && NoDuplicates(p.alreadyVoted)
    && OptionNamesUnique(p.options)
  }

  /** A poll as it is first stored: no options, no voters, zero votes. */
  function NewPoll(id: int, title: string, end: int): (p: Poll)
    ensures Consistent(p)
    ensures p.id == id && p.title == title && p.end == end
    ensures p.votes == 0 && p.options == [] && p.alreadyVoted == []
  {
    Poll(id, 0, [], [], end, title)
  }

  /** Appending an option adds its counter to the sum. */
  lemma {:induction false} SumVotesAppend(os: seq<PollOption>, o: PollOption)
    ensures SumVotes(os + [o]) == SumVotes(os) + o.votes
  {
    if os == [] {
      assert os + [o] == [o];
    } else {
      assert (os + [o])[1..] == os[1..] + [o];
      SumVotesAppend(os[1..], o);
    }
  }

  /** Raising one option's counter by one raises the sum by one. */
  lemma {:induction false} SumVotesBump(os: seq<PollOption>, i: nat)
    requires i < |os|
    ensures SumVotes(os[i := os[i].(votes := os[i].votes + 1)]) == SumVotes(os) + 1
  {
    var bumped := os[i := os[i].(votes := os[i].votes + 1)];
    if i == 0 {
      assert bumped[1..] == os[1..];
    } else {
      assert bumped[1..] == os[1..][i - 1 := os[i].(votes := os[i].votes + 1)];
      SumVotesBump(os[1..], i - 1);
    }
  }

  /**
   * Option addition on a found poll: when an option of that name exists
   * nothing changes; otherwise the option is appended with zero votes.
   */
  function WithOption(p: Poll, name: string, description: Option<string>): (q: Poll)
    ensures (exists i :: 0 <= i < |p.options| && p.options[i].optionName == name) ==> q == p
    ensures (forall i :: 0 <= i < |p.options| ==> p.options[i].optionName != name) ==>
              q == p.(options := p.options + [PollOption(name, 0, description)])
  {
    var existing := Filter((o: PollOption) => o.optionName == name, p.options);
    if |existing| > 0 then
      assert existing[0] in p.options && existing[0].optionName == name;
      p
    else p.(options := p.options + [PollOption(name, 0, description)])
  }

  /** Adding the same option name twice has the effect of adding it once. */
  lemma OptionAddIdempotent(p: Poll, name: string, d1: Option<string>, d2: Option<string>)
    ensures WithOption(WithOption(p, name, d1), name, d2) == WithOption(p, name, d1)
  {
    var q := WithOption(p, name, d1);
    if forall i :: 0 <= i < |p.options| ==> p.options[i].optionName != name {
      assert q.options[|p.options|].optionName == name;
    }
  }

  /** Option addition keeps the poll invariant and never touches any counter or voter. */
  lemma OptionAddConsistent(p: Poll, name: string, description: Option<string>)
    requires Consistent(p)
    ensures Consistent(WithOption(p, name, description))
    ensures WithOption(p, name, description).votes == p.votes
    ensures WithOption(p, name, description).alreadyVoted == p.alreadyVoted
  {
    if forall i :: 0 <= i < |p.options| ==> p.options[i].optionName != name {
      SumVotesAppend(p.options, PollOption(name, 0, description));
    }
  }

  /**
   * The three coupled updates of an accepted vote: the voter's email is
   * appended, the chosen option's counter and the poll's counter rise by one.
   */
  function Voted(p: Poll, i: nat, email: string): (q: Poll)
    requires i < |p.options|
    ensures |q.options| == |p.options|
  {
    var o := p.options[i];
    p.(alreadyVoted := p.alreadyVoted + [email],
       options := p.options[i := o.(votes := o.votes + 1)],
       votes := p.votes + 1)
  }

  /** A vote by someone who has not voted yet keeps the poll invariant. */
  lemma VotedConsistent(p: Poll, i: nat, email: string)
    requires Consistent(p) && i < |p.options|
    requires email !in p.alreadyVoted
    ensures Consistent(Voted(p, i, email))
  {
    SumVotesBump(p.options, i);
    var q := Voted(p, i, email);
    forall a, b | 0 <= a < b < |q.alreadyVoted| ensures q.alreadyVoted[a] != q.alreadyVoted[b] {
      if b == |p.alreadyVoted| {
        assert q.alreadyVoted[a] == p.alreadyVoted[a];
      }
    }
  }
}
