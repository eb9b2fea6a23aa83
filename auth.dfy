/**
 * The verification-code store: a list of code records, each with an expiry
 * time, a budget of attempts and a counter of attempts made. Only the first
 * record of an email is ever looked at; deleting removes all of them.
 */
module Auth {
  import opened Wrappers
  import opened Seqs
  import opened Data

  /** A code is valid for 15 minutes. */
  const CodeLifetime: int := 15 * 60 * 1000

  /** A fresh code allows three attempts. */
  const InitialAttempts: int := 3

  /** Some record belongs to the email. */
  predicate HasCode(codes: seq<Code>, email: string) {
    exists i :: 0 <= i < |codes| && codes[i].email == email
  }

  /** Position `i` holds the first record of the email. */
  predicate IsFirst(codes: seq<Code>, email: string, i: int) {
    && 0 <= i < |codes|
    && codes[i].email == email
    && forall j :: 0 <= j < i ==> codes[j].email != email
  }

  /** `code.find(entry => entry.email === email)` as a position. */
  function FirstCode(codes: seq<Code>, email: string): (r: Option<nat>)
    ensures r.None? <==> !HasCode(codes, email)
    ensures r.Some? ==> IsFirst(codes, email, r.value)
    ensures forall i :: IsFirst(codes, email, i) ==> r == Some(i)
  {
    FirstIndex((c: Code) => c.email == email, codes)
  }

  /** The records of one email, in order. */
  function RecordsOf(codes: seq<Code>, email: string): seq<Code> {
    Filter((c: Code) => c.email == email, codes)
  }

  /** The table after `deleteVerificationCode`: every record of other emails, in order. */
  function Without(codes: seq<Code>, email: string): seq<Code> {
    Filter((c: Code) => c.email != email, codes)
  }

  /**
   * `deleteVerificationCode` removes every record of the email and keeps the
   * records of every other email, in their order.
   */
  lemma WithoutSpec(codes: seq<Code>, email: string, other: string)
    ensures !HasCode(Without(codes, email), email)
    ensures other != email ==> RecordsOf(Without(codes, email), other) == RecordsOf(codes, other)
  {
    if other != email {
      FilterFilter((c: Code) => c.email == other, (c: Code) => c.email != email, codes);
    }
  }

  /** `isTimeUpForCode`: true without a record, otherwise whether the first record has expired. */
  function IsTimeUpForCode(codes: seq<Code>, email: string, now: int): (b: bool)
    ensures !HasCode(codes, email) ==> b
    ensures forall i :: IsFirst(codes, email, i) ==> (b <==> codes[i].expiresAt <= now)
  {
    match FirstCode(codes, email)
    case None => true
    case Some(i) => codes[i].expiresAt <= now
  }

  /** `getAttempts`: the attempts counter of the first record, or None. */
  function GetAttempts(codes: seq<Code>, email: string): (r: Option<int>)
    ensures r.None? <==> !HasCode(codes, email)
    ensures forall i :: IsFirst(codes, email, i) ==> r == Some(codes[i].alreadyAttempted)
  {
    match FirstCode(codes, email)
    case None => None
    case Some(i) => Some(codes[i].alreadyAttempted)
  }

  /** `getVerificationCode`: the code of the first record, or None. */
  function GetVerificationCode(codes: seq<Code>, email: string): (r: Option<string>)
    ensures r.None? <==> !HasCode(codes, email)
    ensures forall i :: IsFirst(codes, email, i) ==> r == Some(codes[i].code)
  {
    match FirstCode(codes, email)
    case None => None
    case Some(i) => Some(codes[i].code)
  }

  /** The table after `incrementAttempt`: the first record's attempt counter is one higher. */
  function Incremented(codes: seq<Code>, email: string): (r: seq<Code>)
    ensures |r| == |codes|
  {
    match FirstCode(codes, email)
    case None => codes
    case Some(i) => codes[i := codes[i].(alreadyAttempted := codes[i].alreadyAttempted + 1)]
  }

  /** `incrementAttempt` and `getAttempts` agree: the counter rises by one, or nothing happens. */
  lemma IncrementedAttempts(codes: seq<Code>, email: string)
    ensures GetAttempts(codes, email).None? ==> Incremented(codes, email) == codes
    ensures GetAttempts(codes, email).Some? ==>
              GetAttempts(Incremented(codes, email), email) == Some(GetAttempts(codes, email).value + 1)
  {
    var f := FirstCode(codes, email);
    if f.Some? {
      var i := f.value;
      var r := Incremented(codes, email);
      assert r == codes[i := codes[i].(alreadyAttempted := codes[i].alreadyAttempted + 1)];
      assert IsFirst(r, email, i) by {
        forall j | 0 <= j < i ensures r[j].email != email {
          assert r[j] == codes[j];
        }
      }
      assert GetAttempts(r, email) == Some(r[i].alreadyAttempted);
    }
  }

  /** What `validateCode` answers and the table it leaves. */
  datatype Outcome = Outcome(ok: bool, codes: seq<Code>)

  /**
   * `validateCode`: a missing or expired code deletes the email's records and
   * fails; a first record with the given code, still live and with attempts
   * left, succeeds and deletes the records; anything else costs the first
   * record one attempt.
   */
  function Validate(codes: seq<Code>, email: string, code: string, now: int): Outcome {
    if IsTimeUpForCode(codes, email, now) then Outcome(false, Without(codes, email))
    else
      match FirstCode(codes, email)
      case None => Outcome(false, codes)
      case Some(i) =>
        var r := codes[i];
        if r.code == code && r.expiresAt > now && r.attempts > 0 then Outcome(true, Without(codes, email))
        else Outcome(false, codes[i := r.(attempts := r.attempts - 1)])
  }

  /** A missing or expired code is refused and every record of the email is deleted. */
  lemma ValidateTimeUp(codes: seq<Code>, email: string, code: string, now: int)
    requires !HasCode(codes, email) || exists i :: IsFirst(codes, email, i) && codes[i].expiresAt <= now
    ensures Validate(codes, email, code, now) == Outcome(false, Without(codes, email))
  {
  }

  /**
   * A code is accepted exactly when the first record of the email carries it,
   * is still live and has attempts left; acceptance deletes the email's records.
   */
  lemma ValidateAccepts(codes: seq<Code>, email: string, code: string, now: int)
    ensures Validate(codes, email, code, now).ok <==>
              exists i :: IsFirst(codes, email, i) && codes[i].code == code && codes[i].expiresAt > now && codes[i].attempts > 0
    ensures Validate(codes, email, code, now).ok ==> Validate(codes, email, code, now).codes == Without(codes, email)
  {
    var f := FirstCode(codes, email);
    if f.Some? {
      assert IsFirst(codes, email, f.value);
    }
  }

  /** A refused code on a live record costs that record exactly one attempt and changes nothing else. */
  lemma ValidateFailureCostsAttempt(codes: seq<Code>, email: string, code: string, now: int, i: nat)
    requires IsFirst(codes, email, i) && codes[i].expiresAt > now
    requires !Validate(codes, email, code, now).ok
    ensures Validate(codes, email, code, now).codes == codes[i := codes[i].(attempts := codes[i].attempts - 1)]
  {
  }

  /** Once the first record has no attempts left, even its own code is refused. */
  lemma ExhaustedRejects(codes: seq<Code>, email: string, code: string, now: int, i: nat)
    requires IsFirst(codes, email, i) && codes[i].attempts <= 0
    ensures !Validate(codes, email, code, now).ok
  {
    ValidateAccepts(codes, email, code, now);
  }

  /** A code is good for one login only: after acceptance every further attempt fails. */
  lemma ValidateOneTime(codes: seq<Code>, email: string, code: string, now: int, code2: string, later: int)
    requires Validate(codes, email, code, now).ok
    ensures !Validate(Validate(codes, email, code, now).codes, email, code2, later).ok
  {
    ValidateAccepts(codes, email, code, now);
    WithoutSpec(codes, email, email);
  }

  /** `validateCode` never reads the attempt counter that `incrementAttempt` raises. */
  lemma ValidateIgnoresIncrement(codes: seq<Code>, email: string, other: string, code: string, now: int)
    ensures Validate(Incremented(codes, other), email, code, now).ok == Validate(codes, email, code, now).ok
  {
    var r := Incremented(codes, other);
    assert forall j :: 0 <= j < |codes| ==>
      r[j].email == codes[j].email && r[j].code == codes[j].code &&
      r[j].expiresAt == codes[j].expiresAt && r[j].attempts == codes[j].attempts;
    assert HasCode(r, email) <==> HasCode(codes, email);
    var f := FirstCode(codes, email);
    if f.Some? {
      assert IsFirst(r, email, f.value);
    }
  }

  /**
   * A later code does not replace an earlier live one: the first record still
   * decides, so a new code differing from it is refused.
   */
  lemma NewerCodeShadowed(codes: seq<Code>, email: string, newCode: string, issued: int, now: int, i: nat)
    requires IsFirst(codes, email, i) && codes[i].code != newCode
    ensures !Validate(codes + [Code(email, newCode, issued + CodeLifetime, InitialAttempts, 0)], email, newCode, now).ok
  {
    var s := codes + [Code(email, newCode, issued + CodeLifetime, InitialAttempts, 0)];
    assert IsFirst(s, email, i);
    ValidateAccepts(s, email, newCode, now);
  }

  /** At most `k` attempts remain for `code`: no record left, or a first record with that code and budget. */
  predicate Budget(codes: seq<Code>, email: string, code: string, k: int) {
    !HasCode(codes, email) || exists i :: 0 <= i < |codes| && IsFirst(codes, email, i) && codes[i].code == code && codes[i].attempts <= k
  }

  /** A wrong guess uses up one attempt of the budget (or the records are gone). */
  lemma WrongGuess(codes: seq<Code>, email: string, code: string, guess: string, now: int, k: int)
    requires Budget(codes, email, code, k) && guess != code
    ensures Budget(Validate(codes, email, guess, now).codes, email, code, k - 1)
  {
    var out := Validate(codes, email, guess, now);
    if HasCode(codes, email) {
      var i :| IsFirst(codes, email, i) && codes[i].code == code && codes[i].attempts <= k;
      if IsTimeUpForCode(codes, email, now) {
        WithoutSpec(codes, email, email);
      } else {
        assert IsFirst(out.codes, email, i);
      }
    }
  }

  /** With no attempts left, the code is refused. */
  lemma BudgetSpent(codes: seq<Code>, email: string, code: string, now: int)
    requires Budget(codes, email, code, 0)
    ensures !Validate(codes, email, code, now).ok
  {
    ValidateAccepts(codes, email, code, now);
  }

  /**
   * Three wrong guesses after a code is issued to an email without older
   * records exhaust it: the right code is refused afterwards.
   */
  lemma ThreeStrikes(codes: seq<Code>, email: string, code: string, issued: int,
                     g1: string, g2: string, g3: string, t1: int, t2: int, t3: int, t4: int)
    requires !HasCode(codes, email)
    requires g1 != code && g2 != code && g3 != code
    ensures var s0 := codes + [Code(email, code, issued + CodeLifetime, InitialAttempts, 0)];
            var s1 := Validate(s0, email, g1, t1).codes;
            var s2 := Validate(s1, email, g2, t2).codes;
            var s3 := Validate(s2, email, g3, t3).codes;
            !Validate(s3, email, code, t4).ok
  {
    var s0 := codes + [Code(email, code, issued + CodeLifetime, InitialAttempts, 0)];
    assert IsFirst(s0, email, |codes|);
    assert Budget(s0, email, code, 3);
    var s1 := Validate(s0, email, g1, t1).codes;
    WrongGuess(s0, email, code, g1, t1, 3);
    var s2 := Validate(s1, email, g2, t2).codes;
    WrongGuess(s1, email, code, g2, t2, 2);
    var s3 := Validate(s2, email, g3, t3).codes;
    WrongGuess(s2, email, code, g3, t3, 1);
    BudgetSpent(s3, email, code, t4);
  }

  /** The code store; `codes` is the stored list of records. */
  class CodeStore {
    var codes: seq<Code>

    /** An empty store. */
    constructor ()
      ensures codes == []
    {
      codes := [];
    }

    /**
     * `saveVerificationCode`: a record valid for 15 minutes with three attempts
     * is appended; earlier records of the email stay.
     */
    method SaveVerificationCode(email: string, code: string, now: int)
      modifies this
      ensures codes == old(codes) + [Code(email, code, now + CodeLifetime, InitialAttempts, 0)]
    {
      codes := codes + [Code(email, code, now + CodeLifetime, InitialAttempts, 0)];
    }

    /** `deleteVerificationCode`: the list is replaced by its records of other emails. */
    method DeleteVerificationCode(email: string)
      modifies this
      ensures codes == Without(old(codes), email)
    {
      codes := Without(codes, email);
    }

    /** `incrementAttempt`: the first record of the email, if any, counts one more attempt. */
    method IncrementAttempt(email: string)
      modifies this
      ensures codes == Incremented(old(codes), email)
    {
      var i := FirstCode(codes, email);
      if i.Some? {
        var r := codes[i.value];
        codes := codes[i.value := r.(alreadyAttempted := r.alreadyAttempted + 1)];
      }
    }

    /** `validateCode`: the answer and the new list are those of `Validate`. */
    method ValidateCode(email: string, code: string, now: int) returns (ok: bool)
      modifies this
      ensures Outcome(ok, codes) == Validate(old(codes), email, code, now)
    {
      if IsTimeUpForCode(codes, email, now) {
        DeleteVerificationCode(email);
        return false;
      }
      var i := FirstCode(codes, email);
      if i.Some? {
        var r := codes[i.value];
        if r.code == code && r.expiresAt > now && r.attempts > 0 {
          DeleteVerificationCode(email);
          return true;
        } else {
          codes := codes[i.value := r.(attempts := r.attempts - 1)];
          return false;
        }
      }
      return false;
    }
  }
}
