# Votify back end in Dafny

Votify is a group-voting web application. Its server keeps three tables in
one store:

- users;
- groups, each group embedding its list of active polls;
- membership rows linking a user email to a group with the role "admin" or
  "member".

Logged-in members create groups, join them, create polls, add options and
vote. A periodic check removes polls whose end time has passed, and mails
each admin of the group the results. Logging in is by a one-time code sent by
mail: the code store keeps codes with an expiry and a three-attempt budget.
A successful login stores a 64-character session token valid for 24 hours.

This project models that core as one sequential state machine and proves its
invariants:

- `data.dfy`: the record types.
- `seqs.dfy`: the JavaScript array built-ins the code relies on (`filter`,
  `find`, `some`, `Math.max`).
- `polls.dfy`: one poll. Its counting invariant is: the total vote counter
  equals the sum of the option counters and the number of recorded voters,
  and nobody is recorded twice.
- `results.dfy`: the results mail of an expired poll.
- `tables.dfy`: the store's tables as values. It holds:
  - the read-only queries;
  - the store invariant: unique group ids, unique poll ids across all groups,
    and consistent polls;
  - a specification function for each change, with its lemmas.
- `db.dfy`: the store as a `Database` class whose methods update the tables
  in place. It includes the reverse splice loop of the expiry check.
- `auth.dfy`: the verification-code store, as a `CodeStore` class plus the
  lookups.
- `cookies.dfy`: the session store, as a `SessionStore` class plus the
  lookups and the token generator.
- `routes.dfy`: the request handlers that change state. This covers the
  session check, the input checks with their status codes, and the calls
  into the stores. It also covers the server invariant the handlers keep on
  top of the store's own: no duplicate membership rows, and every row names
  an existing group.

Time is an integer number of milliseconds, given as a `now` parameter. A
poll's ISO end date is modelled as such an integer.

The login handler's unknown-user guard (`routes.ts:32`) negates a pending
promise instead of its result. The guard is therefore always false, and
login never refuses an unknown email. `Routes.Login` models this as written.

## Model

| member | source | states |
|---|---|---|
| Data.RoleName | Votify/server/src/types/Data.ts:3 | a role's stored spelling reads back as the same role |
| Data.ParseRole | Votify/server/src/types/Data.ts:3 | a stored role is exactly "admin" or "member" |
| Seqs.NextId | Votify/server/dist/models/db.js:142 | the max-plus-one id rule: 1 for an empty table; otherwise larger than every existing id, so never one of them, and one above the largest |
| Polls.NewPoll | Votify/server/dist/models/db.js:190 | a newly stored poll has zero votes, no options and no voters, and satisfies the counting invariant |
| Polls.WithOption | Votify/server/dist/models/db.js:224-228 | an existing option name leaves the poll unchanged; otherwise the option is appended with zero votes |
| Polls.OptionAddIdempotent | Votify/server/dist/models/db.js:224-228 | adding the same option name twice has the effect of adding it once |
| Polls.OptionAddConsistent | Votify/server/dist/models/db.js:224-228 | option addition keeps the counting invariant and touches no counter or voter |
| Polls.VotedConsistent | Votify/server/dist/models/db.js:285-294 | a vote by someone not yet recorded keeps total = sum of options = number of voters, with no duplicate voter |
| Polls.SumVotesBump | Votify/server/dist/models/db.js:293 | raising one option's counter by one raises the sum of counters by one |
| Results.NatToString | Votify/server/dist/models/db.js:349-351 | a counter renders as a non-empty string of decimal digits, with no leading zero |
| Results.NatToStringRoundTrip | Votify/server/dist/models/db.js:349-351 | a rendered counter parses back to the same number, so the results text reports counts exactly |
| Results.BuildResultsText | Votify/server/dist/models/db.js:347-351 | the loop builds the results text: the heading, one line per option in order, then the total |
| Results.ComposeResultsMail | Votify/server/dist/models/db.js:332-356 | a results mail goes to the notified admin, with subject "Poll Results: <title>" and the results text, which starts with the heading |
| Tables.UserExists | Votify/server/dist/models/db.js:102-105 | true exactly when some user record has the email |
| Tables.MemberIffInRows | Votify/server/dist/models/db.js:117-121 | a group passes the filter on the email's rows exactly when the email has a membership row for it |
| Tables.GetUserInfoSpec | Votify/server/dist/models/db.js:111-126 | None exactly for an unknown email; otherwise exactly the table's groups that have a membership row for the email |
| Tables.UserInfoShowsMembership | Votify/server/src/routes/routes.ts:352-353 | for a known user and an existing group, the join handler's test on the user info holds exactly when the user is already a member |
| Tables.FindPoll | Votify/server/dist/models/db.js:206-211 | the search returns the first group holding the id and the first matching poll in it; None exactly when no group holds the id |
| Tables.FindPollAt | Votify/server/dist/models/db.js:206-211 | a poll with no match before it, in its group or in earlier groups, is where the search stops |
| Tables.PollById | Votify/server/dist/models/db.js:204-213 | the poll returned has the id and belongs to some group; None exactly when no group holds the id |
| Tables.PollsForGroup | Votify/server/dist/models/db.js:302-306 | no group with the id gives no polls; with unique group ids it gives that group's polls |
| Tables.GetGroupInfo | Votify/server/dist/models/db.js:312-319 | None exactly for an unknown group id; otherwise the id, name and description of the first group with that id, and as member count the number of membership rows naming the id |
| Tables.RowsForCount | Votify/server/dist/models/db.js:317 | the number of rows naming a group equals the occurrences of its id among the rows' group ids |
| Tables.GetGroupPublicInfo | Votify/server/dist/models/db.js:325-331 | None exactly for an unknown group id; otherwise the id, name and description of the first group with that id |
| Tables.PollsForUserSpec | Votify/server/dist/models/db.js:240-253 | every entry is a poll of a group the email has a row for, labelled with that group's name; with unique group ids, every poll of every such group is listed |
| Tables.PollIdListed | Votify/server/dist/models/db.js:188-189 | every stored poll's id is among the flattened ids the poll-id allocation reads |
| Tables.PollIdsSplit | Votify/server/dist/models/db.js:188 | the flattened poll ids split around any one group |
| Tables.AddGroupWellFormed | Votify/server/dist/models/db.js:142-144 | a group appended with the next id and no polls keeps the store invariant, and its id exceeds every existing one |
| Tables.AttachPollWellFormed | Votify/server/dist/models/db.js:188-195 | appending a consistent poll with a fresh id keeps the store invariant |
| Tables.AppendPollIds | Votify/server/dist/models/db.js:189-195 | appending a poll with a fresh id to one group keeps poll ids unique |
| Tables.AttachPollFound | Votify/server/dist/models/db.js:191-197 | a created poll is then found by its id; with no group of that id nothing changes |
| Tables.ReplacePollWellFormed | Votify/server/dist/models/db.js:228 | replacing a poll by a consistent one with the same id keeps the store invariant |
| Tables.FindPollByIds | Votify/server/dist/models/db.js:206-211 | where a poll is found depends only on the poll ids of each group |
| Tables.FindPollReplace | Votify/server/dist/models/db.js:221-223 | replacing a poll by one with the same id does not change where any id is found |
| Tables.AddOptionWellFormed | Votify/server/dist/models/db.js:219-234 | option addition fails ("Poll not found") exactly for an unknown poll id, and keeps the store invariant |
| Tables.AddOptionIdempotent | Votify/server/dist/models/db.js:224-227 | adding an option name a second time leaves the store unchanged |
| Tables.CastVoteChangesIffAccepted | Votify/server/dist/models/db.js:261-291 | a vote changes the store exactly when all five guards hold: the poll exists, the voter is a member of its group, it has not ended, the voter has not voted, and the option exists |
| Tables.CastVoteEffect | Votify/server/dist/models/db.js:292-294 | an accepted vote appends the voter once and raises the option's and the poll's counters by one; nothing else in the store changes |
| Tables.CastVoteWellFormed | Votify/server/dist/models/db.js:261-296 | vote casting keeps the store invariant |
| Tables.SecondVoteIgnored | Votify/server/dist/models/db.js:285-287 | after an accepted vote, any further vote by the same email on that poll changes nothing |
| Tables.SweptRemovesExpired | Votify/server/dist/models/db.js:375-391 | the sweep removes exactly the polls with end <= now from every group, keeps the survivors in order, and leaves every other field |
| Tables.SweptIdempotent | Votify/server/dist/models/db.js:375-391 | sweeping twice at the same time equals sweeping once |
| Tables.SweptPollIdsSub | Votify/server/dist/models/db.js:389 | the sweep only removes poll ids, never adds any |
| Tables.SweptWellFormed | Votify/server/dist/models/db.js:375-391 | the sweep keeps the store invariant |
| Tables.NoticesFor | Votify/server/dist/models/db.js:385-387 | one results message per admin row |
| Tables.LiveStep | Votify/server/dist/models/db.js:377-390 | visiting position n-1 in the reverse loop keeps or drops that poll and leaves the already visited survivors |
| Tables.KeptStep | Votify/server/dist/models/db.js:389 | splicing out position n-1 leaves the unvisited prefix followed by the survivors of the visited suffix |
| Tables.SweepNoticesStep | Votify/server/dist/models/db.js:375-376 | the messages for a group follow those for the groups before it |
| Tables.ExpiryNoticeCount | Votify/server/dist/models/db.js:382-387 | a group sends (number of expired polls) x (number of admin rows) messages |
| Tables.AdminNotified | Votify/server/dist/models/db.js:383-387 | every admin row of a group receives the results of every expired poll of that group |
| Tables.ExpiredNoticed | Votify/server/dist/models/db.js:382-387 | within a group, every expired poll is reported to every admin row |
| Tables.NoticeForAdmin | Votify/server/dist/models/db.js:385-387 | every admin row receives the message about the poll |
| Db.NotifyAdmins | Votify/server/dist/models/db.js:383-387 | the admin loop sends one message per admin row, in the rows' order |
| Db.SweepPolls | Votify/server/dist/models/db.js:377-391 | the reverse splice loop leaves exactly the live polls in order, and emits the expected messages in visiting order |
| Db.Database.constructor | Votify/server/dist/models/db.js:34-41 | a fresh store has three empty tables and satisfies the invariant |
| Db.Database.AddUser | Votify/server/dist/models/db.js:85-90 | the user record is appended as given; the other tables are unchanged |
| Db.Database.AddGroup | Votify/server/dist/models/db.js:139-147 | the new group takes the next id, above every existing id, and starts with no polls; the id is returned and the invariant kept |
| Db.Database.AddUserToGroup | Votify/server/dist/models/db.js:163-169 | exactly one membership row is appended |
| Db.Database.AddPollToGroup | Votify/server/dist/models/db.js:184-198 | the id is one above every poll id; the new poll goes to the first group with the id, or nowhere; the id is returned either way and the invariant kept |
| Db.Database.LocatePoll | Votify/server/dist/models/db.js:206-211 | the group-by-group loop finds what `FindPoll` specifies |
| Db.Database.GetPollById | Votify/server/dist/models/db.js:204-213 | returns the poll `PollById` specifies |
| Db.Database.AddOptionToPoll | Votify/server/dist/models/db.js:219-234 | reports "not found" exactly for an unknown poll id, then changes nothing; otherwise the store becomes `AddOption`'s and keeps the invariant |
| Db.Database.AddVoteToPollOption | Votify/server/dist/models/db.js:261-296 | the store becomes `CastVote`'s, and keeps the invariant |
| Db.Database.CheckPollDates | Votify/server/dist/models/db.js:371-395 | every group keeps exactly its live polls; the outbox holds every results message in sending order; the invariant is kept |
| Auth.FirstCode | Votify/server/src/auth.ts:62 | the position of the email's first code record; None exactly when it has none |
| Auth.WithoutSpec | Votify/server/src/auth.ts:47-55 | deleting removes every record of the email and keeps every other email's records in order |
| Auth.IsTimeUpForCode | Votify/server/src/auth.ts:108-117 | true with no record; otherwise true exactly when the first record has expired |
| Auth.GetAttempts | Votify/server/src/auth.ts:70-81 | the first record's attempts-made counter; None exactly when there is no record |
| Auth.GetVerificationCode | Votify/server/src/auth.ts:119-130 | the first record's code; None exactly when there is no record |
| Auth.IncrementedAttempts | Votify/server/src/auth.ts:57-81 | incrementing raises the counter read back by exactly one, or changes nothing when there is no record |
| Auth.ValidateTimeUp | Votify/server/src/auth.ts:85-88 | a missing or expired code is refused and every record of the email is deleted |
| Auth.ValidateAccepts | Votify/server/src/auth.ts:92-97 | a code is accepted exactly when the first record carries it, is live and has attempts left; acceptance deletes the email's records |
| Auth.ValidateFailureCostsAttempt | Votify/server/src/auth.ts:98-102 | a refusal on a live record costs that record exactly one attempt and changes nothing else |
| Auth.ExhaustedRejects | Votify/server/src/auth.ts:94 | with no attempts left even the right code is refused |
| Auth.ValidateOneTime | Votify/server/src/auth.ts:96-97 | after acceptance every further validation for the email fails |
| Auth.ValidateIgnoresIncrement | Votify/server/src/auth.ts:83-106 | validation never depends on the attempts-made counter that incrementing raises |
| Auth.NewerCodeShadowed | Votify/server/src/auth.ts:92-97 | saving a new code keeps the earlier record first, so a new code that differs from it is refused |
| Auth.WrongGuess | Votify/server/src/auth.ts:98-102 | each wrong guess uses up one attempt of the budget, or the records are gone |
| Auth.BudgetSpent | Votify/server/src/auth.ts:94 | with the budget spent, the code is refused |
| Auth.ThreeStrikes | Votify/server/src/auth.ts:94-102 | after three wrong guesses on a newly issued code, the right code is refused |
| Auth.CodeStore.constructor | Votify/server/src/auth.ts:39 | an empty code list |
| Auth.CodeStore.SaveVerificationCode | Votify/server/src/auth.ts:35-45 | appends a record valid for 15 minutes with 3 attempts and 0 made; earlier records stay |
| Auth.CodeStore.DeleteVerificationCode | Votify/server/src/auth.ts:47-55 | the list becomes the records of other emails |
| Auth.CodeStore.IncrementAttempt | Votify/server/src/auth.ts:57-68 | the first record of the email counts one more attempt made |
| Auth.CodeStore.ValidateCode | Votify/server/src/auth.ts:83-106 | the answer and the new list are those of `Validate`, whose properties the lemmas above state |
| Cookies.ValidateCookie | Votify/server/src/cookies.ts:55-64 | the email of the first live record holding the token; None exactly when there is none |
| Cookies.GetCookieByEmail | Votify/server/src/cookies.ts:43-53 | the token of the email's first record if that record is live, None if it has expired; None for an email without records |
| Cookies.SavedSingleRecord | Votify/server/src/cookies.ts:30-41 | after saving, the email has exactly one record, the new one, and every other email keeps its records in order |
| Cookies.SavedCookieByEmail | Votify/server/src/cookies.ts:30-53 | after saving, a lookup by the email returns the new token until it expires and nothing after |
| Cookies.SavedTokenValidates | Votify/server/src/cookies.ts:30-64 | after saving, the token validates to the email for 24 hours, provided no other email holds a live record with the same token |
| Cookies.SessionStore.constructor | Votify/server/src/cookies.ts:34 | an empty session list |
| Cookies.SessionStore.SaveCookie | Votify/server/src/cookies.ts:30-41 | the email's records are removed, then one valid for 24 hours is appended |
| Cookies.GenerateCookie | Votify/server/src/cookies.ts:21-28 | exactly 64 characters, each the alphabet character at the given random position |
| Routes.Authenticate | Votify/server/src/routes/routes.ts:159-166 | a request passes exactly when it has a cookie whose token validates to a non-empty email; otherwise it is refused with 401 |
| Routes.SameGroupIdsKeepRows | Votify/server/src/routes/routes.ts:173-175 | changes that keep group ids keep every membership row pointing at a group |
| Routes.StoreChangesKeepGroupIds | Votify/server/dist/models/db.js:184-391 | poll creation, option addition, voting and the sweep never change a group id |
| Routes.CreatorRowKeepsSound | Votify/server/src/routes/routes.ts:145-148 | the creator's admin row names the new group and duplicates no row |
| Routes.JoinRowKeepsSound | Votify/server/src/routes/routes.ts:347-357 | the row added by a join duplicates no row and names an existing group |
| Routes.CreateGroup | Votify/server/src/routes/routes.ts:114-155 | 401 without a session, then 400 without a name, both with no change; otherwise one group with the next id and one admin row for the caller; the server invariant is kept |
| Routes.JoinGroup | Votify/server/src/routes/routes.ts:325-363 | an unknown caller is first added with an empty name; unknown group gives 404, existing membership 400, both with no new row; success adds exactly one member row; the invariant, including no duplicate row, is kept |
| Routes.CreatePoll | Votify/server/src/routes/routes.ts:157-180 | 200 exactly when the session is valid and group id (non-zero), title and end are present; no membership or future-end check is made; the poll is created as `AddPollToGroup` does and its id returned |
| Routes.AddOptionRoute | Votify/server/src/routes/routes.ts:210-238 | a bad poll id or missing option name gives 400 before any change; an unknown poll gives 500 with no change; 200 exactly when the session is valid, the inputs are given and the poll exists, and then the option is added as `AddOption` describes |
| Routes.VoteRoute | Votify/server/src/routes/routes.ts:365-394 | a bad poll id or missing option name gives 400 before any change; otherwise 200, and the store is `CastVote`'s whether or not the vote was accepted |
| Routes.PollChecker | Votify/server/dist/models/db.js:403-412 | one sweep removes exactly the expired polls, leaves users and membership rows unchanged, keeps the server invariant and hands every results message to the mailer |
| Routes.Login | Votify/server/src/routes/routes.ts:25-38 | 400 exactly when the email is missing; an unknown email is never refused; a delivered code is stored |
| Routes.Register | Votify/server/src/routes/routes.ts:40-59 | 400 for a missing or known email, with no change; otherwise the user is added with an empty name and a delivered code is stored |
| Routes.LoginCode | Votify/server/src/routes/routes.ts:61-87 | the code list becomes `Validate`'s; on success a 64-character token is saved for the email and returned; otherwise 400 and no session |

## Left out

- Mail transport: nodemailer in `sendPollResultsEmail` and `sendVerificationMail`. The sweep returns its results messages as values (`Notice`), and `Results.ComposeResultsMail` composes one. The verification mail is a `delivered` parameter: it holds the code when the mail went out, and None when sending failed.
- Random draws: the verification code and the characters of the session token are inputs.
- lowdb persistence (`init`, `read`, `write`, `initializeEmailDB`, `initializeCookiesDB`). Every operation acts on in-memory sequences.
- The poll-checker timer (`startPollChecker`'s `setInterval`) and the module bootstrap of the routes. `Routes.PollChecker` is one run of the timer.
- Concurrency and interleaving between requests and the sweep. Every handler runs to completion in sequence.
- `Date` parsing and the clock. Times are integer milliseconds passed as `now`. `validateCode` reads the clock twice; the model uses one `now` for both.
- HTTP plumbing: cookie headers and options, JSON bodies, CORS and static serving. The `dbExists`/`isReady` 500 answers are left out too; the store is always present.
- `parseInt` and JavaScript truthiness of request fields. A parsed id is an `Option<int>`, with None for NaN. A text field is "given" when present and non-empty.
- The catch-all 500 answers of the handlers are left out, except in `Routes.AddOptionRoute`, where "Poll not found" is a real path.
- `console.assert` calls: they only log and never stop an operation.
- Db.Database.AddPollToGroup: the source spreads the caller's poll object over the defaults. The model takes title and end, which is what the only caller passes.
- The read-only GET routes (group info, polls, public info, auth check) are left out. The store queries they call are modelled in `Tables`.
- `Votify/server/dist/db/DataManager.js`, `Votify/server/src/models/db.ts`, the type-declaration files and the client are not part of this model.
