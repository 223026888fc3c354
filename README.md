# Group ledger backend, modelled in Dafny

This project models the core of a shared-ledger web backend, written in TypeScript on Express and PostgreSQL, in which users keep a group's accounts together. Users sign up and log in. They create groups and invite others with short join codes. Members record income and expense entries, with receipts kept in object storage or on local disk. Admins track who has paid the group's dues. The server sends reminders as notification-log rows and as Web Push messages, and produces period reports as PDF or spreadsheet downloads.

The model keeps the source's own shape:

- **The database** is one `Store.Database` object. Each table is a `seq` of row values. The SERIAL keys the program returns come from counter fields that every insert advances, including a failed one. The uniqueness, check and foreign-key constraints that matter are predicates in `Valid()`. An insert the database would refuse is a failure outcome of the model method, which the handler turns into HTTP 500.
- **Models and handlers that change tables** are methods. Their `modifies` clauses name the tables they touch, and their postconditions state each new table as a function of the old ones.
- **Pure checks and queries** are functions. Examples are the guards of the handlers, the SQL reads, the storage-key and MIME rules, and the environment check. Lemmas relate them: round trips, exact membership, order, counts and preserved invariants.
- **Loops in the source stay loops.** These are the code generator, the retry-until-unique draw, the reminder sweeps, the push fan-out, the report totals and the request-object rewrite in the validation middleware. Each is proved against a specification function.
- **What lies outside the program is a parameter:**
  - the clock (`now`) and `Math.random` (draws in [0, 1));
  - the token library (`Verifier`) and the password hash;
  - PostgreSQL's reading of date text (`parseDate`);
  - the OCR extraction;
  - the Web Push sender (`Deliver`);
  - S3 signing;
  - Joi's reading of numbers from text, and its ISO-date test and conversion.

## Model

| member | source | states |
|---|---|---|
| Codes.DrawIndex | src/models/groupModel.ts:39 | `Math.floor(draw * 32)` of a draw in [0, 1) indexes the 32-letter alphabet |
| Codes.CodeOf | src/models/groupModel.ts:35-42 | a code has one character per draw, each from the alphabet |
| Codes.CodeUnambiguous | src/models/groupModel.ts:36 | no code contains I, O, 0 or 1 |
| Codes.EveryCodeDrawable | src/models/groupModel.ts:36-41 | every string over the alphabet is the code of some draws, so the generator can reach every code |
| Codes.Generate | src/models/groupModel.ts:37-41 | the character-appending loop yields exactly `CodeOf(draws)` |
| Codes.FirstFresh | src/models/groupModel.ts:53-60 | the retry loop settles on an untaken code drawn by some attempt, and every earlier attempt's code was taken |
| Codes.DrawUntilFresh | src/models/groupModel.ts:53-60 | the retry loop returns `FirstFresh` of its attempts |
| GroupModel.GenerateGroupCode | src/models/groupModel.ts:35-42 | a group code has six alphabet characters, none of I, O, 0, 1 |
| GroupModel.FreshGroupCode | src/models/groupModel.ts:51-60 | the code chosen for a new group is six characters long and no group holds it |
| GroupModel.DrawGroupCode | src/models/groupModel.ts:51-60 | the loop returns `FreshGroupCode`, a code no group uses |
| GroupModel.RoleOf | src/models/groupModel.ts:90-96 | `getUserGroupRole` is NULL iff no membership row matches the pair, and otherwise the role of a matching row |
| GroupModel.RoleOfRow | src/models/groupModel.ts:90-96 | with one row per (user, group), the lookup returns that row's role |
| GroupModel.GroupById | src/models/groupModel.ts:82 | the join finds a group exactly when its key is in the table, and the row found has that key |
| GroupModel.UserById | src/models/groupModel.ts:102 | the join finds a user exactly when the key is in the table, and the row found has that key |
| GroupModel.AdminsAtMostMembers | src/models/groupModel.ts:110-124 | a group's admin count never exceeds its member count |
| GroupModel.MembersCountRows | src/models/groupModel.ts:118-124 | the member count is positive iff some membership row names the group |
| GroupModel.AdminRowCounts | src/models/groupModel.ts:110-116 | an admin row makes its group's admin count positive |
| GroupModel.CountsAppend | src/models/groupModel.ts:110-124 | inserting a membership raises only its own group's counts: the member count by one, and the admin count by one when the role is admin |
| GroupModel.RoleOfAppend | src/models/groupModel.ts:90-96 | a new row answers the role lookup only for a pair that had no row before |
| GroupModel.CountsOutside | src/models/groupModel.ts:136-139 | removing a group's memberships zeroes its counts and leaves every other group's counts as they were |
| GroupModel.WithRoleEffect | src/models/groupModel.ts:141-158 | the role UPDATE gives the pair the new role if it had a row, touches no other pair, and changes nothing when the pair has no row |
| GroupModel.WithRoleKeys | src/models/groupModel.ts:151-154 | the role UPDATE keeps every row's user and group |
| GroupModel.WithRoleCounts | src/models/groupModel.ts:141-158 | a role change keeps every member count, and moves the group's admin count by the pair's old and new role |
| GroupModel.WithoutEffect | src/models/groupModel.ts:126-134 | removal deletes exactly the pair's membership, and every other row stays |
| GroupModel.WithoutMembers | src/models/groupModel.ts:118-134 | removal lowers the member count of the pair's group by one when the pair was a member, and changes no other count |
| GroupModel.WithoutAdmins | src/models/groupModel.ts:126-134 | removal lowers the admin count by one exactly when the removed row was an admin row |
| GroupModel.WithoutUnique | src/models/groupModel.ts:126-134 | removal keeps memberships one per (user, group) |
| GroupModel.JoinUserGroupsExact | src/models/groupModel.ts:78-88 | the join lists a (group, role) pair iff the user has a membership with that role in that existing group |
| GroupModel.GroupsForUserSpec | src/models/groupModel.ts:78-88 | `getGroupsForUser` lists exactly the user's groups with the user's role, newest group first. The list is a permutation of the join, and with one row per (user, group) each entry occurs at most once |
| GroupModel.JoinUserGroupsOnce | src/models/groupModel.ts:78-88 | with one row per (user, group), the join lists each of the user's groups at most once |
| GroupModel.JoinMembersExact | src/models/groupModel.ts:98-108 | the join lists a member iff the group has a membership for an existing user, with that user's role and name |
| GroupModel.GroupMembersSpec | src/models/groupModel.ts:98-108 | `listGroupMembers` lists exactly the group's members with name and role, ordered by user key. The list is a permutation of the join, and with one row per (user, group) each member occurs at most once |
| GroupModel.JoinMembersOnce | src/models/groupModel.ts:98-108 | with one row per (user, group), the join lists each member of the group at most once |
| GroupModel.CreateGroup | src/models/groupModel.ts:44-76 | the group row always goes in with the next key and a fresh code. The owner's admin membership follows, and the group is returned, iff the owner has a user row. Otherwise the second INSERT fails and the group row stays. Constraints are kept |
| GroupModel.CreateGroupKeepsValid | src/models/groupModel.ts:62-73 | a group with the next key and an unused code, and its owner's row, keep every table constraint |
| GroupModel.InsertMembership | src/models/groupModel.ts:69-73 | the INSERT succeeds iff the user and group exist and the pair has no row, and then appends exactly that row |
| GroupModel.SetUserGroupRole | src/models/groupModel.ts:141-158 | the table becomes `WithRole` of the old one, and the updated row is returned, or NULL when the pair has no row |
| GroupModel.RemoveUserFromGroup | src/models/groupModel.ts:126-134 | the table becomes `Without` of the old one, and constraints are kept |
| GroupModel.OtherGroupIds | src/models/groupModel.ts:136-139 | deleting a group removes exactly its key from the set of group keys |
| GroupModel.OtherGroupsValid | src/models/groupModel.ts:136-139 | the remaining groups keep their keys below the counter and their codes unique |
| GroupModel.CascadeKeepsValid | src/models/groupModel.ts:136-139 | deleting every row that refers to the group keeps all constraints |
| GroupModel.DropGroupKeepsValid | src/models/groupModel.ts:136-139 | once nothing refers to the group, dropping its row keeps all constraints |
| GroupModel.DeleteGroupRows | src/models/groupModel.ts:136-139 | ON DELETE CASCADE removes exactly the group's memberships, invitations, entries, dues and logs |
| GroupModel.DeleteGroup | src/models/groupModel.ts:136-139 | the group row and everything that refers to it go, other groups' rows stay, and constraints are kept |
| InvitationModel.GenerateInviteCode | src/models/invitationModel.ts:30-35 | an invitation code has eight alphabet characters, none of I, O, 0, 1 |
| InvitationModel.FreshInviteCode | src/models/invitationModel.ts:46-55 | the chosen code is eight characters long and no invitation holds it |
| InvitationModel.DrawInviteCode | src/models/invitationModel.ts:46-55 | the retry loop returns `FreshInviteCode`, an unused code |
| InvitationModel.InvitationByCode | src/models/invitationModel.ts:65-71 | the lookup finds a row iff some invitation has the code, and the row found has it |
| InvitationModel.InvitationByCodeRow | src/models/invitationModel.ts:65-71 | with unique codes, the lookup by a row's code returns that row |
| InvitationModel.InvitationByCodeAppend | src/models/invitationModel.ts:56-71 | a new invitation with an unused code is found by its own code, and every other lookup is unchanged |
| InvitationModel.ExpiryInFuture | src/models/invitationModel.ts:58 | a positive TTL puts the expiry a whole number of hours, at least one, after now |
| InvitationModel.CreateInvitation | src/models/invitationModel.ts:37-63 | the counter always advances. The insert succeeds iff the group and creator exist, and the row has the next key, a fresh code, expiry now + TTL and no acceptance |
| InvitationModel.InvitationAppendOk | src/models/invitationModel.ts:16-25 | an invitation with an unused code and existing group and creator keeps codes unique and references valid |
| InvitationModel.CreatedFoundByCode | src/models/invitationModel.ts:46-71 | the created invitation is found by its code, is unaccepted, and expires after now |
| InvitationModel.MarkedAccepted | src/models/invitationModel.ts:73-75 | marking sets `accepted_at` and `accepted_by` on the rows with the key, and changes no other column and no other row |
| InvitationModel.MarkedFoundAccepted | src/models/invitationModel.ts:65-75 | after marking, the lookup by code returns the same invitation, now accepted by the user at now |
| InvitationModel.MarkInvitationAccepted | src/models/invitationModel.ts:73-75 | the UPDATE fails only for an unknown accepting user when the row exists, and otherwise the table becomes `MarkedAccepted` |
| InvitationModel.WithoutStaleExact | src/models/invitationModel.ts:77-79 | the purge keeps exactly the invitations that are accepted or not yet expired, and purging twice equals purging once |
| InvitationModel.DeleteExpiredInvitations | src/models/invitationModel.ts:77-79 | the table becomes `WithoutStale` of the old one, and constraints are kept |
| Store.ParseRole | src/controllers/groupsController.ts:69-71 | a role text is accepted iff it is `admin` or `member`, and the role read back prints as the same text |
| GroupsController.List | src/controllers/groupsController.ts:15-22 | answers 200 with exactly the caller's groups, each with the caller's role, newest first |
| GroupsController.NewGroupOwner | src/controllers/groupsController.ts:24-33 | a new group has one member, its owner, as its only admin, and groups that had an admin still have one |
| GroupsController.Create | src/controllers/groupsController.ts:24-33 | 400 iff `name` is missing or empty, with nothing written. 201 iff the name is present and the caller has a user row, in which case the caller becomes the only admin of the new group. 500 otherwise |
| GroupsController.EffectiveTtl | src/controllers/groupsController.ts:44 | the TTL is always positive. A positive request value is kept, and anything else becomes 72 hours |
| GroupsController.CreateInviteStatus | src/controllers/groupsController.ts:37-39 | 201 iff the key binds and the caller is an admin of the group, and 500 iff the key does not bind |
| GroupsController.CreateInvite | src/controllers/groupsController.ts:35-50 | only an admin creates an invitation. It has the next key, a fresh code and expiry now + TTL, and non-admins leave the table as it was |
| GroupsController.MemberReadStatus | src/controllers/groupsController.ts:54-57 | 400 iff `Number(groupId)` is 0 or NaN, and 200 iff the key binds and the caller has a role in the group |
| GroupsController.Members | src/controllers/groupsController.ts:52-63 | a member gets exactly the group's members with names and roles, ordered by user key, and everyone else gets the guard's status and no list |
| GroupsController.ChangeRoleStatus | src/controllers/groupsController.ts:67-82 | each status as an iff, checked in order: 400 iff a key is 0 or NaN, or the role is neither `admin` nor `member`, or the change would demote the last admin. 500 iff a key does not bind. 403 iff the caller is not the group's admin. 404 iff the target has no row in the group. 200 iff all guards pass and it is not a demotion of the last admin |
| GroupsController.ChangeRoleKeepsAdmin | src/controllers/groupsController.ts:79-84 | an accepted role change never leaves a group with members but no admin |
| GroupsController.ChangeRole | src/controllers/groupsController.ts:65-89 | on 200 the target gets the new role by `WithRole` and the updated row is returned. Any other status writes nothing. Groups keep an admin |
| GroupsController.RemoveStatus | src/controllers/groupsController.ts:94-97 | 204 iff the key is nonzero and binds and the caller is an admin of the group |
| GroupsController.DeleteGroupKeepsAdmin | src/controllers/groupsController.ts:98 | the deleted group has no members left, and the other groups keep their admins |
| GroupsController.Remove | src/controllers/groupsController.ts:92-103 | on 204 the group and every row that refers to it are deleted, and on any other status nothing changes |
| GroupsController.LeaveStatus | src/controllers/groupsController.ts:107-119 | each status as an iff: 400 iff the key is 0 or NaN, or the caller is the group's last admin while other members remain. 500 iff the key does not bind. 404 iff the caller has no row in the group. 204 iff the caller has a row and is not that last admin |
| GroupsController.LeaveKeepsAdmin | src/controllers/groupsController.ts:112-121 | an accepted leave never leaves a group with members but no admin |
| GroupsController.Leave | src/controllers/groupsController.ts:105-126 | on 204 exactly the caller's membership goes, on any other status nothing changes, and groups keep an admin |
| InvitationsController.AcceptStatus | src/controllers/invitationsController.ts:7-19 | the checks in order: 400 iff no code, 404 iff no invitation has it, 409 iff it was accepted, 410 iff it is unaccepted and expired before now, 500 iff the caller or the group has no row, and 200 iff none of these holds |
| InvitationsController.JoinAsMember | src/controllers/invitationsController.ts:13-18 | the INSERT as written: a pair that already has a row keeps it unchanged, and otherwise the caller is appended as a member |
| InvitationsController.JoinAsMemberLosesAdmin | src/controllers/invitationsController.ts:13-18 | a sole admin who is also the sole member may leave, and an older invitation then puts a plain member into a group with no admin |
| InvitationsController.Join | src/controllers/invitationsController.ts:13-18 | the corrected INSERT: an existing row is kept, and otherwise the caller joins as admin when the group has none, else as member |
| InvitationsController.JoinKeepsAdmin | src/controllers/invitationsController.ts:13-18 | after the corrected insert the caller belongs to the group, and every group with members has an admin |
| InvitationsController.AcceptKeepsValid | src/controllers/invitationsController.ts:13-19 | the insert as written, of a `'member'` row, and the marked invitation keep every table constraint |
| InvitationsController.JoinAndMark | src/controllers/invitationsController.ts:13-19 | the two statements leave the memberships as `JoinAsMember` and the invitations as `MarkedAccepted` of the old tables |
| InvitationsController.Accept | src/controllers/invitationsController.ts:5-24 | the status is `AcceptStatus`. On 200 the caller's `'member'` row is inserted unless the pair already has one, the invitation is marked accepted by the caller at now, and the group key is returned. Any other status writes nothing |
| InvitationsController.JoinKeepsValid | src/controllers/invitationsController.ts:13-18 | the corrected insert keeps every table constraint |
| InvitationsController.AcceptCorrected | src/controllers/invitationsController.ts:5-24 | the handler with the corrected insert answers as `AcceptStatus`, and on 200 leaves the memberships as `Join` of the old ones, so every group with members keeps an admin |
| InvitationsController.AcceptOnce | src/controllers/invitationsController.ts:11-19 | once accepted, the same code answers 409 to anyone at any later time |
| TransactionModel.OrNull | src/models/transactionModel.ts:70 | `x \|\| null` binds NULL iff the text is absent or empty, and the text itself otherwise |
| TransactionModel.TransactionAppendOk | src/models/transactionModel.ts:18-27 | a row with the next key, a non-negative amount and existing group and creator keeps the table's constraints |
| TransactionModel.CreateTransaction | src/models/transactionModel.ts:47-73 | the SERIAL counter always advances. The INSERT succeeds iff group and creator exist and the amount fits `NUMERIC(12,2) CHECK (amount >= 0)`. On success exactly the new row is appended and returned |
| TransactionModel.TransactionById | src/models/transactionModel.ts:124-131 | the lookup is NULL iff no row has the key, and otherwise a row of the table with that key |
| TransactionModel.TransactionByIdRow | src/models/transactionModel.ts:124-131 | with unique keys, looking up a row's key returns that row |
| TransactionModel.CreatedFoundById | src/models/transactionModel.ts:124-131 | a freshly inserted row is found by its key |
| TransactionModel.TransactionByReceiptKey | src/models/transactionModel.ts:163-169 | the lookup is NULL iff no row has that receipt key, and otherwise gives the key, group and receipt of such a row |
| TransactionModel.NewestFirstOrder | src/models/transactionModel.ts:83 | `date DESC, id DESC` is a total preorder |
| TransactionModel.NewestGroupTransactionsSpec | src/models/transactionModel.ts:79-84 | before paging, the query returns exactly the group's rows, each as often as stored, newest first |
| TransactionModel.ListTransactionsSpec | src/models/transactionModel.ts:75-88 | a page holds at most `limit` rows, all of the group, newest first |
| TransactionModel.ListConsecutivePages | src/models/transactionModel.ts:84 | two consecutive pages together are the page of their combined size |
| TransactionModel.ListWholeGroup | src/models/transactionModel.ts:75-88 | a limit covering the group returns every row of the group |
| TransactionModel.SumSigned | src/models/transactionModel.ts:100-102 | summing each entry's signed amount equals the income total less the expense total |
| TransactionModel.StatsByGroup | src/models/transactionModel.ts:90-103 | the balance is the sum of the group's signed amounts |
| TransactionModel.StatsEmpty | src/models/transactionModel.ts:93-101 | a group without rows has zero totals, from `COALESCE(..., 0)` |
| TransactionModel.StatsAppend | src/models/transactionModel.ts:90-103 | a new row of the group raises its side's total and moves the balance by its signed amount, and a row of another group changes nothing |
| TransactionModel.StatsNonNegative | src/models/transactionModel.ts:90-103 | with the amount CHECK, both totals are non-negative |
| TransactionModel.IntLeOrder | src/models/transactionModel.ts:118 | month keys are totally ordered |
| TransactionModel.MonthsOf | src/models/transactionModel.ts:111 | each row's month key is its date's month |
| TransactionModel.MonthKeysSpec | src/models/transactionModel.ts:117-118 | `GROUP BY 1 ORDER BY 1`: the month keys are strictly increasing and are exactly the months of the rows |
| TransactionModel.MonthBuckets | src/models/transactionModel.ts:110-117 | one bucket per month key, each summing that month's rows |
| TransactionModel.MonthlyBucketsFromRows | src/models/transactionModel.ts:115-116 | every reported month lies in the window and has a row of the group |
| TransactionModel.MonthlyRowsCovered | src/models/transactionModel.ts:115-117 | every row of the group in the window shows up in a month |
| TransactionModel.MonthlyStatsSpec | src/models/transactionModel.ts:105-122 | the monthly statistics come in increasing month order, and each bucket holds the income and expense sums of its month |
| TransactionModel.MonthlyStatsCover | src/models/transactionModel.ts:105-122 | a month is reported iff the group has a row dated in it within the window |
| TransactionModel.CategoryKey | src/models/transactionModel.ts:191 | `COALESCE(NULLIF(TRIM(category), ''), '기타')` is never empty |
| TransactionModel.CategoriesOf | src/models/transactionModel.ts:191-197 | each row's group key is its category key |
| TransactionModel.LargerTotalFirstOrder | src/models/transactionModel.ts:198 | `total DESC, category ASC` is a total preorder |
| TransactionModel.CategoryBuckets | src/models/transactionModel.ts:190-197 | one bucket per distinct category, holding that category's sums |
| TransactionModel.CategoryBucketsDistinct | src/models/transactionModel.ts:197 | no bucket repeats |
| TransactionModel.CategoryBucketsSpec | src/models/transactionModel.ts:190-199 | categories are distinct, each bucket sums its category with total = income − expense, and every category of the rows has a bucket |
| TransactionModel.CategoryRowsSpec | src/models/transactionModel.ts:180-189 | the optional `from` and `to` bounds select exactly the group's rows in range |
| TransactionModel.CategoryStatsSpec | src/models/transactionModel.ts:171-207 | the buckets are sorted by total descending and then category, distinct, never blank, and each sums its category's rows in range |
| TransactionModel.CategoryStatsCover | src/models/transactionModel.ts:171-207 | a category is reported iff some row of the group in range has it |
| TransactionModel.Merge | src/models/transactionModel.ts:145-151 | `COALESCE` never changes the key, group, creator or creation time, and never clears a receipt or category |
| TransactionModel.MergeSpec | src/models/transactionModel.ts:145-151 | each column takes the bound value or keeps its own, a patch applied twice equals once, and the empty patch changes nothing |
| TransactionModel.Updated | src/models/transactionModel.ts:145-152 | the UPDATE merges exactly the rows with the key and keeps all others |
| TransactionModel.UpdatedFound | src/models/transactionModel.ts:145-156 | after the update, the lookup returns the merged row, or NULL when no row had the key |
| TransactionModel.UpdateKeepsValid | src/models/transactionModel.ts:145-152 | an update the CHECK accepts keeps the table's constraints |
| TransactionModel.UpdateTransaction | src/models/transactionModel.ts:133-157 | fails, writing nothing, iff the new amount breaks the CHECK on an existing row. Otherwise the table becomes `Updated` and the merged row, or NULL, is returned |
| TransactionModel.WithoutTransactionSpec | src/models/transactionModel.ts:159-161 | deletion removes exactly the rows with the key and keeps every other row |
| TransactionModel.DeleteTransaction | src/models/transactionModel.ts:159-161 | the table becomes `WithoutTransaction` of the old one, and constraints are kept |
| TransactionsController.EffectiveLimit | src/controllers/transactionsController.ts:17 | the page size is the validated query value, or 50, and always between 1 and 200 |
| TransactionsController.EffectivePage | src/controllers/transactionsController.ts:18 | the page is the validated query value, or 1, and always at least 1 |
| TransactionsController.Offset | src/controllers/transactionsController.ts:19 | the offset is `(page - 1) * limit`, never negative |
| TransactionsController.List | src/controllers/transactionsController.ts:13-28 | the status is the member-read guard. On 200 the items are the group's page at the effective limit and offset, and otherwise there are none |
| TransactionsController.ListNextPage | src/controllers/transactionsController.ts:17-24 | consecutive pages tile the group's entries, and each page is at most the page size, newest first, of the group's entries only |
| TransactionsController.GroupStats | src/controllers/transactionsController.ts:30-42 | members get exactly the group's statistics, and everyone else gets the guard's status and none |
| TransactionsController.EffectiveMonths | src/controllers/transactionsController.ts:48-52 | the window is the positive month count asked for, or 6 for an absent, zero, negative or non-numeric one |
| TransactionsController.Monthly | src/controllers/transactionsController.ts:44-57 | members get the monthly statistics over the effective window. A fractional window fails to bind (500), and everyone else gets the guard's status |
| TransactionsController.ParseTxType | src/controllers/transactionsController.ts:66 | a type is accepted iff it is `income` or `expense`, and it reads as income iff it is `income` |
| TransactionsController.CreateStatus | src/controllers/transactionsController.ts:59-92 | 400 iff a required field is missing or the type is neither income nor expense. 403 iff the well-formed request comes from a non-member. 201 iff a member sends it with a date the database reads and an insert the table accepts. Any other case is 500 |
| TransactionsController.MemberRefers | src/controllers/transactionsController.ts:69-86 | a member of a group passes both foreign keys of the INSERT |
| TransactionsController.MemberEntryCreated | src/controllers/transactionsController.ts:59-92 | a member's complete entry, with a readable date and an amount the CHECK accepts, gets 201 |
| TransactionsController.Create | src/controllers/transactionsController.ts:59-92 | on 201 exactly one row is appended, created by the caller, with no category, and returned. Any other status appends nothing |
| TransactionsController.Addressed | src/controllers/transactionsController.ts:99-101 | the entry is found iff it exists and belongs to the group named in the request |
| TransactionsController.EditStatus | src/controllers/transactionsController.ts:99-105 | 400 iff a key is 0 or NaN, 404 iff the entry is missing or in another group, 403 iff the caller is neither the group's admin nor the entry's creator |
| TransactionsController.PatchOf | src/controllers/transactionsController.ts:109 | the patch binds each text `\|\| null`, keeps the amount, never binds a category, and fails iff a date is given that PostgreSQL refuses |
| TransactionsController.UpdateStatus | src/controllers/transactionsController.ts:94-114 | after the edit guard, 200 iff the type is valid when given, the date reads and the new amount passes the CHECK |
| TransactionsController.Update | src/controllers/transactionsController.ts:94-114 | on 200 the entry is merged with the patch, keeping key, group, creator and category, and returned. Any other status writes nothing |
| TransactionsController.Remove | src/controllers/transactionsController.ts:116-133 | 204 exactly when the edit guard passes, and then only that entry is deleted. Any other status changes nothing |
| DuesModel.DuesOf | src/models/duesModel.ts:32 | the LEFT JOIN finds no dues row iff none has the (group, user) key, and otherwise a row with that key |
| DuesModel.DuesOfExact | src/models/duesModel.ts:18-32 | with `UNIQUE (group_id, user_id)`, the lookup returns a row iff that row is in the table under the key |
| DuesModel.ByNameOrder | src/models/duesModel.ts:34 | `ORDER BY u.name ASC` is a total preorder |
| DuesModel.JoinDuesExact | src/models/duesModel.ts:28-33 | the join lists an entry iff a membership of the group for an existing user gives its key and name, with the paid flag and time of the user's dues row, or false and NULL when there is none |
| DuesModel.JoinDuesCount | src/models/duesModel.ts:30-33 | the join lists one entry per member of the group |
| DuesModel.ListDuesSpec | src/models/duesModel.ts:24-38 | `listDuesByGroup` lists exactly one entry per member, with the member's dues or the unpaid default, by name |
| DuesModel.ListDuesDefault | src/models/duesModel.ts:29 | a member without a dues row is listed as unpaid with no paid time |
| DuesModel.PaidRow | src/models/duesModel.ts:51-54 | the upserted row has the key and flag, and a paid time, equal to now, iff it is paid |
| DuesModel.UpsertedRows | src/models/duesModel.ts:50-55 | after the upsert the table holds the new row and every row with another key, and nothing else |
| DuesModel.UpsertedUnique | src/models/duesModel.ts:50-55 | the upsert keeps one row per (group, user) |
| DuesModel.UpsertSpec | src/models/duesModel.ts:40-59 | after the upsert the key's lookup returns the new row, every other key's lookup is unchanged, and keys stay unique |
| DuesModel.UpsertRepeat | src/models/duesModel.ts:52-54 | upserting the same flag twice is the same as the later upsert alone |
| DuesModel.SetDuesStatus | src/models/duesModel.ts:40-59 | succeeds iff the group and user exist, storing and returning the upserted row. On failure nothing changes |
| DuesController.List | src/controllers/duesController.ts:5-17 | the status is the member-read guard. On 200 the items are the group's dues list, and otherwise there are none |
| DuesController.UpdateStatus | src/controllers/duesController.ts:19-32 | 400 iff a key is 0 or NaN or `isPaid` is not a boolean. 403 iff the caller is not the group's admin. 200 iff the admin names an existing group and user |
| DuesController.UpdateIgnoresTargetMembership | src/controllers/duesController.ts:25-27 | an admin may set dues for a user who is not a member of the group |
| DuesController.Update | src/controllers/duesController.ts:19-32 | on 200 the dues row is upserted and returned, and otherwise nothing changes |
| PreferenceModel.PreferenceOf | src/models/userPreferenceModel.ts:20-24 | the lookup finds no row iff no preference has the user key, and otherwise a row with that key |
| PreferenceModel.PreferenceOfExact | src/models/userPreferenceModel.ts:20-24 | with the user key as primary key, the lookup returns a row iff it is the table's row for the user |
| PreferenceModel.GetUserPreferences | src/models/userPreferenceModel.ts:20-29 | a user without a row gets reminders on, and otherwise gets the stored row |
| PreferenceModel.UpsertedPreferenceRows | src/models/userPreferenceModel.ts:36-41 | after the upsert the table holds the user's new row, with `COALESCE($2, true)`, and every other user's row |
| PreferenceModel.UpsertPreferencesSpec | src/models/userPreferenceModel.ts:31-45 | after the upsert the user reads the new flag, true when none was given, and every other user reads what they read before |
| PreferenceModel.UpsertUserPreferences | src/models/userPreferenceModel.ts:31-45 | succeeds iff the user exists, storing and returning the new row. On failure nothing changes |
| LogModel.NewLog | src/models/notificationLogModel.ts:38-41 | the row carries the given user, group, type and message, and is stamped now |
| LogModel.LogAppendRefers | src/models/notificationLogModel.ts:16-17 | a log row for an existing user and group keeps the table's references valid |
| LogModel.InsertNotificationLog | src/models/notificationLogModel.ts:26-42 | the SERIAL counter advances. The INSERT succeeds iff user and group exist, appending exactly the new row, and otherwise changes nothing |
| Reminders.UnpaidCount | src/controllers/notificationsController.ts:87-92 | with at most one dues row per member, the unpaid count is 0 iff the row exists and is paid, and at most 1 |
| Reminders.ReceiveOf | src/controllers/notificationsController.ts:88-93 | the joined setting is NULL iff the user has no preference row, and otherwise the stored flag |
| Reminders.ReminderRows | src/controllers/notificationsController.ts:86-95 | every row's user and group exist, and a query for one group gives rows of that group only |
| Reminders.ReminderRowsCount | src/controllers/notificationsController.ts:89-95 | under the membership foreign keys, the query gives one row per member of the group |
| Reminders.ReminderRowUnpaid | src/controllers/notificationsController.ts:87-92 | a member counts 0 unpaid iff their dues row in the group is paid, and 1 iff it is unpaid or missing |
| Reminders.ReminderMessage | src/controllers/notificationsController.ts:145 | the log message starts with the group's name and is longer than it, and the manual test's message ends with ` (테스트)` |
| Reminders.SentLogs | src/controllers/notificationsController.ts:107-163 | a run appends at most one log row per query row, with consecutive keys, type `dues_reminder` and time now |
| Reminders.SentLogsStep | src/controllers/notificationsController.ts:133-146 | one more row appends its log row iff it is reminded and sending and logging succeed |
| Reminders.SentLogsSound | src/controllers/notificationsController.ts:133-146 | every appended log row records a reminder of a reminded row's user in its group |
| Reminders.SentLogsComplete | src/controllers/notificationsController.ts:107-163 | every row that is reminded has a log row |
| NotificationsController.ListLogsStatus | src/controllers/notificationsController.ts:12-20 | 403 iff a group is named and the caller has no role in it, and 200 iff every given key binds and the caller belongs to a named group |
| NotificationsController.NewerSentOrder | src/controllers/notificationsController.ts:53 | `ORDER BY nl.sent_at DESC` is a total preorder |
| NotificationsController.ListLogs | src/controllers/notificationsController.ts:8-60 | on 200 the logs are the first 100 of the visible rows, newest first, and otherwise there are none |
| NotificationsController.JoinLogsExact | src/controllers/notificationsController.ts:22-51 | the join lists an entry iff a log row passes the built WHERE clause and has existing user and group rows |
| NotificationsController.ListLogsSound | src/controllers/notificationsController.ts:22-55 | every listed log passes the WHERE clause |
| NotificationsController.ListLogsComplete | src/controllers/notificationsController.ts:22-55 | when at most 100 rows qualify, every qualifying log is listed |
| NotificationsController.ListLogsSpec | src/controllers/notificationsController.ts:22-56 | at most 100 logs, newest first, all visible, and all of them when at most 100 qualify |
| NotificationsController.ListLogsOwnRows | src/controllers/notificationsController.ts:33-45 | a caller who is not the named group's admin sees only their own logs. A named group restricts to it, and without a group nobody counts as admin |
| NotificationsController.JoinLogsOtherUser | src/controllers/notificationsController.ts:35-51 | asking a non-admin query for another user's logs joins no row |
| NotificationsController.ListLogsOtherUserEmpty | src/controllers/notificationsController.ts:35-56 | a non-admin asking for another user's logs gets an empty list |
| NotificationsController.Decide | src/controllers/notificationsController.ts:107-162 | each result names the row's user. It is sent iff the member allows reminders, owes dues and sending and logging succeed. The reason is opt-out, nothing unpaid, or the error raised |
| NotificationsController.Decisions | src/controllers/notificationsController.ts:107-163 | one result per query row, in order, each the row's decision |
| NotificationsController.DecisionsStep | src/controllers/notificationsController.ts:107 | one more row appends exactly its decision |
| NotificationsController.ReminderStatus | src/controllers/notificationsController.ts:65-74 | the body's raw JSON `groupId`: 400 iff it is falsy (absent, null, 0, empty text, false). 500 iff it is truthy but PostgreSQL cannot read it as an integer key. 403 iff the key is read and the caller is not that group's admin. 200 iff the caller is |
| NotificationsController.Int4OfText | src/controllers/notificationsController.ts:71 | a text is read as a key only when it is an integer in the 32-bit range, and then as that integer |
| NotificationsController.Int4Param | src/controllers/notificationsController.ts:71 | a number binds iff it is a 32-bit integer, a string binds as its text's integer reading, and a boolean, object or array never binds |
| NotificationsController.NumberGroupIdStatus | src/controllers/notificationsController.ts:65-74 | for a JSON number, 400 iff it is 0 or NaN, and 200 iff it is a 32-bit integer key of a group the caller administers |
| NotificationsController.TextGroupIdStatus | src/controllers/notificationsController.ts:65-74 | the text `"0"` passes the 400 check and is read as group 0. `"abc"` and `true` make the query raise (500), and the empty text is 400 |
| NotificationsController.RemindRows | src/controllers/notificationsController.ts:107-163 | the loop returns `Decisions` of the rows and appends `SentLogs` with consecutive keys |
| NotificationsController.TestDuesReminder | src/controllers/notificationsController.ts:63-173 | on 200 the query has one row per member, each row gets its decision, and the test logs are appended. Otherwise nothing changes |
| ServerJobs.HourlyPurge | src/server.ts:102-108 | the hourly job leaves exactly the accepted or unexpired invitations, or, when the DELETE raises, the table as it was |
| ServerJobs.FirstFailure | src/server.ts:113-152 | the run stops at the first eligible row whose send or log raises, and no row before it raises |
| ServerJobs.CountSends | src/server.ts:133-149 | the number of rows reminded is at most the number of rows |
| ServerJobs.SentLogsCount | src/server.ts:142-147 | a run appends exactly one log row, and takes one key, per row it reminds |
| ServerJobs.SweepSendsEligible | src/server.ts:134-135 | before the failing row, a row is reminded iff it is opted in, or has no setting, and owes something |
| ServerJobs.EligibleLogsSound | src/server.ts:133-148 | every log row of the sweep is for an eligible row |
| ServerJobs.EligibleLogsComplete | src/server.ts:133-148 | when no row raises, every eligible row gets a log row |
| ServerJobs.SweepLogsExact | src/server.ts:133-152 | the sweep logs exactly the eligible rows before the row that ends it |
| ServerJobs.SweepWithoutFailureIsComplete | src/server.ts:133-149 | when no send fails, the run reaches every row |
| ServerJobs.SweepRows | src/server.ts:133-152 | the loop appends `SentLogs` of the rows before the first failure, with consecutive keys |
| ServerJobs.DailySweep | src/server.ts:110-155 | the daily job runs the reminder query over all groups and appends the logs of the rows reached |
| UserModel.PublicOf | src/models/userModel.ts:36-40 | the returned user carries the row's key, email, name, role and creation time, without the hash |
| UserModel.UserByEmail | src/models/userModel.ts:49-55 | the lookup is NULL iff no row has the email, and otherwise a row with that email |
| UserModel.UserByEmailExact | src/models/userModel.ts:49-55 | with unique emails, the lookup returns a row iff it is the table's row with that email |
| UserModel.NewUser | src/models/userModel.ts:38-40 | the new row has the given fields, role `member` unless one is given, and creation time now |
| UserModel.CreateUserKeepsValid | src/models/userModel.ts:14-20 | a user with the next key and an unused email keeps every constraint |
| UserModel.CreateUser | src/models/userModel.ts:26-47 | the counter always advances. The INSERT succeeds iff the email is unused, appending the new row, which the email lookup then finds. Otherwise nothing is added |
| Auth.TokenOf | src/middleware/auth.ts:5-6 | the token, when there is one, is the non-empty second space-separated word, and an absent or empty header has none |
| Auth.TokenIgnoresScheme | src/middleware/auth.ts:6 | `<scheme> <token>` yields the token whatever the scheme |
| Auth.SingleWordHasNoToken | src/middleware/auth.ts:6-10 | a header of one word has no token, so the request gets 401 |
| Auth.Authenticate | src/middleware/auth.ts:4-19 | 401 iff there is no token, 403 iff the verifier refuses it, and otherwise the request proceeds as the token's id and email |
| AuthController.PayloadOf | src/controllers/authController.ts:18 | the token payload is the user's key, email and role |
| AuthController.Register | src/controllers/authController.ts:6-25 | 400 iff a field is falsy, 409 iff the email is taken, and 500 iff the password is then not a JSON string (the hash throws), with nothing written in any of these cases. 201 appends the user with the hashed password and returns the public user and payload |
| AuthController.Login | src/controllers/authController.ts:27-55 | 400 iff email or password is falsy. 500 iff the user is found and the password is not a JSON string (the compare throws). The same 401 and message for an unknown email as for a wrong password. 200 returns the public user and its payload |
| AuthController.NonStringPasswordRevealsEmail | src/controllers/authController.ts:27-44 | a truthy non-string password gets 500 for a registered email and 401 for an unknown one |
| AuthController.LoginHidesUnknownEmail | src/controllers/authController.ts:34-40 | a wrong password for a known email answers exactly like an unknown email |
| AuthController.Refresh | src/controllers/authController.ts:57-71 | 400 iff no token, 401 iff the verifier refuses it, and otherwise 200 with a payload of the token's id, email and role |
| StorageConfig.ResolveStorageMode | src/config/storageConfig.ts:8-13 | `s3` or `local` in any letter case decides the mode. Any other setting gives S3 iff a bucket name is set |
| StorageConfig.ExplicitModeWins | src/config/storageConfig.ts:9-11 | an explicit mode is chosen whatever the bucket setting |
| StorageConfig.ModeIsCaseInsensitive | src/config/storageConfig.ts:9 | `S3`, `LOCAL` and `Local` select the same modes as their lower-case spellings |
| StorageService.MimeOfExtension | src/services/storageService.ts:12-16 | an allowed extension, in any case, maps to an allowed type, and any other extension to `application/octet-stream` |
| StorageService.NormalizeMimeByExtension | src/services/storageService.ts:10-17 | a non-empty content type is kept, and otherwise the type comes from the extension |
| StorageService.NormalizedFromExtension | src/services/storageService.ts:11-16 | without a content type, an allowed extension yields an allowed type and any other yields octet-stream |
| StorageService.AllowedUploadCases | src/services/storageService.ts:19-23 | an upload is allowed when either its type or its extension is listed. Type matching is case-sensitive and extension matching is not |
| StorageService.UploadExt | src/services/storageService.ts:27 | the extension is non-empty, holds no dot and is lower case |
| StorageService.UploadExtOfDotted | src/services/storageService.ts:27 | the extension of `base.ext` is `ext` in lower case |
| StorageService.UploadExtUndotted | src/services/storageService.ts:27 | a name without a dot is its own extension, and a name ending in a dot gets `bin` |
| StorageService.ObjectKeyOwner | src/services/storageService.ts:36 | the key splits at `/` into `receipts`, the uploader's id (which parses back), and the object's name |
| StorageService.ObjectKeyExt | src/services/storageService.ts:36-46 | the stored object keeps the uploaded name's extension |
| StorageService.IssuePutPresign | src/services/storageService.ts:25-40 | 500 iff no bucket, 400 iff neither the type nor the extension is allowed, and issued iff there is a bucket and the upload is allowed. The key lies under the user's folder. The signed type is the supplied one, or the extension's type when none is supplied |
| StorageService.UnlistedTypeIsSigned | src/services/storageService.ts:28-35 | `text/html` is off the list, yet for `photo.png` it is signed as supplied |
| UploadsController.PresignPut | src/controllers/uploadsController.ts:16-35 | 503 iff the mode is not S3. 400 iff a field is missing or the upload is not allowed, and 500 iff the bucket is missing. Issued iff in S3 mode both fields are given, a bucket is set and the upload is allowed, with the service's key and the supplied type |
| UploadsController.ServedUrl | src/controllers/uploadsController.ts:45 | the URL is the `/files/` prefix followed by the key, with every backslash made a slash |
| UploadsController.Direct | src/controllers/uploadsController.ts:37-52 | 503 iff the mode is not local and 400 iff there is no file. Stored iff local mode has a file. The key is under the user's folder with the name's extension, the URL serves it, and the type defaults to octet-stream |
| UploadsController.UnnamedFileExtension | src/controllers/uploadsController.ts:43 | a file without a name is stored with the extension `file` |
| UploadsController.ObjectKeySeparators | src/controllers/uploadsController.ts:45 | a key built with backslashes becomes, with slashes put in, the key built with slashes |
| UploadsController.ServedUrlSeparatorFree | src/controllers/uploadsController.ts:45 | the served URL is the same on either path separator |
| UploadsController.NotAbsoluteByFirstChar | src/controllers/uploadsController.ts:67 | a value that does not start with `h` or `H` is not an absolute http(s) URL |
| UploadsController.LocalReceiptUrl | src/controllers/uploadsController.ts:66-69 | an absolute http(s) receipt URL is returned as is, and any other value is served under `/files/` |
| UploadsController.ReceiptLookup | src/controllers/uploadsController.ts:56-61 | a non-zero `transactionId` is looked up by key, where an unbindable one fails. Otherwise `key` is looked up among the receipt URLs. Nothing is found iff no row has that id, or no row has that URL, or neither parameter is given. A found row is a table row with that key or URL |
| UploadsController.TransactionIdPreferred | src/controllers/uploadsController.ts:60-61 | with a usable `transactionId`, the `key` parameter has no effect |
| UploadsController.PresignGet | src/controllers/uploadsController.ts:54-78 | 500 iff the lookup fails or S3 mode has no bucket for a member's receipt, 404 iff there is no receipt, and 403 iff the caller is not in its group. A member gets a URL iff the receipt exists and the mode is local or a bucket is set: the local URL, or in S3 mode the signed URL |
| UploadsController.DirectUploadReadBack | src/controllers/uploadsController.ts:37-78 | a directly uploaded file, recorded as a receipt, is read back by its key at the URL the upload returned |
| OcrController.ParseReceipt | src/controllers/ocrController.ts:7-27 | 503 iff no API key, 400 iff no file, 415 iff the type is neither an image nor a PDF. Otherwise the file is extracted with its type |
| OcrController.AcceptedMimeIgnoresCase | src/controllers/ocrController.ts:18 | type classification ignores letter case |
| OcrController.UploadTypesAreReadable | src/controllers/ocrController.ts:18 | every type an upload may be signed for is one the extraction accepts |
| OcrController.UntypedFilesRefused | src/controllers/ocrController.ts:16-21 | a file with no type or with octet-stream is refused with 415 |
| PushModel.SubscriptionAt | src/models/pushSubscriptionModel.ts:18 | the lookup by endpoint is none iff no row has the endpoint, and otherwise a table row with it |
| PushModel.SubscriptionAtExact | src/models/pushSubscriptionModel.ts:18 | with unique endpoints, the lookup returns a row iff it is the table's row for the endpoint |
| PushModel.Refreshed | src/models/pushSubscriptionModel.ts:36-39 | the conflict update replaces the keys and the update time, and keeps the key, owner, endpoint and creation time |
| PushModel.SaveSpec | src/models/pushSubscriptionModel.ts:15-44 | unless another user holds the endpoint, a save keeps endpoints unique. The endpoint then maps to the user's row with the new keys, keeping its id and creation time when it existed, and every other endpoint reads as before |
| PushModel.SaveRefreshes | src/models/pushSubscriptionModel.ts:36-39 | re-saving a held endpoint refreshes that row in place |
| PushModel.RefreshRewritesHeldRow | src/models/pushSubscriptionModel.ts:36-39 | the update rewrites only the caller's row for the endpoint, in place, and keeps every endpoint where it was |
| PushModel.RefreshKeepsOthers | src/models/pushSubscriptionModel.ts:36-39 | rewriting one endpoint's row in place leaves every other endpoint's lookup unchanged |
| PushModel.SaveAppends | src/models/pushSubscriptionModel.ts:34-35 | a new endpoint gets a new row with the drawn key and both times set to now |
| PushModel.ResaveAddsNoRow | src/models/pushSubscriptionModel.ts:36 | saving the same subscription twice adds no second row |
| PushModel.SavePushSubscription | src/models/pushSubscriptionModel.ts:29-44 | the key counter always advances. The upsert fails, changing nothing, iff another user holds the endpoint or a new endpoint's user does not exist. Otherwise the table becomes the saved table and the stored row is returned |
| PushModel.SubscriptionsOf | src/models/pushSubscriptionModel.ts:46-54 | exactly the user's rows |
| PushModel.SubscriptionsOfUsers | src/models/pushSubscriptionModel.ts:56-67 | exactly the rows of the listed users, and none for an empty list |
| PushModel.SubscriptionsOfOneUser | src/models/pushSubscriptionModel.ts:46-67 | the list query for one user gives that user's rows |
| PushModel.WithoutSubscription | src/models/pushSubscriptionModel.ts:69-77 | the DELETE keeps exactly the rows that are not the user's row for the endpoint |
| PushModel.DeleteSpec | src/models/pushSubscriptionModel.ts:69-77 | deletion keeps endpoints unique. It changes nothing when another user holds the endpoint, and otherwise the endpoint is gone |
| PushModel.DeletePushSubscription | src/models/pushSubscriptionModel.ts:69-77 | the table loses exactly the caller's row for the endpoint, and every constraint still holds |
| PushService.WireOf | src/services/pushService.ts:55-61 | the sent body keeps the title and text, defaults icon and badge to the app icon, and defaults data to an empty object |
| PushService.FailureMessage | src/services/pushService.ts:63-80 | a 410 or 404 error is reported as an invalid subscription, another error by its message, and a thrown non-error as unknown |
| PushService.DeliveredPlusReported | src/services/pushService.ts:101-112 | every subscription is counted once, as sent or as failed |
| PushService.RunCoversAll | src/services/pushService.ts:101-112 | the sent count is the number of successful deliveries and the error list has one entry per failed one |
| PushService.ReportsSound | src/services/pushService.ts:105-110 | each error entry names a subscription whose delivery failed, with that failure's message |
| PushService.ReportsNameUsers | src/services/pushService.ts:95-110 | every error entry names one of the requested users |
| PushService.RunStep | src/services/pushService.ts:101-112 | one more delivery adds one to the sent count or one error entry |
| PushService.SendPushNotificationsToUsers | src/services/pushService.ts:83-115 | fails iff push is not configured, and an empty list gives zeros. Otherwise the requested users' subscriptions are tried once each, with `sent + failed` equal to their number and one error per failure |
| PushService.DeliverAll | src/services/pushService.ts:101-112 | the loop counts exactly the successful deliveries, records one error per failed delivery, in order, and counts the failures |
| PushController.GetVapidKey | src/controllers/pushController.ts:6-16 | 503 iff no public key is configured, and the key is answered iff one is |
| PushController.Subscribe | src/controllers/pushController.ts:19-35 | 400 iff the subscription, its endpoint or its keys are missing, changing nothing. 200 iff the upsert stores the caller's row, and 500 otherwise with the table unchanged |
| PushController.Unsubscribe | src/controllers/pushController.ts:38-52 | 400 iff there is no endpoint. Otherwise 200, having removed the caller's row for the endpoint |
| Env.RequiredRanks | src/utils/env.ts:2 | each required variable's rank is its place in the list |
| Env.MissingEnv | src/utils/env.ts:3 | exactly the required variables that are unset or blank, in the list's order |
| Env.ValidateEnv | src/utils/env.ts:1-7 | no error iff every required variable is set, and otherwise the message lists the missing ones joined by commas |
| Env.EmptyEnvironmentMessage | src/utils/env.ts:2-5 | an empty environment names all six variables in order |
| Env.BlankIsUnset | src/utils/env.ts:3 | a value of only spaces counts as missing, and a non-blank value does not |
| Env.OnlyPortMissing | src/utils/env.ts:2-5 | when only `DB_PORT` is missing, the message names it alone |
| Env.AwsConfigStatus | src/utils/env.ts:9-12 | S3 is enabled iff both region and bucket are set, and both are reported as given |
| ReportService.OldestFirstOrder | src/services/reportService.ts:18 | `date ASC, id ASC` is a total preorder |
| ReportService.ReportRowsSpec | src/services/reportService.ts:14-20 | the report holds exactly the group's entries dated within the period, both ends included, each as often as the table holds it, oldest first |
| ReportService.EmptyPeriod | src/services/reportService.ts:17 | a period that ends before it starts has no entries |
| ReportService.SumInsert | src/services/reportService.ts:21-26 | inserting a row into a sorted sequence adds its term to any sum |
| ReportService.SumSortBy | src/services/reportService.ts:18-26 | sorting leaves every sum unchanged |
| ReportService.TotalsIgnoreOrder | src/services/reportService.ts:18-26 | the totals are those of the period's entries in table order |
| ReportService.BalanceIsSignedSum | src/services/reportService.ts:31 | the balance is the sum of the entries' signed amounts, with income added and expense subtracted |
| ReportService.WholeHistoryMatchesStats | src/services/reportService.ts:13-32 | a period covering every entry of the group reports the same income, expense and balance as the group's statistics |
| ReportService.TotalsNonNegative | src/services/reportService.ts:21-30 | under the amount CHECK, both totals are non-negative |
| ReportService.SumPrefixStep | src/services/reportService.ts:23-26 | each loop step adds one row's amount to the running sum |
| ReportService.FetchReportData | src/services/reportService.ts:13-33 | the loop returns the query's rows with income, expense and balance equal to the totals of those rows |
| ReportService.SignOf | src/services/reportService.ts:57 | one character, `+` iff the entry is income |
| ReportService.DescriptionCell | src/services/reportService.ts:58 | a non-empty description is printed as is, and an empty one as `-` |
| ReportService.BlankDescriptionLooksLikeDash | src/services/reportService.ts:90 | an empty description and the description `-` print alike |
| ReportService.ReceiptCell | src/services/reportService.ts:91 | empty iff there is no receipt URL or it is empty, and otherwise the URL |
| ReportService.SheetRowOf | src/services/reportService.ts:86-92 | a sheet row carries the entry's type, amount, description cell and receipt cell |
| ReportService.SheetRows | src/services/reportService.ts:85-93 | one sheet row per entry, in the report's order |
| ReportService.SheetRowsBalance | src/services/reportService.ts:85-93 | the signed amounts of the sheet's rows add up to the balance printed above them |
| ReportsController.NormalizeRange | src/controllers/reportsController.ts:5-11 | a non-empty `from` or `to` is kept. A missing or empty one is replaced by the clock's day text for it: `monthStart` for `from` and `today` for `to` |
| ReportsController.EmptyFromIsDefaulted | src/controllers/reportsController.ts:8 | an empty `from` is replaced like a missing one |
| ReportsController.FilenameFields | src/controllers/reportsController.ts:21-36 | the attachment name splits at `_` into `report`, the group key, which parses back, the start, and the end with the extension |
| ReportsController.Summary | src/controllers/reportsController.ts:13-41 | 400 iff the group key is missing or zero and 403 iff the caller is not a member. 500 iff the key does not bind or a period end is not a date. Otherwise the period's rows, their totals, and the format's name and type |
| ReportsController.FormatsAgree | src/controllers/reportsController.ts:13-41 | the PDF and spreadsheet routes refuse alike and report the same rows and totals |
| ReportsController.DefaultPeriodReport | src/controllers/reportsController.ts:5-21 | a member's request without dates reports the group's entries between the two clock day texts, both included, when the database reads both |
| ValidateMiddleware.AsBool | src/middleware/validate.ts:111 | a boolean is kept, and only a boolean or a text can convert to one |
| ValidateMiddleware.Check | src/middleware/validate.ts:61-119 | a converted value satisfies its rule, and a value already in converted form is kept unchanged. A number field passes iff its reading is a safe number (within ±(2^53−1)) meeting the bounds. A text field passes iff it meets its rule. A date passes iff it is `YYYY-MM-DD`, kept as is, or an ISO date, which becomes its `toISOString()` text |
| ValidateMiddleware.ValidateObject | src/middleware/validate.ts:14-22 | a key is reported iff it fails its rule or is required and missing, and the result holds exactly the known keys that pass, with their converted or default values |
| ValidateMiddleware.ValidObjectHasNoFailingKey | src/middleware/validate.ts:19-23 | validation reports nothing iff no field fails |
| ValidateMiddleware.ValidObjectFields | src/middleware/validate.ts:14-22 | after a clean validation, a field is present iff it was given or is not optional. A given field meets its rule, and a missing defaulted field holds its default |
| ValidateMiddleware.RevalidateField | src/middleware/validate.ts:14-22 | each field of a validated object validates again to itself |
| ValidateMiddleware.RevalidateKey | src/middleware/validate.ts:14-22 | validating a validated object again keeps every key and value |
| ValidateMiddleware.RevalidateEntries | src/middleware/validate.ts:14-22 | validating a validated object again gives the same object |
| ValidateMiddleware.ValidateIdempotent | src/middleware/validate.ts:37-52 | validating again what the middleware left reports nothing and changes nothing |
| ValidateMiddleware.JsObject.DeleteKeysNotIn | src/middleware/validate.ts:40-50 | exactly the keys absent from the validated object are deleted, and the rest keep their values |
| ValidateMiddleware.JsObject.Assign | src/middleware/validate.ts:43-51 | the validated entries are copied over the object's |
| ValidateMiddleware.JsObject.ReplaceWith | src/middleware/validate.ts:37-52 | deleting the stale keys and then assigning leaves exactly the validated object |
| ValidateMiddleware.Validate | src/middleware/validate.ts:9-55 | 400 iff either part has a failing key, with those keys as details and both objects unchanged. Otherwise each part with a schema becomes exactly its validated object, a part without one is untouched, and `next` runs |
| ValidateMiddleware.ListQueryWellFormed | src/middleware/validate.ts:60-64 | the list schema's keys are distinct and its defaults meet its rules |
| ValidateMiddleware.ListQueryKeys | src/middleware/validate.ts:60-64 | a validated list query holds exactly `groupId`, `limit` and `page` |
| ValidateMiddleware.ListQueryBounds | src/middleware/validate.ts:61-63 | in a validated list query the group is an integer, `limit` is an integer in 1..200 defaulting to 50, and `page` is an integer of at least 1 defaulting to 1 |
| ValidateMiddleware.CreateBodyWellFormed | src/middleware/validate.ts:67-76 | the create schema's keys are distinct |
| ValidateMiddleware.CreateBodyBounds | src/middleware/validate.ts:67-76 | a validated create body has an integer group, the type income or expense, an amount of at least 1, a non-empty description and a date |
| ValidateMiddleware.CreateBodyUnsafeAmount | src/middleware/validate.ts:70 | a JSON amount beyond the safe integers reports `amount` |
| ValidateMiddleware.CreateBodyNeedsAmount | src/middleware/validate.ts:70 | a create body without an amount reports `amount` |
| ValidateMiddleware.DuesUpdateBounds | src/middleware/validate.ts:108-112 | a validated dues update carries a boolean `isPaid` |
| ValidateMiddleware.AcceptBodyBounds | src/middleware/validate.ts:116 | a validated accept body carries a code of at least four characters |

## Left out

- Concurrency. Every handler runs alone, start to finish. The check-then-act sequences race under parallel requests, and the model does not capture that. These are the admin counts before a role change or leave, the draw-until-unused code loops, the e-mail check before insert, and the two statements of group creation.
- Codes.DrawUntilFresh: the source loop draws without bound. The model takes a finite supply of draw batches and requires that one of them yields an unused code, so a run that never finds one is not modelled. The same requirement is carried by GroupModel.CreateGroup, InvitationModel.CreateInvitation, GroupsController.Create and GroupsController.CreateInvite.
- Clock and randomness. `NOW()`, `Date.now()` and the current day are one `now` or day-text parameter, and `Math.random` is a sequence of draws in [0, 1). The cron schedules and the Asia/Seoul time zone of the server jobs are not modelled.
- PostgreSQL's reading of date text is the `parseDate` parameter. The truncation of a date to its month is the `monthOf` parameter, and months are integer indices.
- Amounts are integer cents. The `::float8` casts, `Number(amount)` and floating-point rounding are not modelled.
- GroupsController.EffectiveTtl: `ttlHours` is an integer here. A fractional or non-numeric value the source would pass to the interval arithmetic is not modelled.
- TransactionsController.EffectiveLimit requires a limit in 1..200 and TransactionsController.EffectivePage a page of at least 1, as the list route's validation guarantees before the handler runs.
- ValidateMiddleware.ValidateObject reports one detail per failing key. Joi may report two for one key, for example both `integer` and `min`.
- AuthController.Register: `email` and `name` are taken to be JSON strings, and so is `email` in AuthController.Login. node-postgres would bind another JSON value as its text form.
- ValidateMiddleware.Validate: details are the failing keys, not Joi's message texts. Joi's conversion of text to numbers is a parameter, and so is the check, made while reading text, that the digits survive the conversion. The safe-integer range applies to every number and is modelled. Joi's ISO-date test and its `toISOString()` conversion are one parameter, which returns text that converts to itself. `req.body` and `req.query` are taken to be objects.
- Only the foreign keys that the properties rely on are invariants of `Store.Database.Valid()`. These are memberships, invitations, transactions and notification logs. The foreign keys of dues, preferences and push subscriptions are checked when a row is inserted, not kept as invariants.
- Reminders.SentLogs: a log insert that raises still uses up a SERIAL key in PostgreSQL. The model draws no key for a row whose send or log fails.
- NotificationsController.ListLogs orders by `sent_at` descending. The order among rows with the same `sent_at` is left to the database, and the model does not fix it.
- SQL reads without `ORDER BY` are taken to return rows in table order.
- DuesModel.ListDuesSpec: names are ordered by code point. The database's collation is not modelled.
- TransactionModel.CategoryStatsSpec: categories with equal totals are ordered by code point. The database's collation, which `category ASC` follows, is not modelled.
- NotificationsController.Int4OfText reads an optional minus sign and decimal digits. PostgreSQL also accepts surrounding spaces and a leading plus sign, and from version 16 underscores and `0x`, `0o` and `0b` prefixes. Those texts are taken to make the query raise.
- ReportsController.NormalizeRange takes its default days as the `monthStart` and `today` parameters. The server computes them as UTC calendar days of local instants: local midnight on the first of the month, and now. East of UTC, `monthStart` is the last day of the previous month, and `today` is yesterday for the first hours of the local day.
- Text.ToLowerAscii lowers ASCII letters only. Unicode case mapping is not modelled.
- ServerJobs.DailySweep: a failure of the reminder query itself is not modelled. Only failures of sends and log inserts within the loop are.
- TransactionsController.Monthly: a `months` so large that the window starts before 4714 BC makes PostgreSQL raise "timestamp out of range" (500). The model answers with the buckets.
- PushController.GetVapidKey, PushController.Subscribe and PushController.Unsubscribe are modelled as written, but src/routes/index.ts mounts no push router, so no request reaches them in the program as it stands.
- Other database errors are not modelled, such as a lost connection or a timeout. Only the constraint violations and the unbindable parameters of the cited statements are.
- Password hashing and token signing and verification (`jwtService.ts`, bcrypt) are parameters that may refuse.
- Signing of S3 URLs is the `sign` parameter, and the 5-minute expiry is not modelled.
- Writing the file in `saveLocalFile` is file-system I/O and is not modelled. Only the key it builds is. `path.join` normalisation is modelled as joining with the platform separator.
- The `Host` header is taken to be present when URLs are built.
- The OCR extraction (`ocrService.ts`, a network call to a model service) is not part of this model. `parseReceipt` ends by handing the file over.
- Delivery of Web Push messages is the `Deliver` parameter. The VAPID setup and its console warnings are not modelled.
- Building the PDF and spreadsheet documents is not modelled, nor are `toLocaleString` formatting and the date column. Only the rows, totals, per-row cells and attachment names are.
- Console logging (`notificationService.ts`, `console.info`, `console.warn`, `console.error`) has no effect on state and is not modelled.
- A by-category route is declared in the routes but has no schema or handler in the source, so it is not modelled. The category statistics of the transaction model are modelled.
- `errorHandler.ts` and `userPreferencesController.ts` only pass values through, and are not part of this model. Express routing, the app setup and the schema migrations are not part of it either.

## Findings

| source | as written | input that shows it | evidently intended | confidence | as-written member | corrected member |
|---|---|---|---|---|---|---|
| src/controllers/invitationsController.ts:13-18 | accepting an invitation always inserts the caller as `member` (`ON CONFLICT DO NOTHING`) | group 10 whose only row is admin 1. Admin 1 leaves, which is allowed because no other member remains. User 2 then accepts an invitation issued earlier, and group 10 has a member and no admin | every group with members keeps an admin: the first to join a group without one becomes its admin | not executed | InvitationsController.JoinAsMember, InvitationsController.JoinAsMemberLosesAdmin | InvitationsController.Join, InvitationsController.JoinKeepsAdmin, InvitationsController.AcceptCorrected |
