# A verified model of the lending, reporting, import and seeding logic

This project models the parts of a multi-tenant Hyku repository (a Rails application for
institutional repositories) that hold real logic, and proves what they promise:

- **Controlled digital lending.** A sign-in grants leases on works and then revokes the ones that
  have run out; a lease is a row plus membership in a group named after the work; a background job
  stamps that group on the work and everything below it; `Ability` turns membership into
  readability. `WorkAuthorization.dfy`, `LeaseHistory.dfy`, `Interleaving.dfy`, `GroupJob.dfy`,
  `Access.dfy` and `ScopeParser.dfy` go from the OAuth scope string of a sign-in to who can read which node.
- **COUNTER/SUSHI queries.** `YearFilter.dfy` is the compiler from a year-of-publication filter to a
  parameterised WHERE clause, `AuthorFilter.dfy` the encoded author list with its `LIKE` condition,
  `Calendar.dfy` and `ReportingWindow.dfy` the months that can be reported on and the coercion of
  request dates.
- **Imports and retries.** `CounterImport.dfy` holds the two upsert importers on one table,
  `AttachFiles.dfy` the job that may stop between any two writes, `RoleSeeding.dfy` the
  find-or-create loops for roles, groups and grants.
- **Rows and sort keys.** `CsvRow.dfy` validates CSV headers and extracts rows, `SortKeys.dfy` builds
  the date and title keys of the index.

`Prelude.dfy` and `Text.dfy` hold shared datatypes and the laws of the string operations used.

Objects that the source updates in place are classes whose methods are proved against functions on
values; the main results are lemmas about those functions, over every input, every run or every
reachable state. Times and days are integers or plain dates, and a database transaction is one step;
`LeaseHistory.dfy` takes a whole sign-in as one step, `Interleaving.dfy` each of its transactions.

## What the proofs found

The code is modelled as written. Where it departs from its own documentation, a lemma gives an input
and another says exactly when the two agree.

- *Unknown pids abort a sign-in.* `WorkNotFoundError` and `GroupNotFoundError` dereference the nil
  they report, so raising them ends in `NoMethodError`, which the rescue clause does not catch: pids
  before the unknown one stay granted and nothing is revoked. The rescue clause shows that skipping
  was meant (`UnknownPidKeepsExpiredLease`). `SkippingExactly` says for which stores and requests the
  difference shows.
- *Two interleaved sign-ins of one user can lose a fresh lease.* The expired pids are listed first
  and revoked in later transactions (`LosingMerge`). `LeaseLostExactly` says which merges of any number
  of sign-ins lose a lease, `FreshLeaseLostExactly` which merges of two; different users never disturb
  each other (`UsersDoNotInterfere`).
- *A re-created group has lost its members.* Rows and memberships part there
  (`RecreationPartsRowAndMember`); `MemberIffGrantCurrent` is the law that covers it.
- *Seven performs, not six.* The group job's test name says it retries at most 5 times; the guard
  `retries > RETRY_MAX` lets it requeue 6 times, so a chain has up to 7 performs (`ChainsAreShort`,
  `LongestChain`). `ChainLengthExactly` and `LongestChainExactly` say which chains get that long.
- *A URL prefix ending in `/concern` hides the pid.* The unanchored expression then matches one
  segment early (`ConcernAtEndOfBaseFails`); `UrlYieldsPidExactly` gives the exact condition.
- *An author query with `%`, `_` or a backslash is a pattern.* `MetacharacterMisleads`,
  `FilterIsMembershipExactly`.
- *A filter without any slug compiles to `()`.* `PipeCompilesToNothing`, `ReadableClauseExactly`.
- *The advertised reporting window may be refused.* Requests are checked against raw entry dates,
  not whole months: `AdvertisedWindowAcceptedExactly`, `AdvertisedWindowRefused`.
- *Future-dated metrics put the window out of order.* `FutureWindowOutOfOrder`,
  `WindowOrderedExactly`.
- *Only the requests importer raises on a work without resource types.* `OnlyRequestsRaise`,
  `RequestsCompleteExactly`.
- *An attachment can be lost for good.* `StoppedRunLoses`, `LostExactly`, `LostForever`.
- *An upload can be attached twice.* A list that repeats it defeats the guard
  (`ListedTwiceAttachedTwice`); `AtMostOnceExactly` and `NeverAttachedTwiceExactly` give the condition
  for any run and any sequence of runs.
- *The last stamp overwrites.* A work stamped later takes the nodes it shares with an earlier one
  (`SharedPageIsTaken`, `TreeStaysStampedExactly`).
- *Repeated `id`, `type` and `collection_` headers lose cells.* `RepeatedIdLosesCell`;
  `CellLostExactly` says which cells of a row are lost.
- *Blank header cells shift columns.* `BlankHeaderShifts`, `CompactAlignsExactly`.
- *The date format check changes nothing.* A comment says that an unrecognised date is indexed as
  given, but the padded string is stored either way (`UnrecognisedDateIsPadded`); `PaddingKeepsExactly`
  and `PromiseKeptExactly` say for which dates that makes no difference.
- *A header row that passed validation can still raise.* `ValidatedHeadersRaise`, `ValidatedRaisesExactly`.
- *The key of a title is not always its own key.* An article may come to the front
  (`ArticleComesToFront`, `KeyOfKey`).
- *More than six digits sort out of order.* `LongNumberOutOfOrder`; six is the exact bound in every
  title (`WidthIsExact`).

## Model

| member | source | states |
|---|---|---|
| ScopeParser.PidAtStartMatchesShape | app/models/work_authorization.rb:74 | at one position the expression matches exactly the strings `/concern/type/pid` with an optional query, and captures that pid |
| ScopeParser.UrlYieldsPidExactly | app/models/work_authorization.rb:74-115 | for a URL prefix, every work URL on it yields its own pid iff no match can start inside the prefix |
| ScopeParser.UncleanHasConcern | app/models/work_authorization.rb:74 | a prefix on which that fails has `/concern/` in it once a slash follows |
| ScopeParser.ConcernAtEndOfBaseFails | app/models/work_authorization.rb:74 | a prefix free of `/concern/` that ends in `/concern` yields the wrong pid |
| ScopeParser.ExtractPidsByElement | app/models/work_authorization.rb:109-116 | whatever whitespace separates them, a scope's elements are matched one by one and non-matching ones contribute nothing |
| ScopeParser.ScopeRoundTrip | app/models/work_authorization.rb:109-116 | extracting pids undoes building a scope from work URLs and other elements: exactly the pids, in order |
| WorkAuthorization.Authorizations.Authorize | app/models/work_authorization.rb:129-139 | finds or creates the row, sets title and expiry and adds the member; a missing work or group raises and changes nothing |
| WorkAuthorization.Authorizations.RevokeWork | app/models/work_authorization.rb:148-162 | destroys the user's rows for an existing work and, if its group exists, the membership; a missing work changes nothing |
| WorkAuthorization.Authorizations.HandleSignin | app/models/work_authorization.rb:46-67 | a sign-in grants in order up to the first pid that does not resolve, and revokes what has expired iff all resolve |
| WorkAuthorization.RequestedExactly | app/models/work_authorization.rb:49-50 | what a sign-in asks for: the argument's pids, be it none, one or a list, then exactly the pids of the scope's work URLs, in order |
| WorkAuthorization.CompletesExactly | app/models/work_authorization.rb:52-60 | a sign-in completes iff every pid it asks for is a work with its group, and otherwise ends in NoMethodError |
| WorkAuthorization.OnePidIsGranted | app/models/work_authorization.rb:46-67 | a sign-in with one known pid and no scope completes and leaves the user with that row and membership |
| WorkAuthorization.BareSigninOnlyRevokes | app/models/work_authorization.rb:46-67 | a sign-in that asks for nothing completes and only takes the user's leases that have run out |
| WorkAuthorization.GrantedIsPrefix | app/models/work_authorization.rb:52-60 | the pids granted are the longest resolving prefix of the request |
| WorkAuthorization.ExpiredMeans | app/models/work_authorization.rb:63 | a pid is among the expired ones iff the user's one row for it expires at or before the revoke time |
| WorkAuthorization.SignInEffect | app/models/work_authorization.rb:46-67 | the exact effect of a sign-in on the lease and membership of any user for any work, with uniqueness of rows kept |
| WorkAuthorization.SignInLeavesOthers | app/models/work_authorization.rb:46-67 | rows and memberships of every other user are untouched |
| WorkAuthorization.GrantWritesRow | app/models/work_authorization.rb:134-135 | a grant writes the work's present title and the new expiry into the one row |
| WorkAuthorization.RevokeUndoesGrant | app/models/work_authorization.rb:129-162 | revoking right after a first authorization restores the whole store |
| WorkAuthorization.SkippingExactly | app/models/work_authorization.rb:52-66 | for every store and request, skipping unknown pids leaves the very store the code leaves iff there are none, or the pids behind the first are held already and no lease has run out |
| WorkAuthorization.UnknownPidKeepsExpiredLease | app/models/work_authorization.rb:15-25 | an unknown pid keeps an expired lease alive that skipping would have revoked |
| LeaseHistory.RowsStayUnique | app/models/work_authorization.rb:134 | over every run there is at most one row per user and work |
| LeaseHistory.LeaseInvariantHolds | app/models/work_authorization.rb:46-67 | over every well-timed run a row carries the last grant's expiry, and a grant without a row was over at the last completed sign-in |
| LeaseHistory.LeaseHistoryExact | app/models/work_authorization.rb:33-67 | right after a completed sign-in the rows for existing works are exactly the pids whose last successful grant outlasts the revoke time |
| LeaseHistory.WorksAndGroupsExactly | app/models/work_authorization.rb:46-67 | over every run, which works and groups there are is decided by their own steps alone; sign-ins create and destroy none |
| LeaseHistory.MembershipExact | app/models/work_authorization.rb:129-162 | over every run a user is in a lending group iff there is a row, granted since the group was last destroyed |
| LeaseHistory.RowsAreMembers | app/jobs/destroy_cdl_group_job.rb:6-8 | rows and membership coincide for a group that was never destroyed |
| LeaseHistory.MemberIffGrantCurrent | app/models/work_authorization.rb:46-67 | right after a completed sign-in membership means exactly that the last grant outlasts the revoke time and that there was one since the group was last destroyed |
| LeaseHistory.MemberOfKeptGroup | app/models/work_authorization.rb:46-67 | for a group never destroyed that is the last grant alone |
| LeaseHistory.RecreationPartsRowAndMember | app/models/hyrax/group.rb:107-109 | a current lease survives its group's destruction, re-creation and the next completed sign-in as a row, but without membership |
| Interleaving.SignInIsItsTransactions | app/models/work_authorization.rb:46-67 | a sign-in that nothing interrupts is the run of its transactions |
| Interleaving.RunIsItsTransactions | app/models/work_authorization.rb:46-67 | every run of whole steps is one of the interleavings of their transactions |
| Interleaving.RowsUniqueThroughout | app/models/work_authorization.rb:133-134 | at most one row per user and work, however transactions interleave |
| Interleaving.CommitEffect | app/models/work_authorization.rb:133-161 | the exact effect of one transaction on any user's lease on any work |
| Interleaving.MembershipThroughout | app/models/work_authorization.rb:129-162 | in every interleaving membership means a row, authorized since the group was last destroyed |
| Interleaving.UsersDoNotInterfere | app/models/work_authorization.rb:46-67 | what a user ends up with does not depend on how other users' transactions came in between |
| Interleaving.SignInsInTurnKeepLease | app/models/work_authorization.rb:62-66 | two sign-ins of one user in turn, whatever each asks for, keep every lease that the second grants |
| Interleaving.LeaseIsLastTouch | app/models/work_authorization.rb:129-162 | the lease history of any interleaving: what a user holds on a work is what the last effective authorization or revocation of it left |
| Interleaving.ListedExactly | app/models/work_authorization.rb:63 | in any merge of any number of sign-ins of one user, a sign-in lists a pid iff its lease had run out and nobody authorized or revoked it before that moment |
| Interleaving.LeaseLostExactly | app/models/work_authorization.rb:46-67 | in any such merge a pid that some sign-in authorizes ends without a lease iff a sign-in that had listed it revokes it after every authorization of it |
| Interleaving.FreshLeaseLostExactly | app/models/work_authorization.rb:46-67 | in any merge of two sign-ins of one user the second's lease is lost iff the first had listed the pid and revokes it after every authorization of it |
| Interleaving.LosingMerge | app/models/work_authorization.rb:62-66 | such a merge exists: listing expired pids and revoking them is not one transaction |
| GroupJob.ReachesIff | app/jobs/create_group_and_add_members_job.rb:43-49 | lying below a work at any depth is lying at or below one of its members |
| GroupJob.MembersAreLower | app/jobs/create_group_and_add_members_job.rb:43-49 | on an acyclic graph less lies below a member than below its parent, so the recursion ends |
| GroupJob.CountIsPositions | app/jobs/create_group_and_add_members_job.rb:21 | the count of child works is the number of members of that model |
| GroupJob.DecideExactly | app/jobs/create_group_and_add_members_job.rb:15-38 | which way a perform goes, in terms of the works and file sets there: not found, raised, stamped iff the first file set's page count is the number of child works, given up beyond five retries, or requeued with one more |
| GroupJob.Repository.AssignReadGroups | app/jobs/create_group_and_add_members_job.rb:43-49 | the recursion terminates on an acyclic graph and leaves exactly [group] on all it reaches and nothing else changed |
| GroupJob.Repository.StampMembers | app/jobs/create_group_and_add_members_job.rb:27-29 | the loop over the members stamps exactly what lies at or below one of them |
| GroupJob.Repository.Perform | app/jobs/create_group_and_add_members_job.rb:15-39 | which way a perform goes; the group is created and the tree stamped only when page count equals child count |
| GroupJob.ChainsAreShort | app/jobs/create_group_and_add_members_job.rb:33-38 | every requeue chain has at most RETRY_MAX + 2 performs, and only the last can have changed a read group |
| GroupJob.LongestChain | app/jobs/create_group_and_add_members_job.rb:33-38 | the bound is met by a work whose pages never all arrive |
| GroupJob.ChainLengthExactly | app/jobs/create_group_and_add_members_job.rb:19-38 | a finished chain goes beyond n performs, for n up to RETRY_MAX + 1, iff each of the first n found a work with a file set and pages missing |
| GroupJob.LongestChainExactly | app/jobs/create_group_and_add_members_job.rb:33-38 | a finished chain has RETRY_MAX + 2 performs iff every one but the last found the work so |
| Access.Ability.AllUserAndGroupRoles | app/models/ability.rb:91-100 | a name is in the result iff it is a default role and a saved user has it on the site, itself or through one of its groups; memoised |
| Access.Ability.ComputeUserGroups | app/models/ability.rb:36-47 | default groups, memberships, `registered` iff the user is saved and has any role at all, and those role names, together; memoised |
| Access.JoiningAddsRoles | app/services/group_aware_role_checker.rb:17-26 | joining a group adds its name, `registered` and every default role of the group to a saved user's groups, and nothing else |
| Access.StampedReadability | app/models/ability.rb:32-47 | who can read a node of a stamped tree: members, and those whose user groups hold the pid another way |
| Access.GrantOpensTree | app/models/work_authorization.rb:129-139 | authorizing a user opens the whole tree at every depth |
| Access.GrantEffectOnUserGroups | app/models/ability.rb:36-47 | a lease adds the work's group and `registered` to the user's groups, and no role |
| Access.RevokeClosesTree | app/models/work_authorization.rb:148-162 | after revoking, no node is readable unless the pid is also a role or default group name of the user |
| Access.JobThenLease | app/jobs/create_group_and_add_members_job.rb:23-49 | once the job has stamped the tree, a grant opens every node of it at any depth and a revocation closes every one |
| Access.ReadableIffGrantCurrent | app/models/work_authorization.rb:46-67 | end to end: right after a completed sign-in a node at any depth is readable iff the last grant outlasts the revoke time and there was one since the group was last destroyed |
| Access.ReadersHaveRows | app/models/work_authorization.rb:129-162 | at every moment of every run, who can read a stamped tree has a row for it |
| Access.TreeStaysStampedExactly | app/jobs/create_group_and_add_members_job.rb:27-49 | when several works are stamped, a tree stays stamped iff no work stamped later shares a node with it |
| Access.ReadableIffLastStampCurrent | app/jobs/create_group_and_add_members_job.rb:27-49 | end to end after any series of performs: a node is readable iff the lease on the work that stamped it last stands |
| Access.SharedPageIsTaken | app/jobs/create_group_and_add_members_job.rb:27-49 | a page that two works share goes to the one stamped later |
| YearFilter.ReadSlugExactly | app/models/sushi.rb:477-487 | a slug is read as an item iff it spells that item: digits, hyphen, digits, or one integer |
| YearFilter.ReadSlugAccepts | app/models/sushi.rb:477-494 | a slug is refused iff it spells nothing |
| YearFilter.IntegersRead | app/models/sushi.rb:482-486 | integers are read digit by digit, in octal after a leading zero, with a sign; nothing else is one |
| YearFilter.SlugsAreStrippedParts | app/models/sushi.rb:477-478 | the slugs are the parts between the pipes, each stripped, without the blank ones at the end of several |
| YearFilter.YearOfPublicationCoercion.CollectClauses | app/models/sushi.rb:474-488 | the loop pushes the clauses and values of all slugs, or fails on the first malformed one |
| YearFilter.YearOfPublicationCoercion.CoerceYop | app/models/sushi.rb:468-495 | both result fields are assigned on success and neither on failure |
| YearFilter.ClauseMeans | app/models/sushi.rb:481-485 | one clause is one SQL condition that means what its item covers and binds just its own values |
| YearFilter.WhereMeans | app/models/sushi.rb:490 | the whole clause parses, uses every value and means the union of the items |
| YearFilter.MarksAgree | app/models/sushi.rb:490 | there are as many values as question marks |
| YearFilter.CompilePreservesMeaning | app/models/sushi.rb:468-495 | the compiler accepts exactly the well-formed filters, and a row's year satisfies the clause iff the filter lists it |
| YearFilter.ReadableClauseExactly | app/models/sushi.rb:477-490 | an accepted parameter gives a readable clause iff it holds a slug |
| YearFilter.PipeCompilesToNothing | app/models/sushi.rb:477-490 | a lone pipe is accepted and compiles to `()`, which no row can be matched against |
| YearFilter.SlugsOfBlankedTexts | app/models/sushi.rb:477-478 | blanks around the pipes do not matter |
| YearFilter.SpelledFilterMeans | app/models/sushi.rb:452-490 | from any list of items, however spelled and blanked, to text, through the compiler, to a clause that means that list |
| YearFilter.DecimalFilterMeans | app/models/sushi.rb:452-490 | in particular for the decimal spelling of every list of years and spans |
| YearFilter.CompiledExamples | app/models/sushi.rb:471-490 | two filters with the very clauses and values that they compile to |
| YearFilter.InvertedSpanIsEmpty | app/models/sushi.rb:465-467 | a span written the wrong way round lists no year |
| AuthorFilter.EncodingRoundTrip | app/models/sushi.rb:387-403 | deserializing what was serialized gives every author split at pipes, blanks dropped; the empty list goes through nil |
| AuthorFilter.RoundTripExactly | app/models/sushi.rb:387-403 | the lists that survive are exactly those without blanks and pipes |
| AuthorFilter.SerializedText | app/models/sushi.rb:398-403 | authors are stored between pipes, with one pipe between two; no authors, no text |
| AuthorFilter.LikeContains | app/models/sushi.rb:442 | a literal between percent signs matches exactly the texts that contain it |
| AuthorFilter.FilterIsMembership | app/models/sushi.rb:436-443 | for a literal query the condition on the encoded column is list membership |
| AuthorFilter.LegacyRowMatchesItself | app/models/sushi.rb:437-442 | an unencoded row matches exactly its own text |
| AuthorFilter.FilterIsMembershipExactly | app/models/sushi.rb:442 | the queries for which that holds on every list are exactly those without LIKE metacharacters |
| AuthorFilter.MetacharacterMisleads | app/models/sushi.rb:442 | every query with a live metacharacter finds an author that it is not |
| AuthorFilter.AuthorCoercion.CoerceAuthor | app/models/sushi.rb:415-427 | a query is accepted iff it is pipe-free and some row matches; the author is assigned even when it is refused |
| Calendar.EndOfLastMonth | app/models/sushi.rb:124 | for every date, leap years and clamping included, the end of the month before is the day before the current month |
| Calendar.MonthBounds | app/models/sushi.rb:73-75 | a month's first and last day bound exactly that month |
| Calendar.MonthLengthIsDayCount | app/models/sushi.rb:124 | the length of every month is the distance to the next one in the Gregorian day count |
| ReportingWindow.WindowIsWholeMonths | app/models/sushi.rb:68-129 | both month functions succeed iff some metric is of a month that is over and otherwise both raise; the window is whole months, in order, before the current month, and holds exactly the metrics of months that are over |
| ReportingWindow.LastIsMinimum | app/models/sushi.rb:97-129 | the last day is the earlier of the latest entry's month end and the day before the current month |
| ReportingWindow.WindowOrderedExactly | app/models/sushi.rb:103-105 | the window is in order iff some metric predates the current month |
| ReportingWindow.FutureWindowOutOfOrder | app/models/sushi.rb:103-105 | a concrete table of future metrics whose window ends before it starts |
| ReportingWindow.Sushi.ValidateDateFormat | app/models/sushi.rb:20-31 | succeeds iff every date has one of the two formats, and remarks on each day form before the first bad one |
| ReportingWindow.AmendedMeans | app/models/sushi.rb:22-27 | the dates remarked on are those in the long form that no malformed date precedes |
| ReportingWindow.AmendedOfTwo | app/models/sushi.rb:22-27 | of a begin and an end date, in order |
| ReportingWindow.DateCoercion.CoerceDates | app/models/sushi.rb:183-209 | how a coercion ends, what it has assigned by then and what it has remarked on |
| ReportingWindow.RequestedMonths | app/models/sushi.rb:183-206 | for texts that spell two months, with or without a day: the first of the one and the last of the other are assigned, and which error is raised, in the order of the checks |
| ReportingWindow.RefusedTexts | app/models/sushi.rb:20-51 | what is refused before that: a missing date, a text in neither form, a month that no year has |
| ReportingWindow.DateTextsSpellMonths | app/models/sushi.rb:22 | the texts of the two forms are exactly those that spell a year and a two-digit month, with or without two digits for a day |
| ReportingWindow.MonthIsReadAsFirst | app/models/sushi.rb:41-46 | a month alone is read as its first day |
| ReportingWindow.RealDayIsRead | app/models/sushi.rb:38-39 | a real date in full is read as that date |
| ReportingWindow.AcceptedExactly | app/models/sushi.rb:183-209 | exactly which requests are accepted |
| ReportingWindow.AcceptedRange | app/models/sushi.rb:189-206 | an accepted request runs from the first of a month to the last of a month within the data |
| ReportingWindow.DayDoesNotMatter | app/models/sushi.rb:38-51 | only year and month matter, even with a day that the month does not have |
| ReportingWindow.AdvertisedWindowAcceptedExactly | app/models/sushi.rb:194-206 | the advertised window is accepted iff the earliest entry is on the first of its month and the latest reaches the last day |
| ReportingWindow.AdvertisedWindowRefused | app/models/sushi.rb:194-199 | a concrete table for which the advertised months are refused |
| CsvRow.ValidateHeaders | lib/importer/csv_parser.rb:32-61 | headers are accepted iff every one is known or a type header and every type header is followed by its field |
| CsvRow.UnknownHas | lib/importer/csv_parser.rb:34-41 | the first error names exactly the headers that are neither known nor type headers |
| CsvRow.UnpairedHas | lib/importer/csv_parser.rb:49-60 | the second names exactly the type headers that their field does not follow |
| CsvRow.DateHeaders | lib/importer/csv_parser.rb:85-89 | each of the four date prefixes feeds its own key, under the field that the rest of the header names |
| CsvRow.TypeHeaderOf | lib/importer/csv_parser.rb:55 | a field's type header is led back to that field, unless the field has the suffix inside it |
| CsvRow.RowParser.ExtractCell | lib/importer/csv_parser.rb:79-107 | one cell goes to its key as its header's branch says, or raises and changes nothing |
| CsvRow.RowParser.ExtractRow | lib/importer/csv_parser.rb:71-77 | a row is the extraction of its columns in order |
| CsvRow.KeysAreIndependent | lib/importer/csv_parser.rb:71-150 | each key depends only on the cells of its own columns, in column order |
| CsvRow.ExtractionRaisesExactly | lib/importer/csv_parser.rb:79-150 | a row raises iff two successive cells of one key clash in shape |
| CsvRow.ValidatedDatesUntyped | lib/importer/csv_parser.rb:32-61 | validated headers aim no type header at a date key |
| CsvRow.CanRaiseExactly | lib/importer/csv_parser.rb:71-150 | some row raises iff two columns of one key clash in shape |
| CsvRow.ValidatedRaisesExactly | lib/importer/csv_parser.rb:32-150 | the validated headers that can raise are those with a type header for `id` or `type` behind that column, or a `collection` column beside a collection field |
| CsvRow.ValidatedHeadersRaise | lib/importer/csv_parser.rb:32-150 | two such header rows pass validation and have a row that raises |
| CsvRow.ListKeyColumn | lib/importer/csv_parser.rb:79-107 | a list key is fed by its own header and its type headers only |
| CsvRow.ListKeyHolds | lib/importer/csv_parser.rb:71-140 | a list key of an extracted row holds the grouping of its own cells in column order, one leaf for each |
| CsvRow.CellBecomesLeaf | lib/importer/csv_parser.rb:71-140 | every non-nil cell of such a column is the leaf at its place among the key's cells: as it is when it is a type or completes a typed entry, otherwise stripped, and but for contributors without its carriage returns |
| CsvRow.CleanExactly | lib/importer/csv_parser.rb:120-122 | a cleaned cell is what its stripped text makes without carriage returns, every other character in its place; a plain cell stays itself |
| CsvRow.FoldIsGrouping | lib/importer/csv_parser.rb:99-140 | filling the hash in place gives the entries of a plain grouping: a type cell takes the field's cell right after it |
| CsvRow.AwaitsExactly | lib/importer/csv_parser.rb:100-102 | a name is awaited exactly after a type cell |
| CsvRow.EveryDateLands | lib/importer/csv_parser.rb:147-150 | under a date key every cell lands in the list of its field, in column order |
| CsvRow.LastCollectionCellWins | lib/importer/csv_parser.rb:142-145 | a collection field keeps only its last cell, as it is for `id` and `admin_policy_id` and in a list for the others |
| CsvRow.LastSingularCellWins | lib/importer/csv_parser.rb:82-84 | `id` and `type` keep only their last cell |
| CsvRow.CellLostExactly | lib/importer/csv_parser.rb:71-150 | a non-nil cell's text makes no difference to what its row extracts to iff a later non-nil cell overwrites it, of `id` or `type` or of the same collection field |
| CsvRow.RepeatedIdLosesCell | lib/importer/csv_parser.rb:82-84 | a repeated `id` header passes validation and only its last cell is kept |
| CsvRow.CompleteEntriesStay | lib/importer/csv_parser.rb:99-105 | an entry that is complete is never changed by later cells |
| CsvRow.TypedPairIsJoined | lib/importer/csv_parser.rb:47-61 | with validated headers an `H_type` cell and the `H` cell next to it become one entry |
| CsvRow.CompactAlignsExactly | lib/importer/csv_parser.rb:33 | headers keep their columns' positions iff no blank header precedes a filled one |
| CsvRow.BlankHeaderShifts | lib/importer/csv_parser.rb:33 | a blank header cell in front moves the next header to the wrong column |
| CounterImport.MetricsTable.Upsert | app/services/import_counter_metrics.rb:21-46 | finds the row for work and date and updates it, or creates it |
| CounterImport.MetricsTable.ImportInvestigations | app/services/import_counter_metrics.rb:8-48 | imports every line whose work exists |
| CounterImport.MetricsTable.ImportRequests | app/services/import_counter_metrics.rb:50-90 | imports the lines before the first whose work has no resource types, and raises there |
| CounterImport.ImportIsPointwise | app/services/import_counter_metrics.rb:8-90 | the table as a map: each imported key gets what its last line says, every other key is unchanged, keys stay unique |
| CounterImport.LastLineWins | app/services/import_counter_metrics.rb:18-46 | an imported key has its last line's count and date and, column by column, that work's id, worktype, year, first resource type, publisher and title, and its creators; other keys keep their rows |
| CounterImport.ImportedAuthorsAreFound | app/services/import_counter_metrics.rb:30 | an author filter finds an imported row exactly by its work's creators |
| CounterImport.OtherColumnKept | app/services/import_counter_metrics.rb:23-45 | neither importer overwrites the other's count |
| CounterImport.ImportTwice | app/services/import_counter_metrics.rb:8-90 | importing the same lines twice is importing them once |
| CounterImport.ImportsCommute | app/services/import_counter_metrics.rb:8-90 | investigations and requests commute, key by key |
| CounterImport.RequestsCompleteExactly | app/services/import_counter_metrics.rb:56 | the requests importer completes iff every line's work has resource types |
| CounterImport.OnlyRequestsRaise | app/services/import_counter_metrics.rb:56 | a line for a work without resource types is imported as an investigation and raises as a request |
| AttachFiles.GroupsKeepOrder | app/jobs/attach_files_to_work_job.rb:16-17 | going through the groups of ten visits each file once, in order |
| AttachFiles.AttachFilesJob.AttachFile | app/jobs/attach_files_to_work_job.rb:19-25 | the five writes for a file, cut off after any number of them |
| AttachFiles.WritesInOrder | app/jobs/attach_files_to_work_job.rb:19-25 | each of the five writes changes one thing: a bare file set, the uri, the flag, the content, the attachment |
| AttachFiles.AttachFilesJob.Perform | app/jobs/attach_files_to_work_job.rb:9-29 | a run stops or completes exactly as the specification says, skipping files that had a uri when loaded |
| AttachFiles.RunAttaches | app/jobs/attach_files_to_work_job.rb:16-25 | for any list of files and any stopping point, exactly what is attached where after a run |
| AttachFiles.RunCompletesExactly | app/jobs/attach_files_to_work_job.rb:16-25 | a run completes iff it may make all the writes for its files without a uri |
| AttachFiles.RunJobEffect | app/jobs/attach_files_to_work_job.rb:16-28 | a run attaches exactly the files it finishes and loses no attachment or uri |
| AttachFiles.AtMostOnceExactly | app/jobs/attach_files_to_work_job.rb:17-18 | a run keeps "at most once" iff it finishes no second copy of an upload that had no uri when it started |
| AttachFiles.CompletedOnceExactly | app/jobs/attach_files_to_work_job.rb:17-18 | a completed run keeps it iff every upload listed twice had its uri |
| AttachFiles.NeverAttachedTwiceExactly | app/jobs/attach_files_to_work_job.rb:18 | over any sequence of runs that may stop anywhere no upload is attached twice iff no run finishes such a second copy |
| AttachFiles.NeverAttachedTwice | app/jobs/attach_files_to_work_job.rb:18 | in particular no upload is attached twice when no run lists one twice |
| AttachFiles.CompletedRunAttaches | app/jobs/attach_files_to_work_job.rb:16-28 | after a completed run a file of it is attached iff it had no uri or was attached before |
| AttachFiles.LostExactly | app/jobs/attach_files_to_work_job.rb:19-25 | a run loses a file iff it stops after the second, third or fourth of the five writes for it, which follow five for each file without a uri before it |
| AttachFiles.StoppedRunLoses | app/jobs/attach_files_to_work_job.rb:19-25 | a run that stops once the uri of its only file is written loses it |
| AttachFiles.LostForever | app/jobs/attach_files_to_work_job.rb:18 | no later run attaches a lost file, whatever it lists |
| AttachFiles.ListedTwiceAttachedTwice | app/jobs/attach_files_to_work_job.rb:17-18 | an upload without a uri that is listed twice is attached twice |
| AttachFiles.RunKeepsConsistent | app/jobs/attach_files_to_work_job.rb:19-24 | in runs that repeat no upload without a uri, content stays with the upload that remembers its file set, is flagged as that upload is, and is attached at most once |
| RoleSeeding.RolesService.FindOrCreateSiteRole | app/services/roles_service.rb:61-67 | the site role exists afterwards and its id is returned |
| RoleSeeding.RolesService.CreateDefaultRoles | app/services/roles_service.rb:69-76 | does the role tasks in order, or nothing without a site |
| RoleSeeding.RolesService.CreateDefaultGroup | app/services/roles_service.rb:87-97 | does one default group's tasks in order |
| RoleSeeding.RolesService.CreateDefaultHyraxGroupsWithRoles | app/services/roles_service.rb:78-98 | does every default group's tasks in order, or nothing without a site |
| RoleSeeding.DefaultRolesFixedPoint | app/services/roles_service.rb:69-76 | every default role exists, no record is duplicated or lost, a second run changes nothing |
| RoleSeeding.DefaultRolesSeeded | app/services/roles_service.rb:3-23 | the eight default roles exist afterwards, whatever was there, and no other site role is new |
| RoleSeeding.DefaultGroupsFixedPoint | app/services/roles_service.rb:78-98 | every default group has its roles and keeps any others, a second run changes nothing |
| RoleSeeding.DefaultGroupsSeeded | app/services/roles_service.rb:25-59 | the four default groups exist afterwards with their captions, and every group has exactly the site roles it had and those it comes with |
| RoleSeeding.SeedingCompletes | app/services/roles_service.rb:69-98 | after any such loop all its tasks are done and nothing that was there is lost |
| RoleSeeding.AccessesJob.CreateAccesses | app/services/roles_service.rb:238-265 | the four find-or-create calls for one object and the conditional reset |
| RoleSeeding.AccessesJob.CreateCollectionAccesses | app/services/roles_service.rb:235-268 | the loop over collections |
| RoleSeeding.AccessesJob.CreateAdminSetAccesses | app/services/roles_service.rb:270-303 | the loop over admin sets |
| RoleSeeding.GrantsSeeded | app/services/roles_service.rb:235-303 | every object gets its grants and keeps its others |
| RoleSeeding.AccessesSeeded | app/services/roles_service.rb:241-301 | grant by grant, what the two jobs leave for collections and admin sets |
| RoleSeeding.ResetExactly | app/services/roles_service.rb:265 | access controls are reset for an object iff one of its grants was missing |
| RoleSeeding.GrantsSeededTwice | app/services/roles_service.rb:235-303 | a second run changes and resets nothing |
| SortKeys.SolrDocument.AddDate | app/indexers/app_indexer.rb:32-47 | both date fields get the padded string, whether or not the format is recognised |
| SortKeys.DateKeysInOrder | app/indexers/app_indexer.rb:32-51 | indexed strings compare as the dates do, partial dates first, and are equal only for equal dates |
| SortKeys.DateKeyIdempotent | app/indexers/app_indexer.rb:49-51 | normalising twice is normalising once, for every string |
| SortKeys.PaddingKeepsExactly | app/indexers/app_indexer.rb:49-51 | padding leaves a date string alone iff it has no hyphen or no part shorter than two characters |
| SortKeys.PromiseKeptExactly | app/indexers/app_indexer.rb:42-43 | the comment's promise to index an unrecognised date as given holds of a date string iff its padded form is recognised or padding leaves it alone |
| SortKeys.ValidFormatExactly | app/indexers/app_indexer.rb:38-40 | the recognised strings are a four-digit year, with a two-digit month and a two-digit day or without |
| SortKeys.PaddedDatesAreRecognised | app/indexers/app_indexer.rb:38-40 | every date with a four-digit year is recognised once it is padded |
| SortKeys.UnrecognisedDateIsPadded | app/indexers/app_indexer.rb:42-43 | an unrecognised date that is indexed padded |
| SortKeys.SortTitle.Alphabetical | app/models/sort_title.rb:8-26 | the key's words are joined by single blanks with none at the ends, without quotes or capitals, their numbers padded |
| SortKeys.KeyOfKey | app/models/sort_title.rb:8-26 | normalising a key drops articles it starts with and nothing else, so a key is its own key iff it starts with none |
| SortKeys.KeyExamples | app/models/sort_title.rb:8-26 | titles with the very keys they get |
| SortKeys.ArticleComesToFront | app/models/sort_title.rb:10-12 | a title whose key starts with an article and is not its own key |
| SortKeys.SortTitle.PadElements | app/models/sort_title.rb:15-23 | the loop pads each word's number |
| SortKeys.TitleKeyAroundNumber | app/models/sort_title.rb:8-26 | the key of a title with a number is that number padded, between parts that do not depend on it |
| SortKeys.TitleKeysInOrder | app/models/sort_title.rb:16-21 | titles that differ in one number of at most six digits sort as the numbers do |
| SortKeys.LongNumberOutOfOrder | app/models/sort_title.rb:19 | in every title a longer number sorts before shorter ones of six digits or more with a greater first digit, although it is greater |
| SortKeys.LongNumberOrder | app/models/sort_title.rb:19 | how a number of more than six digits compares with any shorter one: by its first digits, then by what follows them |
| SortKeys.WidthIsExact | app/models/sort_title.rb:19 | in every title all numbers of at most so many digits sort as numbers iff that is at most six digits |
| SortKeys.KeyIgnoresArticle | app/models/sort_title.rb:10-12 | one leading article does not matter before a title that starts with none |

## Left out

- Solr, Fedora, Redis, DataCite and tenant switching: finds and saves are lookups and updates on maps; what an index or permission library answers is a parameter.
- YearFilter.RubyInteger: does not model underscores and the `0x`, `0b`, `0o` prefixes of Ruby's `Integer`, which it treats as malformed; leading zeros are octal as in Ruby.
- YearFilter.YearOfPublicationCoercion.CoerceYop: takes single-line parameters, because `^` and `$` also match at inner lines.
- ReportingWindow.CoerceToDate: `to_date` succeeds only on real dates in YYYY-MM-DD form, Gregorian throughout; the other heuristics of `Date.parse` are not modelled.
- ReportingWindow.Earliest: metric rows without a date are not modelled.
- ScopeParser.Fields: whitespace is the six ASCII characters of `\s`, also where Ruby's `blank?` and `strip` know more.
- SortKeys.Downcase: lower-cases ASCII letters only.
- SortKeys.StripArticle: takes single-line titles, because `^` also matches at inner lines.
- CsvRow.AddCell: a type header aimed at a date key, which the code would append to the dates without raising, is an error here; validated headers have none (`ValidatedDatesUntyped`).
- Access.ReadableIffLastStampCurrent: the member graph does not change between the performs of several works.
- GroupJob.Repository.AssignReadGroups: a cyclic member graph, on which the recursion would not end, is not modelled.
- CsvRow.Clean: the wrapping of values that look like URIs is not modelled.
- CSV file reading, and header rows with blank cells beyond `CompactAlignsExactly`.
- `has_role?` and `roles` of the user: which role names hold on the site is given with the user; read users, edit groups and other permissions are not modelled.
- `url_from`, the controller mixin of `work_authorization.rb`, and the metric-type, access-method, platform, granularity and item-id coercions: one-branch checks that would add easy members.
- Concurrent runs of the attachment, import and seeding jobs; lookups of a sign-in that go stale before its transaction; and `created_at`/`updated_at` columns.
- The file-type check, depositor, permissions and `work.reload` of the attachment job.
- Error messages: an error is the class that is raised.
- The titles, descriptions and translated names of groups beyond one caption per group.
