# Approval queue of the AGCDMS document-management prototype, in Dafny

This project models the part of `app.py` that has rules worth proving:

- the **approval queue**. The `approvals` table holds rows of `(document_id, assigned_to, status, comment)`, with
  status `queued | pending | approved | rejected`. "Start Request" resolves a process template's approver
  names against the user directory. The first approver found becomes `pending` and every later one `queued`.
  `assign_approval` appends one row. `decide_approval` works in two phases:
  - it writes the decision and the comment into the approver's pending rows for the document;
  - it then promotes the document's earliest queued row to `pending`.
- the **"My Approvals" selection**: the pending rows of the current user, joined with the document titles,
  oldest first;
- **retention expiry** (`compute_retention_expiry`): the policy table, the custom years, and the year shift
  with the Feb 29 fallback;
- **`next_version`**: the highest version of a document plus one;
- **tag normalisation**: split on commas, strip each tag, drop the empty ones; stored joined with `","`.

Modules, one per component:

- `wrappers.dfy`: `Option`.
- `documents.dfy`: the document id type shared by approvals and versions.
- `directory.dfy`: users, seed users, process templates, name resolution.
- `approvals.dfy`: approval rows, and the specification functions `RecordDecision`, `FirstQueued`, `Promote`,
  `AfterDecision`, `InitialRows` and `PendingFor`. It also holds the `ApprovalTable` class, whose methods update
  the table in place.
- `approval_properties.dfy`: what a decision and a new request do to the table.
- `retention.dfy`, `versions.dfy`, `tags.dfy`.

The SQL store becomes an in-memory sequence of rows in insertion order, and insertion order stands in for
`created_at` order. Row ids (uuids) are replaced by positions. `now_iso` timestamps are left out.

`app.py` has a flat queue only:

- no parallel groups;
- no per-step SLAs;
- no authority-based delegation;
- no trigger predicates;
- no short-circuit on rejection.

A rejection promotes the next approver exactly as an approval does. A decision call promotes the next queued row
even when it decided nothing. The model follows `app.py` in both respects; `RejectionDoesNotShortCircuit`,
`DecisionWithoutPendingRowStillPromotes` and `RepeatDecisionPromotesAgain` state it.

## Model

| member | source | states |
|---|---|---|
| Directory.FirstWithName | app.py:197-203 | the position of the first directory user with the name, or the directory's length when nobody has it |
| Directory.LookupByName | app.py:197-203 | get_user_by_name returns a directory user with exactly that name, and None exactly when no user has the name |
| Directory.Resolve | app.py:424-427 | the assignee list has at most one id per template name |
| Directory.ResolveConcat | app.py:424-427 | resolving a concatenation of name lists is the concatenation of the resolutions: template order is kept |
| Directory.ResolveSingle | app.py:425-427 | a single name contributes its user's id when it resolves and nothing when it does not |
| Directory.ResolveAllFound | app.py:424-427 | when every name resolves, the assignee list has one id per name, and id i is name i's user |
| Directory.ResolveSound | app.py:424-427 | every assignee is the id of a directory user whose name is in the template |
| Directory.SeedTemplatesResolve | app.py:28-48 | with the seed users every name of every process template resolves, as the comment at line 34 asks |
| Directory.ResolveAssignees | app.py:424-427 | the lookup loop builds exactly the resolved-id list: unresolved names are skipped, order is kept |
| Approvals.RecordDecision | app.py:313-316 | phase one keeps every row; each pending row of (document, approver) takes the decision and the comment, every other row is unchanged, and afterwards no row of (document, approver) is pending |
| Approvals.FirstQueued | app.py:319 | the promotion query answers with a position of the table or with nothing |
| Approvals.FirstQueuedSpec | app.py:319-320 | the promotion query finds a queued row of the document with no queued row of it before; None only when the document has no queued row |
| Approvals.Promote | app.py:319-322 | promotion keeps every row; the only row it can change is a queued row of the document with no queued row of it before, which becomes pending; when the document has a queued row, one at or before it becomes pending |
| Approvals.AfterDecision | app.py:310-323 | decide_approval neither adds nor removes rows |
| Approvals.InitialRows | app.py:430-431 | a new request has one row per assignee, in order, for the document, with empty comments; row 0 is pending and every later row is queued |
| Approvals.PendingFor | app.py:518-521 | My Approvals lists only pending rows of the user whose document exists, with that document's title; it lists every such row |
| Approvals.ApprovalTable.constructor | app.py:121-129 | a new approvals table is empty |
| Approvals.ApprovalTable.Assign | app.py:299-305 | assign_approval appends exactly one row with the given document, approver and status and an empty comment; earlier rows are unchanged |
| Approvals.ApprovalTable.Decide | app.py:310-323 | decide_approval leaves the table equal to AfterDecision of the old table: phase one, then the promotion |
| Approvals.ApprovalTable.StartRequest | app.py:424-431 | starting a request appends InitialRows of the resolved assignees and returns the ticket's first assignee, or "" when none resolved |
| ApprovalProperties.AfterDecisionEffect | app.py:310-323 | row by row: a pending row of (document, approver) takes the decision and comment; the earliest queued row of the document, in the old table, becomes pending; all other rows are unchanged; the row count is unchanged |
| ApprovalProperties.DecisionFrame | app.py:313-316 | a decision never changes rows of other documents, approved or rejected rows, or pending rows of other approvers |
| ApprovalProperties.PromotesEarliestQueued | app.py:318-323 | only the earliest queued row of the document can go from queued to pending, and it always does; with no queued row, only the decided rows change |
| ApprovalProperties.RejectionDoesNotShortCircuit | app.py:310-323 | a rejection changes the table exactly as an approval does, except for the status of the decided rows |
| ApprovalProperties.RepeatDecisionKeepsDecided | app.py:313-316 | a second decision by the same approver on the same document leaves the rows decided by the first call as the first call left them; the row count is unchanged |
| ApprovalProperties.DecisionKeepsSinglePending | app.py:310-323 | if the decider holds a pending row of the document, a document with at most one pending row still has at most one afterwards |
| ApprovalProperties.DecisionWithoutPendingRowStillPromotes | app.py:318-323 | a decision by someone without a pending row still promotes, which leaves two pending rows on one document |
| ApprovalProperties.RepeatDecisionPromotesAgain | app.py:310-323 | repeating the first approver's decision on a three-step request makes the second and the third approver pending together |
| ApprovalProperties.InitialRowsOnePending | app.py:430-431 | a new request never has two pending rows on its document |
| ApprovalProperties.InitialRowsIsProgress | app.py:430-431 | a new request is the queue in which nobody has decided yet |
| ApprovalProperties.DecisionAdvancesQueue | app.py:310-323 | when the approver whose turn it is decides, that row records the verdict and the next approver becomes pending, for either decision; rows of other documents are untouched |
| ApprovalProperties.DecidingInTurnRecordsVerdicts | app.py:310-323 | when the approvers of a new request decide in turn, their verdicts are recorded in order; once all have decided, every row is approved or rejected |
| ApprovalProperties.PendingForConcat | app.py:518-521 | My Approvals keeps table (creation) order |
| ApprovalProperties.OnlyCurrentApproverSeesRequest | app.py:518-521 | mid-queue, the request appears on a user's My Approvals exactly when it is that user's turn |
| Retention.EffectiveYears | app.py:209-211 | an unknown policy gives 0 years and "Custom" gives the custom years; every other policy gives its table value, which is never negative |
| Retention.ReplaceYear | app.py:215 | datetime.replace(year=y) succeeds exactly when y is in 1..9999 and the day exists in that month of y, and then changes the year and nothing else |
| Retention.PreviousDay | app.py:218 | subtracting a day fails exactly on 0001-01-01; otherwise it gives a valid, earlier datetime with the same time of day: the day before in the month, else the last day of the previous month, else Dec 31 of the previous year |
| Retention.ComputeRetentionExpiry | app.py:208-218 | None exactly when the effective years N are 0 or less. An exception exactly when created year + N exceeds 9999. Otherwise year + N with the same month, day and time, except that Feb 29 in a common target year gives Feb 28 |
| Retention.ExpiryIsLater | app.py:208-218 | an expiry is always after the creation time |
| Retention.LongerRetentionExpiresLater | app.py:208-218 | a longer custom retention expires strictly later |
| Retention.LeapDayKeptInLeapYears | app.py:214-218 | a Feb 29 creation keeps day 29 exactly when the target year is a leap year |
| Retention.FourHundredYearsKeepTheDate | app.py:214-218 | a shift by a multiple of 400 years keeps the date unchanged, Feb 29 included |
| Retention.LeapYearsRepeat | app.py:214-218 | the leap-year rule that decides the Feb 29 fallback repeats every 400 years |
| Versions.MaxVersion | app.py:242-243 | MAX(version) is None exactly when the document has no versions; otherwise it is one of its versions and no version is higher |
| Versions.NextVersion | app.py:239-245 | next_version is 1 when the document has no version, and MAX(version) + 1 otherwise |
| Versions.NextVersionBounds | app.py:239-245 | next_version is 1 for a document without versions; it is above every version of the document; it is 1 or one more than an existing version; it is MAX(version) + 1 whenever the document has a version |
| Versions.AddingNextVersion | app.py:239-245 | adding version next_version(doc) raises next_version(doc) by exactly one |
| Versions.AddingVersionOfOtherDocument | app.py:242 | a version of another document changes neither MAX(version) nor next_version |
| Versions.UploadsAreNumberedFromOne | app.py:239-245 | after n uploads numbered by next_version, the next one is n + 1 |
| Tags.Split | app.py:417 | split(",") yields at least one piece and no piece contains a comma |
| Tags.TrimLeft | app.py:417 | removes exactly the leading whitespace: a suffix, starting with a non-space when not empty |
| Tags.TrimRight | app.py:417 | removes exactly the trailing whitespace: a prefix, ending with a non-space when not empty |
| Tags.Strip | app.py:417 | strip() starts and ends with a non-space and takes its characters from the input |
| Tags.StripIsSlice | app.py:417 | strip() is a slice of the input with only whitespace before it and after it |
| Tags.StripEmpty | app.py:417 | strip() is empty exactly when the input is all whitespace |
| Tags.StripStripped | app.py:417 | a string without whitespace at either end is its own strip |
| Tags.StripEach | app.py:417 | stripping the pieces one by one keeps their number and order: result i is the strip of piece i |
| Tags.KeepNonEmpty | app.py:417 | the `if t.strip()` filter keeps only non-empty strings, each one of its inputs |
| Tags.KeepNonEmptyConcat | app.py:417 | the filter works string by string: filtering a + b filters a, then b |
| Tags.KeepNonEmptySingle | app.py:417 | one string passes the filter exactly when it is not empty |
| Tags.KeepNonEmptyKeeps | app.py:417 | every non-empty string passes the filter |
| Tags.KeepNonEmptyAll | app.py:417 | when no string is empty the filter returns them all, in order |
| Tags.StripAndKeep | app.py:417 | the comprehension yields at most one tag per piece, each non-empty and stripped, and comma-free when the pieces are |
| Tags.StripAndKeepConcat | app.py:417 | the comprehension works piece by piece: on a + b it gives the tags of a, then the tags of b |
| Tags.StripAndKeepSingle | app.py:417 | one piece gives its strip as a tag, or nothing when the strip is empty |
| Tags.NormalizeTags | app.py:417 | every normalised tag is non-empty, comma-free and stripped |
| Tags.NormalizeTagsPiece | app.py:417 | a comma-free field gives its strip as the only tag, or no tag when it is all whitespace |
| Tags.NormalizeTagsAtComma | app.py:417 | a field is normalised piece by piece: the tags before its first comma, then the tags of the rest, in order |
| Tags.StripAndKeepKeeps | app.py:417 | a piece that is not all whitespace is kept, as its strip |
| Tags.StripAndKeepSound | app.py:417 | every kept tag is the strip of one of the pieces |
| Tags.SplitNoComma | app.py:417 | a comma-free text splits into itself |
| Tags.SplitAtComma | app.py:417 | splitting cuts at the first comma |
| Tags.Join | app.py:231 | ",".join of no tags is "" and of one tag is that tag; it starts with the first piece and contains a comma exactly when there are two or more pieces or a piece holds one |
| Tags.JoinConcat | app.py:231 | joining a + b (both non-empty) is the join of a, a comma, then the join of b; with the one- and no-piece cases this fixes the column for every list |
| Tags.JoinSplit | app.py:231 | ",".join(s.split(",")) gives s back |
| Tags.SplitJoin | app.py:231 | splitting the join of comma-free pieces gives the pieces back |
| Tags.StripAndKeepClean | app.py:417 | clean tags pass the comprehension unchanged |
| Tags.NormalizeJoin | app.py:231 | reading back a stored column of clean tags gives the same tags |
| Tags.NormalizeIdempotent | app.py:231 | normalising a stored, normalised tags column changes nothing |

## Left out

- Streamlit pages, widgets and `main`: UI. Only the sequencing block of `page_start_request` (lines 424-431) and
  the query of `page_my_approvals` (lines 518-521) are modelled.
- SQLite connection, cursor, commit and failure plumbing (`connect`, `init_db`, `seed_users`): the tables
  are in-memory sequences. `decide_approval` commits between its two phases; the model treats the call as one
  sequential step and leaves concurrent callers out.
- `uuid` row ids and `now_iso` timestamps (`created_at`, `decided_at`): nondeterministic. Rows are identified by
  position, and creation order is insertion order. SQLite does not fix the order of rows created in the same
  second; the model does not capture that.
- `add_audit`: an append-only log write with no rules in it.
- Tickets (`create_ticket`, `list_my_tickets`, `close_ticket`): plain inserts and updates. Of `create_ticket`
  the model keeps only its `assigned_to` argument, the first assignee that `StartRequest` returns.
- `save_upload`, `add_signature_image`, `save_signature`, `SharePointStorageStub`, `PowerAutomateClientStub`:
  file I/O, image rendering and inert integration stubs.
- `create_document_record`, `add_version`, `list_versions`, `get_users`, `list_documents`: inserts and queries
  with no rules here. The `",".join(tags)` of `create_document_record` is modelled as `Tags.Join`.
- Approvals.ApprovalTable.Decide: the decision is one of `approved` or `rejected`, the two values the only caller
  offers. The source accepts any string.
- Approvals.ApprovalTable.Assign: the status is one of the four documented statuses. The column is free text.
- Directory.LookupByName: takes the first matching user in directory order. The SQL query returns an arbitrary
  matching row; the two agree only where display names are unique, as in the seed users.
- Versions.NextVersion: does not model SQLite's 64-bit integer range; MAX + 1 is computed on unbounded integers.
- Versions.MaxVersion: version numbers are unbounded integers, not SQLite's 64-bit integers.
- Directory.Resolve: its own contract only bounds the list length. Order, soundness and completeness are stated by
  `ResolveConcat`, `ResolveSingle`, `ResolveSound` and `ResolveAllFound`.
- Approvals.FirstQueued: its own contract only says the answer is a position of the table. That it is the earliest
  queued row of the document is `FirstQueuedSpec`.
- Approvals.AfterDecision: its own contract only keeps the row count. The row-by-row effect is
  `ApprovalProperties.AfterDecisionEffect`.
- Tags.Strip: its own contract gives the shape of the result only. `StripIsSlice` with `IsStripped` fixes which
  characters are removed.
- Tags.KeepNonEmpty: its own contract does not fix order or count. `KeepNonEmptyConcat` and `KeepNonEmptySingle`
  determine the result.
- Tags.StripAndKeep: its own contract does not fix order or count. `StripAndKeepConcat` and `StripAndKeepSingle`
  determine the result.
- Tags.NormalizeTags: its own contract gives the form of the tags only. `NormalizeTagsAtComma` and
  `NormalizeTagsPiece` determine the result.
- Retention.ComputeRetentionExpiry: Python's ValueError and OverflowError both appear as one `Raises` outcome.
  Time zones and the `fold` attribute are not modelled.
