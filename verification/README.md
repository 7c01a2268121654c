# Verified model of the management backend's core

A Dafny model of the parts of the management backend whose correctness is not visible in any
single function: the filter compilers, keyset pagination, the user cache and its invalidation,
pinning to the primary, organization memberships and the authorization model, and a few string
and time computations. To check it: `dafny verify dfyconfig.toml`.

## What is modelled

**The cached user reads as a protocol** (`UserCache`, `UserCacheInvariant`, `UserCacheTheorems`,
`UserCacheWrites`, `UserCacheCalls`, `UserCacheRuns`). Every user read, update and deletion is split
into its Redis and database effects, and the effects of different calls interleave freely over a
history of committed tables, a replica position, Redis keys with expiry and a clock; Redis commands
and statements may fail. In every run each entry is the conversion of a row that its own filler read;
a served value is younger than five minutes plus the filler's read-to-store gap plus the replica lag;
and, if updates store something new, an entry is stale if and only if its fill raced an update or
deletion, which a concrete run exhibits. For fills from the primary that condition is one on the order
of events alone. A finished write has changed just its row, and after a deletion no read of the primary
finds the row again. Each call run alone does what the service promises of it.

**Tokens and password hashes as a protocol** (`SecretCache`, `SecretCacheInvariant`,
`SecretCacheTheorems`, `SecretCacheCalls`). The same for the entries of access tokens and password
hashes, where Redis failures are ignored: how long a revoked token or an old password can still be
accepted, and exactly when its entry is stale.

**Read-your-writes through one pin key** (`PrimaryPin`, `PrimaryPinTheorems`). The SQL
repository and the OpenFGA client write the same key with two time frames. Reads of a store see
their user's writes in all runs if and only if that store's lag and pin-to-commit delay fit into the
shorter frame.

**The SQL filter compiler** (`FilterCompiler`, `Connectives`, `SqlReader`, `FilterMeaning`,
`FilterOutcome`, `FilterPlaceholders`, `FilterAcceptance`, `FilterRows`, `LikePatterns`, `FilterLimits`). The
compiled text is a token sequence. An independent reader binds placeholders left to right and
parses with SQL precedence, in SQL's three-valued logic; the LIKE of `email` and `id` it reads down
to its function names and literals and evaluates on rows. The text means the OR-of-ANDs regrouping
of the filter's leaves and connectives. For filters with pairwise different conditions this is the
filter's own meaning, whatever the conditions mean, if and only if no OR lies below an AND and NOT
stands, except in pairs, only before single conditions without a constant. On rows the same condition is exact for conditions
that rows can satisfy independently, such as equalities whose values do not occur in one another;
for dependent ones the text can select the filter's rows by coincidence.

**The InfluxDB filter target** (`InfluxFilter`, `InfluxRewrite`, `InfluxRewriteTrees`,
`InfluxRewriteExact`, `InfluxRewriteInPlace`). The AND-only compiler whose string is split at `&&`
again, and the pair of tree walks that thread a `found` flag: as functions, as a loop, and as code
that overwrites the nodes of a tree on the heap.

**Keyset pagination** (`Keyset`, `KeysetWalk`, `Listing`, `ListWalk`). Whole walks over an
unchanging table, and walks interleaved with creations and deletions, also between the two
queries of one request, each query on the primary or on a replica of any age.

**Authorization** (`Permissions`, `PermissionRights`, `Membership`). The relation definitions as data,
the recursive check, its closed form, the tuples that give each kind of subject its rights, role
replacement with lost requests, and the continuation-token listings.

**The service, call by call** (`ServiceState`, `Service`). The coherence of the user, token and
password-hash entries as the invariant of a class whose methods are whole service calls.

**Smaller cores**: `Namespaces` (availability against colliding spellings), `Slug` with `SlugWords`,
`Windows` (aggregation offset, bucket partition, chart counts).

## Where the code departs from its documentation

The model follows the code. Each point is proved by the member named.

- AIP-160 ("Logical operators") lets OR bind tighter than AND; the compiled text has no parentheses, so SQL binds them the other way round (`FilterLimits.OrBelowAndSelectsTooMuch`, with the exact conditions in `FilterMeaning.FilterKeptIffOrderSafe` and `FilterRows.SelectsItsRowsIffOrderSafe`).
- `NOT` drops its operand's variables and leaves placeholders unbound (`FilterLimits.ConstantUnderNotIsUnbound`); a filter binds exactly if it has as many placeholder-writing conditions as values (`FilterPlaceholders.BindsIffBalanced`). The left side of a comparison is dropped too, though only a tree handed to the compiler, not AIP-160 text, can have a comparison there (`FilterLimits.LeftHandSideVariablesAreLost`).
- `email = v` and `id = v` match `v`, in lower case, as a pattern within the value (`LikePatterns.EqualityMeansSubstring`).
- `email = id`, which the user list's declarations allow, panics (`FilterOutcome.EmailEqualsIdPanics`). Among filters of comparisons of columns and values, in any order, `:` with a constant, and bare columns, the compiler panics exactly on equalities of `email` or `id` with a column, and on trees that compare a field by `:` with something other than a string (`FilterOutcome.PanicsIffOffends`).
- `ListOwners` sorts by `(create_time, id)` but cuts by `(create_time, uid)` and can lose owners (`Listing.ListOwnersLosesAnOwner`; exactly when: `Listing.ListOwnersWalkIff`).
- Invalidation before the write does not keep stale rows out of the cache (`UserCacheRuns.StaleEntryAfterUpdate`; exactly when: `UserCacheTheorems.StaleIffRaced`, and in event order `UserCacheTheorems.StaleIffOverlapped`). Pinning does not help against another user's refill from a lagging replica, which the writer then hits (`UserCacheRuns.OldRowServedToWriter`; when a commit shows: `UserCacheTheorems.CommitIsVisible`). In the same way a revoked token or an old password can be accepted again (`SecretCacheTheorems.OldValueStillAccepted`; exactly when: `SecretCacheTheorems.StaleIffOvertaken` and `SecretCacheTheorems.StaleIffOverlapped`).
- The pin's time frame is not the store's own but the shorter of two (`PrimaryPinTheorems.FrameCoversNeeded`; exactly when that matters: `PrimaryPinTheorems.ReadYourWritesIffFrameCovers`).
- Setting an unknown role removes the old one before it fails (`Membership.BadRoleRemovesMembership`), and a lost deletion leaves two roles (`Membership.LostDeletionLeavesTwoRoles`; exactly when a set works: `Membership.SetReplacesIff`).
- `HijackConstExpr`, which this repository exports but does not call, overwrites the operand after a bare identifier (`InfluxRewriteExact.BareIdentifierOverwritesSibling`); it rewrites just the leftmost comparison exactly if no bare identifier on the old name comes before that (`InfluxRewriteExact.HijackExactIff`). A type checker that wants boolean operands does not produce such trees from text.
- The `&&` that joins the InfluxDB fragments can also come from a name or a value, and a timestamp's value that ends with `&` runs into it (`InfluxFilter.TrailingAmpersandIsLost`, for a tree handed to the compiler; exactly when the split is right: `InfluxFilter.FilterSurvivesIff`).
- A quote in an InfluxDB constant is written as it is and ends the constant there (`InfluxFilter.QuotedConstantIsMisread`, for `s = "a\"b"`; exactly when a fragment reads back: `InfluxFilter.ReadsWhatWasWrittenIff`).
- An expired token is accepted, even after its entry has lapsed (`Service.AcceptsExpiredToken`). `ValidateToken` accepts only active, unexpired tokens exactly if every stored one of an owner other than the nil UID is (`ServiceState.AcceptsOnlyUsableIff`); every token the service stores is active, which `Service.Service.Valid` keeps.
- A cached password hash outlives its row: the password of a deleted user is accepted for another five minutes (`Service.CachedHashOutlivesRow`).
- The collision check of namespace ids covers one other spelling, not all. Against the ids created here (`usr-` and base62 digits, `admin`, `preset`) it is sound for every asked id (`Namespaces.StoredHereAreSafe`). To escape it takes a stored id with two separators and a dash (`Namespaces.MixedIdEscapes`; exactly when: `Namespaces.SoundIffGuarded`).

## Model

| member | source | states |
|---|---|---|
| UserCacheInvariant.StepKeepsInv | pkg/service/service.go:174-335 | every single Redis or database effect of a read, update or deletion, failing or not, keeps the protocol invariant |
| UserCacheInvariant.RunKeepsInv | pkg/service/service.go:174-335 | the invariant holds in every state of every interleaving of these calls with inserts, password updates, replication and time |
| UserCacheTheorems.EntriesComeFromReads | pkg/service/cache.go:53-95 | each entry is the conversion of a row that the very call that stored it had read before, under that row's id or UID, and expires five minutes after the store |
| UserCacheTheorems.LiveEntryIsRecent | pkg/service/cache.go:53-95 | a live entry holds what the primary held less than five minutes plus the filler's read-to-store gap plus the replica lag ago |
| UserCacheTheorems.AnswerComesFrom | pkg/service/service.go:174-241 | a user is answered only from a live entry under the key asked for, or from the call's own read; the alias `me` is never answered before it is resolved to an id |
| UserCacheTheorems.AnswerIsRecent | pkg/service/service.go:174-241 | every user a call answers with is what the primary held less than five minutes plus the read-to-store gap plus the replica lag ago, for the call's own read or the read behind the live entry it hit |
| UserCacheTheorems.StaleOnlyByRace | pkg/service/service.go:286-335 | if an entry differs from the current row (other than in update time), some update or deletion of that row had deleted this key before the store and committed after the read, or within the lag of a replica read |
| UserCacheTheorems.StaleIffRaced | pkg/service/service.go:286-335 | in every run whose updates store other profiles than the one read, an entry is stale if and only if its fill raced an update or deletion of its row |
| UserCacheTheorems.StaleIffOverlapped | pkg/service/service.go:286-335 | for an entry filled from the primary the same holds in the order of events alone: stale if and only if some writer of its row deleted the key before the store and committed after the read |
| UserCacheTheorems.CommitIsVisible | pkg/service/service.go:174-201 | an answer shows a given commit exactly if the primary read behind it came after the commit; with a replica read behind it, surely once the lag has passed |
| UserCacheWrites.WriteTakesEffect | pkg/repository/repository.go:337-379 | in every run a statement that succeeds and finds its row removes just that row, or gives it just the new profile and update time, and the call ends finished; any other statement changes no row |
| UserCacheWrites.OnlyWritesChangeRows | pkg/service/service.go:174-335 | no other event of a read, update or deletion changes a row |
| UserCacheWrites.ReadAfterDeletion | pkg/service/service.go:315-335 | after a deletion no read of the primary finds the row, and one by its id finds nothing and answers not found |
| UserCacheWrites.DeletionTakesHold | pkg/service/service.go:315-335 | a deleted user who is still answered with comes from a read before the deletion or from the replica, and only for five minutes plus that read's way to the cache plus the lag |
| UserCacheCalls.MissById | pkg/service/service.go:203-221 | run without interruption, a lookup that misses answers with the row it finds, column by column, and caches just that under its id for 300 seconds |
| UserCacheCalls.MissByUid | pkg/service/service.go:223-241 | likewise by UID, under both keys; for the alias `me` it goes on with the id |
| UserCacheCalls.UpdateAlone | pkg/service/service.go:286-313 | an update drops exactly the user's two keys and changes exactly that row |
| UserCacheCalls.DeleteAlone | pkg/service/service.go:315-335 | a deletion drops exactly the user's two keys and exactly that row |
| UserCacheCalls.NoCallIsStuck | pkg/service/service.go:174-335 | until a call is done some event of its own can happen: a selection by id finds a user's row or, only if there is none, nothing |
| UserCacheTheorems.UnracedEntryIsFresh | pkg/service/service.go:286-335 | a fill from the primary is fresh if every writer of the row committed before its read or deleted the key only after its store |
| UserCacheRuns.StaleEntryAfterUpdate | pkg/service/service.go:302-309 | a run without lag or failures in which a finished update leaves the old row in the cache |
| UserCacheRuns.OldRowServedToWriter | pkg/service/service.go:174-201 | a run in which an update returns, another call then refills the key from the replica, and a third call is answered with the old row |
| SecretCacheInvariant.RunKeepsInv | pkg/service/cache.go:124-178 | in every interleaving of token and password calls, entries and calls in flight hold what their own database access saw, and every tracked deletion of a key precedes the store of its entry |
| SecretCacheTheorems.AnswerIsRecent | pkg/service/service.go:337-356 | every accepted value is what the primary held for that key less than five minutes plus the access-to-store gap plus the lag ago, for the call's own access or the one behind the live entry it hit |
| SecretCacheTheorems.RemovalTakesHold | pkg/service/service.go:460-499 | after a token's removal is committed it is refused from five minutes plus that gap plus the lag on |
| SecretCacheTheorems.StaleIffOvertaken | pkg/service/service.go:358-368 | if changes store other values, an entry is stale if and only if a change or removal came after its access and its writer deleted the key before the store, or failed to, or never tried |
| SecretCacheTheorems.StaleIffOverlapped | pkg/service/service.go:358-368 | for an entry that goes back to the primary, or to the caller's own insertion, the same with `came after` meant in the order of events alone |
| SecretCacheTheorems.OldValueStillAccepted | pkg/service/service.go:460-478 | a run without lag or failures in which a call that starts after a deletion or password change has returned is still answered with the old value |
| SecretCacheCalls.WriteTakesEffect | pkg/service/service.go:358-478 | in every run a successful change, removal or insertion has changed just its own key when its call goes on, and a failing or missing one nothing |
| SecretCacheCalls.MissAlone | pkg/service/service.go:337-356 | run without interruption, a lookup without a live, non-empty entry decides by the row and caches it, refused or not |
| SecretCacheCalls.WriteAlone | pkg/service/service.go:358-368 | a change or removal drops the entry if Redis works, and changes the row in either case |
| PrimaryPinTheorems.ReadYourWritesIffFrameCovers | pkg/repository/repository.go:102-119 | reads of a store see their user's earlier writes in every run if and only if its lag plus its pin-to-commit delay is at most the shorter of the database and OpenFGA time frames |
| PrimaryPinTheorems.FrameCoversSuffices | pkg/acl/acl.go:54-72 | the sufficient half: OpenFGA writes that overwrite the same pin key do no harm while lag and delay fit both frames |
| PrimaryPinTheorems.FrameCoversNeeded | pkg/acl/acl.go:57-62 | the necessary half: otherwise a write to the other store can cut the pin short and a read misses a committed write |
| FilterMeaning.TranspileIsText | pkg/repository/transpiler.go:154-249 | a filter with well-formed leaves is accepted; its text is its leaves and connectives in order without parentheses, its variables are the constants outside NOT, left to right |
| FilterMeaning.PlaceholderLaw | pkg/repository/transpiler.go:135-249 | the text has one placeholder per constant, hence exactly as many more than variables as there are constants below outermost NOTs |
| FilterPlaceholders.HolesAreMarks | pkg/repository/transpiler.go:122-337 | the text of every accepted filter has one placeholder for each comparison and `:` reached through connectives and through operands whose text is kept |
| FilterPlaceholders.VarsAreListed | pkg/repository/transpiler.go:50-363 | its variables are, from left to right, the constants, timestamps and enum values on the right of a comparison, or bare, outside NOT |
| FilterPlaceholders.BindsIffBalanced | pkg/repository/transpiler.go:122-337 | an accepted filter gets a variable for every placeholder, with none left over, if and only if there are as many such marks as values |
| FilterPlaceholders.PlaceholderSurplus | pkg/repository/transpiler.go:135-249 | with one value on the right of each comparison: placeholders minus variables equals the conditions below dropped operands minus the bare values |
| FilterAcceptance.AcceptsExactly | pkg/repository/transpiler.go:34-360 | which filters are accepted: known constants, timestamps that parse, typed identifiers, selections, AND, OR and NOT of accepted operands, comparisons of two of them (with a value on the right of `email =` and `id =`), and `:` on a list of primitives or, with a string, on a field |
| FilterOutcome.PanicsIffOffends | pkg/repository/transpiler.go:154-337 | a filter of comparisons whose sides are columns or values, `:` with a constant, and bare columns is never refused, and panics if and only if it equates `email` or `id` with a column or applies `:` to a field and a constant other than a string |
| FilterOutcome.ViewedNeverPanics | pkg/repository/transpiler.go:154-337 | filters whose leaves are conditions on a column and a value never panic |
| FilterOutcome.EmailEqualsIdPanics | pkg/repository/transpiler.go:183-189 | `email = id` panics |
| FilterMeaning.TextBinds | pkg/repository/transpiler.go:154-249 | left-to-right binding gives every leaf its own constant, if NOT dropped none |
| FilterMeaning.CondReads | pkg/repository/transpiler.go:154-216 | every leaf form reads back as the condition it was written for |
| FilterRows.EqualityOnRow | pkg/repository/transpiler.go:183-189 | the text of `email = v` and `id = v`, read token by token and evaluated on a row: true exactly if the lower-case cell matches the lower-case `v` between two percent signs, unknown on NULL |
| FilterMeaning.TextReads | pkg/repository/transpiler.go:218-249 | read with SQL precedence, the text of any tree is the OR-of-ANDs regrouping of its in-order sequence |
| FilterMeaning.SqlMeansRegrouping | pkg/repository/transpiler.go:135-249 | on every row the statement has the regrouping's truth; it is malformed exactly if a constant lies below a NOT |
| FilterMeaning.OrderSafeFilterSelectsItsRows | pkg/repository/transpiler.go:218-249 | the statement has the filter's own truth on every row if no OR lies below an AND and NOT stands, except in pairs, only before single conditions without a constant |
| FilterMeaning.FilterKeptIffOrderSafe | pkg/repository/transpiler.go:218-249 | for filters with pairwise different conditions that condition is exact over all truth assignments: the statement is well-formed and has the filter's truth, whatever the conditions mean, if and only if it holds |
| FilterRows.SelectsItsRowsIffOrderSafe | pkg/repository/transpiler.go:218-249 | on rows, for conditions that rows can satisfy independently: the statement is well-formed and selects exactly the filter's rows if and only if it holds |
| FilterRows.UnrelatedAreIndependent | pkg/repository/transpiler.go:183-189 | rows satisfy equalities on `id` and `email` independently if no value occurs in another one compared with the same column |
| FilterRows.UserListSelectsItsRowsIff | pkg/repository/transpiler.go:183-249 | hence the exact fragment on rows for such filters of the user list |
| Connectives.OrderSafeKeepsMeaning | pkg/repository/transpiler.go:236-242 | regrouping keeps the three-valued meaning of every tree without an OR below an AND in which NOT stands, except in pairs, before leaves only |
| Connectives.MeaningKeptIffOrderSafe | pkg/repository/transpiler.go:236-242 | and of no other tree with pairwise different leaves |
| Connectives.Differs | pkg/repository/transpiler.go:144-242 | for every other such tree the named set of true leaves tells the tree and its text apart |
| Connectives.Agrees | pkg/repository/transpiler.go:144-242 | every tree, order-safe or not, agrees with its text on some meaning of the leaves that makes both true and on some that makes both false |
| FilterLimits.OrBelowAndSelectsTooMuch | pkg/repository/transpiler.go:236-242 | `id = "a" AND (id = "b" OR email = "c")` selects the row with an empty id and the email `c` |
| FilterLimits.DependentConditionsMayCoincide | pkg/repository/transpiler.go:183-242 | `id = "x" AND (email = "y" OR id = "xx")` has an OR below an AND and yet has the filter's truth on every row |
| FilterLimits.ConstantUnderNotIsUnbound | pkg/repository/transpiler.go:144-151 | a filter with a constant below a NOT is accepted with more placeholders than variables |
| FilterLimits.LeftHandSideVariablesAreLost | pkg/repository/transpiler.go:164-192 | the tree `(id = v) = TRUE` is accepted with two placeholders and one variable |
| LikePatterns.ContainsMeansSlice | pkg/repository/transpiler.go:184-189 | LIKE with any pattern between two percent signs holds exactly of the texts with a slice that matches it; a lone backslash at its end quotes the closing sign |
| LikePatterns.PatternsConcatenate | pkg/repository/transpiler.go:184-189 | a pattern matches piece by piece: a text matches two patterns in a row exactly if it splits into a match of each |
| LikePatterns.EqualityMeansSubstring | pkg/repository/transpiler.go:184-189 | `email = v`, for every `v`, holds exactly if a slice of the row's lower-case value matches `v` in lower case, which without metacharacters means that it is a substring |
| Keyset.LastRow | pkg/repository/repository.go:480-488 | the last-row query finds the row below all others in (create_time, uid), if there is one |
| KeysetWalk.SortedIsSorted | pkg/repository/repository.go:446 | the page query's order lists every row exactly once, strictly descending |
| KeysetWalk.WalkFrom | pkg/repository/repository.go:446-496 | from any cursor the pages are the rows below it in order, every page but the last is full, and their number is max(1, ceil(n/p)), provided the tie breakers agree |
| KeysetWalk.CompleteIffTiesAgree | pkg/repository/repository.go:213-283 | walks at all positive page sizes return each row exactly once if and only if the sorting and the cutting tie breaker agree on rows of equal time |
| Listing.ScanRows | pkg/repository/repository.go:464-477 | the row loop returns the rows in order and the last row's time |
| Listing.ListTokens | pkg/repository/repository.go:438-497 | one call returns the first 100 rows, or up to the page size and 1000, of those of the owner after the token, latest first; the number of the owner's rows; and a next token unless the page ends with the last of them; or an error for a bad token; all even if its queries see different tables |
| Listing.ListOwners | pkg/repository/repository.go:204-286 | likewise for the owners of a type that satisfy the filter, without a limit for a page size that is not positive; the total does not depend on the filter |
| Listing.ListTokensWalk | pkg/repository/repository.go:446-496 | over an unchanging table the walk from the empty token returns exactly the owner's tokens, each once, latest first, in full pages and max(1, ceil(n/p)) requests |
| Listing.ListOwnersWalkIff | pkg/repository/repository.go:213-283 | over an unchanging table every walk returns each matching owner exactly once and nothing else if and only if id order and uid order agree among matching owners created at the same time |
| Listing.ListOwnersLosesAnOwner | pkg/repository/repository.go:213-235 | two owners of the same instant, ordered differently by id and uid: pages of one return only one of them |
| ListWalk.StepKeepsInv | pkg/repository/repository.go:204-552 | page queries, last-row queries, creations and deletions on any past table keep what has been returned strictly descending and above the cursor, if sorting and cutting order agree, as they always do for tokens |
| ListWalk.WalkDescends | pkg/repository/repository.go:438-497 | in every interleaved walk, lagging replicas included, the returned rows strictly descend in (create_time, uid) and no uid occurs twice |
| ListWalk.ReturnedWasThere | pkg/repository/repository.go:464-477 | only rows of the owner or type asked for that satisfy the filter are returned, each from a table that some page query saw |
| ListWalk.FinishedWalkIsComplete | pkg/repository/repository.go:479-494 | when a walk finishes, every such row that was in the tables of all its queries has been returned exactly once |
| ListWalk.UndisturbedRequests | pkg/repository/repository.go:438-497 | if nothing disturbs it, the walk's requests return page by page what following the tokens over an unchanging table does, and finish with it |
| Permissions.CheckIsGranted | pkg/acl/fga/fga.fga:4-47 | the recursive check equals the closed form: a tuple on a relation that leads to the asked one, or, for admin through reader of a resource, effective membership of an owning organization |
| Permissions.RightsAreNested | pkg/acl/fga/fga.fga:41-47 | owner implies admin, writer, executor and reader in turn on every resource |
| Permissions.MembersOfOwnerHoldAll | pkg/acl/fga/fga.fga:41-47 | an effective member of an owning organization holds admin through reader |
| Permissions.ChecksAreMonotone | pkg/acl/fga/fga.fga:4-47 | more tuples never take a right away |
| Permissions.PendingAddsNothing | pkg/acl/fga/fga.fga:25-27 | a pending role adds no right but itself |
| Permissions.WildcardsOnlyExecuteAndRead | pkg/acl/fga/fga.fga:44-46 | `user:*` and `visitor:*` tuples change no relation but executor and reader |
| PermissionRights.CheckIsEntitled | pkg/acl/fga/fga.fga:4-47 | who has which right, in tuples alone: a user by its own tuples, by `user:*` on executor and reader, or as owner, admin or member of an owning organization; a visitor exactly as reader where `visitor:*` is; a code and an organization by their own tuples |
| PermissionRights.CodesOnlyExecuteAndRead | pkg/acl/fga/fga.fga:44-46 | a sharing code opens exactly the executor and reader relations its own tuples name, executor implying reader |
| PermissionRights.CheckPermission | pkg/acl/acl.go:215-245 | allowed exactly if these tuples entitle the subject or the presented code |
| Membership.AclClient.DeleteOrganizationUserMembership | pkg/acl/acl.go:96-112 | the loop removes exactly the role tuples of the pair whose request got through |
| Membership.AclClient.SetOrganizationUserMembership | pkg/acl/acl.go:74-94 | and the set adds the new role if the final write succeeds, which is what it reports |
| Membership.RolesAfterDelete | pkg/acl/acl.go:96-112 | the roles a deletion leaves are exactly those whose request was lost |
| Membership.OthersUntouched | pkg/acl/acl.go:74-112 | no other pair, object or subject is touched |
| Membership.SetReplacesIff | pkg/acl/acl.go:74-94 | a set succeeds and leaves exactly the new role if and only if the role is one of the six, the write gets through and no deletion of a held role was lost |
| Membership.RunLeavesLastRole | pkg/acl/acl.go:74-112 | after any run of undisturbed writes each pair has exactly the role last set, none if since removed, its old ones if never concerned |
| Membership.RunKeepsOneRole | pkg/acl/acl.go:74-112 | hence no such run gives a pair a second role |
| Membership.LostDeletionLeavesTwoRoles | pkg/acl/acl.go:78-92 | one lost deletion leaves two roles |
| Membership.BadRoleRemovesMembership | pkg/acl/acl.go:78-92 | an unknown role is refused after the old role has gone |
| Membership.RoleGivesRights | pkg/acl/fga/fga.fga:14-27 | after a set the user is an effective member, with admin through reader on everything the organization owns, exactly if the role is not pending; a pending one leaves what the deletion alone leaves |
| Membership.RunGivesRights | pkg/acl/acl.go:74-112 | after every run of undisturbed writes the user is an effective member, with admin through reader on everything the organization owns, exactly if the role last set is there and not pending; otherwise the pair's tuples give nothing but the pending role itself |
| Membership.GetOrganizationUsers | pkg/acl/acl.go:149-180 | on a stable store the continuation loop ends and returns exactly the tuples of users on the organization, in order |
| Membership.GetUserOrganizations | pkg/acl/acl.go:182-213 | likewise those of the user on organizations |
| Membership.ListingsAreTransposes | pkg/acl/acl.go:149-213 | both listings visit the tuple of a pair and role exactly once if it is stored and never otherwise |
| InfluxRewriteTrees.HijackRewrites | pkg/repository/influx_transpiler.go:303-333 | on comparison trees: with a value the leftmost comparison on the old name is rewritten, with an empty value all of them; every other node, all ids and the shape stay |
| InfluxRewriteTrees.ExtractFinds | pkg/repository/influx_transpiler.go:282-301 | extraction returns the first non-empty string compared with the name, and found exactly if there is one |
| InfluxRewriteTrees.ExtractConstExpr | pkg/repository/influx_transpiler.go:282-301 | the loop over the arguments computes that |
| InfluxRewriteTrees.ExtractAfterHijack | pkg/repository/influx_transpiler.go:282-333 | extracting the new name after a rewrite returns the new value, unless an earlier comparison on the new name has a non-empty string |
| InfluxRewriteExact.HijackExactIff | pkg/repository/influx_transpiler.go:303-333 | on trees of comparisons and bare identifiers, with a value and a new name other than the old: the result is the tree with just its leftmost comparison on the old name rewritten if and only if no bare identifier on the old name precedes that |
| InfluxRewriteExact.BareIdentifierOverwritesSibling | pkg/repository/influx_transpiler.go:304-321 | for example, a bare identifier as first operand has its sibling replaced whole |
| InfluxRewriteInPlace.HijackConstExpr | pkg/repository/influx_transpiler.go:303-333 | overwriting nodes in place leaves exactly the tree, and returns exactly the pair, of the function, on the same nodes |
| InfluxRewriteInPlace.HijackArguments | pkg/repository/influx_transpiler.go:324-332 | the argument loop, with its early return, likewise |
| InfluxFilter.AcceptsAndOnly | pkg/repository/influx_transpiler.go:126-210 | accepted trees contain no OR, NOT, selection or unknown function at any depth |
| InfluxFilter.AcceptsExactly | pkg/repository/influx_transpiler.go:34-275 | which trees are accepted: values, typed identifiers, `:` between a list of primitives and a constant, and ANDs and comparisons of accepted trees; all others are refused |
| InfluxFilter.StringIsJoin | pkg/repository/influx_transpiler.go:183-210 | the string is the fragments of the conjuncts, in order, joined by `&&` |
| InfluxFilter.SplitInvertsJoinIff | pkg/repository/influx_transpiler.go:202-207 | splitting at `&&` gives the fragments back if and only if none contains `&&` and none but the last ends with `&` |
| InfluxFilter.FilterSurvivesIff | pkg/repository/influx_transpiler.go:139-260 | splitting an accepted filter's string gives its conjuncts' fragments back if and only if no leaf's name or value contains `&&` and no value compared with a timestamp ends with `&`, the last leaf excepted |
| InfluxFilter.TrailingAmpersandIsLost | pkg/repository/influx_transpiler.go:160-162 | `t = "a&" AND s = "b"`, with `t` a timestamp, is split in the wrong place |
| InfluxFilter.ReadsWhatWasWrittenIff | pkg/repository/influx_transpiler.go:164-178 | a comparison fragment reads back as its column, operator and constant if and only if neither name nor constant contains a quote |
| InfluxFilter.QuotedConstantIsMisread | pkg/repository/influx_transpiler.go:164-178 | `s = "a\"b"` is accepted and its fragment does not read back as that comparison |
| InfluxFilter.PipelineSelects | pkg/repository/influx_transpiler.go:139-210 | applying the fragments one after the other keeps exactly the records that satisfy the whole conjunction, in order |
| InfluxFilter.SplitPipelineSelects | pkg/repository/influx_transpiler.go:139-210 | the same from the one string, split at `&&`; what is kept is the records at the places of the satisfying ones, in order |
| Service.Service.GetUserAdmin | pkg/service/service.go:203-221 | answers with the user's current row, except perhaps its update time, exactly if there is such a user or a live entry under the key, and fills the cache on a miss |
| Service.Service.GetUserByUIDAdmin | pkg/service/service.go:223-241 | likewise by UID, filling both keys |
| Service.Service.GetUser | pkg/service/service.go:174-201 | likewise, with `me` standing for the caller |
| Service.Service.CreateUser | pkg/repository/repository.go:288-301 | a row with a fresh UID is added without touching the cache, or nothing changes on a duplicate id or a failing statement; coherence is kept |
| Service.Service.UpdateAuthenticatedUser | pkg/service/service.go:286-313 | both keys are gone even if the statement fails; the row changes only if it succeeds; coherence is kept |
| Service.Service.DeleteUser | pkg/service/service.go:315-335 | deletes the row and leaves no live entry under its id, or changes no row |
| Service.Service.CheckUserPassword | pkg/service/service.go:337-356 | decides by the stored hash while the row exists, by a still cached one afterwards |
| Service.Service.UpdateUserPassword | pkg/service/service.go:358-368 | drops the cached hash, then stores the new one if the statement succeeds |
| Service.CachedHashOutlivesRow | pkg/service/service.go:337-356 | a user who has logged in is deleted, and the password is accepted for another 300 seconds and no longer |
| Service.Service.CreateToken | pkg/service/service.go:393-432 | stores an active token with the expiry asked for and caches it, or changes nothing on a bad time to live, a duplicate or a failing statement; coherence is kept |
| Service.Service.DeleteToken | pkg/service/service.go:460-478 | removes the named token and its entry |
| Service.Service.ValidateToken | pkg/service/service.go:484-499 | accepts exactly the stored access tokens of owners other than the nil UID and answers with the owner |
| ServiceState.AcceptsOnlyUsableIff | pkg/service/service.go:484-499 | only active, unexpired tokens are accepted if and only if every stored token of an owner other than the nil UID is active and unexpired |
| Service.AcceptsExpiredToken | pkg/service/service.go:484-499 | a token of one second is accepted an hour after it has expired |
| ServiceState.RewriteKeepsCoherent | pkg/service/cache.go:114-122 | once both keys of a user are gone, any change or deletion of the row keeps all entries coherent |
| ServiceState.NewPasswordKeepsCoherent | pkg/service/cache.go:142-150 | once the hash entry is gone, a new password keeps all entries coherent, user entries included |
| ServiceState.TokenChangeKeepsCoherent | pkg/service/cache.go:170-178 | once a token's entry is gone, the token may go |
| ServiceState.OwnEntry | pkg/service/cache.go:78-95 | an entry under a user's id or UID is that user's own, if no id equals a UID |
| ServiceState.ConvertShows | pkg/service/convertor.go:124-165 | the conversion copies the columns one by one; the slug spells the display name's words, or is the id if there is none |
| Service.Service.ExpireTimeFor | pkg/service/service.go:409-421 | the expiry is the current time plus the time to live, the end of 2099 for -1, the time asked for, or the epoch; other negative times to live are refused |
| Namespaces.AvailableIffNoCollision | pkg/handler/publichandler.go:251-288 | for ids that do not mix dash and underscore: AVAILABLE exactly if no stored id has the same normal form |
| Namespaces.AdminAvailableIff | pkg/handler/privatehandler.go:166-206 | the admin endpoint decides likewise for ids that pass its validation and refuses exactly the others |
| Namespaces.AnswersExactly | pkg/handler/publichandler.go:261-288 | USER exactly for stored ids, RESERVED exactly for others whose spelling with dashes and underscores swapped is stored |
| Namespaces.SoundIffAtMostOneSeparator | pkg/handler/publichandler.go:251-288 | against stored ids of any form, the check is sound for exactly the ids with at most one separator |
| Namespaces.SoundForUnmixedIff | pkg/handler/publichandler.go:251-288 | against stored ids that do not mix dash and underscore, for exactly the ids that do not mix them either |
| Namespaces.SoundIffGuarded | pkg/handler/publichandler.go:251-288 | against a given set of stored ids with different normal forms, the check is sound for every id if and only if each stored one has at most one separator or no dash |
| Namespaces.StoredHereAreSafe | pkg/service/convertor.go:234-239 | hence it is sound for every id against `usr-` ids with a separator-free rest and ids without separators |
| Namespaces.MixedIdEscapes | pkg/handler/publichandler.go:261-288 | `a_b-c` passes although `a-b-c` is stored |
| Namespaces.RunsKeepNormalFormsApart | pkg/handler/publichandler.go:261-288 | every run of atomic check-then-create keeps normalisation injective on the ids, loses none, and leaves every asked name taken in some spelling |
| Slug.GeneratesSlug | pkg/service/convertor.go:35-49 | the result has only lower-case letters, digits and hyphens, none doubled, none at an end |
| Slug.FixedPoints | pkg/service/convertor.go:35-49 | the strings of that form are exactly the fixed points; the function is idempotent |
| SlugWords.SlugSpellsWords | pkg/service/convertor.go:35-49 | of any name the slug keeps exactly the lower-case letters and digits, in order, with one hyphen between two neighbours that have a space or hyphen between them in the name, and nothing else |
| SlugWords.WordsDetermineSlug | pkg/service/convertor.go:35-49 | and that determines the slug |
| Windows.OffsetAlignsIff | pkg/repository/influx.go:363-371 | the offset lies in [0, 24h); a window boundary falls on every start if and only if the window divides 24h |
| Windows.BucketsAreWhole | pkg/repository/influx.go:212-219 | with the computed offset and a window that divides 24h, the clipped windows follow each other from start to stop, each but the last a whole window; an empty range has none |
| Windows.CountsAddUp | pkg/repository/influx.go:212-219 | the bucket counts add up to the number of triggers whose time lies in the range |
| Windows.CollectChart | pkg/repository/influx.go:284-295 | the result loop keeps times and counts in step, counts cut to 32 bits |
| Windows.ChartAddsUp | pkg/repository/influx.go:284-295 | wherever the windows lie, each of the chart's counts is the number of triggers in its window and they add up to those in the range, if there are fewer than 2^31 |

## Left out

- GORM, Postgres, Redis, InfluxDB and OpenFGA themselves: the model has ordered limited selections, keys with expiry, sets of tuples with refused duplicate writes and missing deletions, and epoch-aligned windows with an offset.
- How the compiled filter is embedded: it is one conjunct of the WHERE clause; GORM's own parentheses and the `WithoutParentheses` flag are not modelled.
- `strcase`, RFC 3339 parsing, number formatting, the enum registry and lower-casing are parameters; so is the id check of `CheckNamespaceAdmin`.
- FilterOutcome.PanicsIffOffends: does not tell panics from errors in trees whose leaves have other shapes, such as a comparison of comparisons; that neither is accepted is FilterAcceptance.AcceptsExactly.
- FilterRows.UnrelatedAreIndependent: takes values that are not empty and have no LIKE metacharacters, and a character that occurs in none of them; other conditions are covered by FilterRows.SelectsItsRowsIffOrderSafe as far as rows satisfy them independently.
- FilterMeaning.FilterKeptIffOrderSafe: asks for pairwise different conditions, because with repeated ones (`a AND (a OR a)`) regrouping can be harmless by coincidence; the sufficient half, FilterMeaning.OrderSafeFilterSelectsItsRows, does not ask for it.
- FilterMeaning.View: a leaf means what its own SQL text means (a substring for `email` and `id`); filters whose leaves are malformed, such as a constant used as a condition, have no meaning of their own; FilterPlaceholders covers what the compiler does with them.
- PrimaryPinTheorems.ReadYourWritesIffFrameCovers: pin writes are taken to succeed, although the code ignores their errors, and time frames are positive, because Redis reads zero as no expiry.
- PrimaryPin and UserCache: which server a read goes to is decided by the pin in the first and left open in the second, so the cache results hold for every choice; UserCacheTheorems.CommitIsVisible says what each means for an answer.
- UserCache: the uncached read with which an update answers is not a step, because it touches no shared state.
- UserCache.Convert: the fields an update replaces are one value, and reading a Redis value always decodes what was written.
- UserCache.Enabled: UIDs and ids of new rows are fresh and never reused, the latter being derived from the former.
- Service.Service: ids never equal UIDs, there is no replica lag, Redis does not fail; the avatar and field-by-field conversion are left out as easy, and so are fields an update wipes because the conversion does not carry them.
- Service.Service.CreateUser: no id looks like a UID, because ids are `usr-` and a hash of the UID.
- SecretCache: DeleteToken may start for any access token; its own lookup of the token, which touches no shared state, is not a step.
- Service.Service.GetUserAdmin: a live entry stored under a UID also answers a lookup of that UID as an id; the contract says so.
- ListWalk: rows are created and deleted but not updated in place while a walk is under way, and ListOwners walks are covered where id and uid order agree.
- InfluxFilter.FilterSurvivesIff: comparisons whose operands are themselves calls other than a timestamp.
- Listing.ListTokens: negative page sizes, whose meaning is the database's.
- Listing.ListOwners: an id's place in the database's collation is a number.
- Permissions.CheckPermission: a store that answers with an error; conditions and contextual tuples of the authorization language do not occur in this model.
- Membership.GetOrganizationUsers: a store that changes or fails between pages.
- InfluxFilter.PipelineSelects: takes name normalisation to be idempotent, and leaves out leaves made by `:` and by timestamps, whose fragments are no column comparisons; for those only the split law is stated.
- InfluxFilter.SplitPipelineSelects: leaves out the same leaves as InfluxFilter.PipelineSelects.
- InfluxRewriteInPlace.HijackConstExpr: a node becomes a leaf by replacing its payload; that Go keeps the node's address is the model's node identity.
- Windows.OffsetAlignsIff: start times that are not in UTC, for which the code takes the local date at UTC midnight.
- Servers, gateway wiring, configuration, the Temporal worker, avatars, migrations, preset users, metric permission checks and request defaults: input and output, or settled by one branch.
