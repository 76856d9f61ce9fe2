# Verified model of Cuttlefish

Cuttlefish walks file systems into one shared index (`fs_indexer`), rolls sizes up the directory
tree (`fs_aggregator`), serves scoped searches over the result (`fs_api`) and draws and exports it
(`fs_ui`). This project models the parts of it that compute something and proves what they promise.
Everything rests on one notion of canonical absolute path; a `char` of a path is one byte.

| file | what it models |
|---|---|
| `Text.dfy` | splitting, joining, byte order, sorting, decimal numerals |
| `Paths.dfy`, `ScanRoots.dfy` | root normalization, the cover test, parent chains, Go's `path.Clean`, the overlap check |
| `Aggregation.dfy`, `BottomUp.dfy` | the streaming ancestor fold, and its equality with the sorted pass |
| `Indexer.dfy` | batches, the failure gate, scoped cleanup, and histories of many runs |
| `Like.dfy`, `SqlExpr.dfy` | LIKE matching; a lexer, a precedence parser and three-valued evaluation for the emitted SQL |
| `Search.dfy`, `SearchMeaning.dfy`, `SearchClause.dfy` | the rule compiler and the meaning of its text |
| `Access.dfy`, `Identity.dfy` | the path test, `{user}` grants, suffix rules for identities |
| `SearchScope.dfy`, `SearchQuery.dfy`, `SearchBinds.dfy` | the restricted-user scope, the final clause, bind numbering |
| `Sessions.dfy`, `LoginLimiter.dfy` | the session re-check under interleaving; the login limiter |
| `EnvRefs.dfy`, `ConnString.dfy` | the two `${VAR}` expanders; the libpq connection string |
| `Treemap.dfy`, `TreemapTiling.dfy`, `TreemapView.dfy` | the squarified layout over exact reals, and what is drawn or listed |
| `CsvExport.dfy` | the CSV download and a reader for it |

Code that changes variables step by step is a method or a class proved against a specification
function; the lemmas are about those functions. `dafny verify dfyconfig.toml` checks all of it.

## Where the code and its stated promise differ

The model follows the code. Each difference has an exact condition or a concrete instance.

- `fs_common/src/lib.rs:193-194` says the flag of `expand_env_str` means "exactly one bare reference".
  It is also true for `${A}${`: one reference, no other, and a text ending in an opener.
  `EnvRefs.FlagsAgreeExactly` gives the condition, for all strings.
- `fs_api/auth.go:233-234` reads "no row updated" as "not due". The row may also have been deleted by a
  logout in between; the request is then let in whatever the age of the last check. And `fs_api/auth.go:252-277`
  lets a request in at the end of an exchange however long that took. `Sessions.AcceptanceIsFresh` says for every step
  that lets a request in when the check behind it is at most one interval old; `Sessions.LogoutRaceIsStale` and
  `Sessions.SlowExchangeIsStale` are runs in which it is older. With exchanges no longer than one interval only the
  deleted row remains (`Sessions.OnlyLogoutMakesStale`).
- `fs_api/search.go:437-440` stops at `/` after binding the prefixes before it, which leaves binds that no
  placeholder names. `SearchBinds.EveryBindIsNamedOnce` shows that this needs `/` behind another prefix,
  and `SearchBinds.ResolvedRootComesFirst`, with `Access.ResolvePrefixes`, that access resolution over canonical stored
  grants never produces that.
- `fs_api/auth.go:395-396` says rule order never matters. `Identity.OrderIrrelevant` and `Identity.OrderMatters`
  show that it holds exactly when rules with equal lowercased suffixes agree; the rules the admin page stores are such
  (`Identity.StoredRulesAreUnambiguous`).
- `fs_aggregator/src/main.rs:126-130` claims the same totals as the sorted pass. That holds exactly when every ancestor
  two or more levels below `/` of an indexed row is indexed itself (`BottomUp.StreamingIsBottomUpExactly`), which fails
  for every scan root three or more levels deep (`BottomUp.DeepRootDiffers`): there only the streaming pass counts the
  rows for the directories above the root. With negative sizes saturation makes the streamed totals themselves depend
  on the order (`BottomUp.NegativeSizesDependOnOrder`).
- `fs_ui/src/components/TreemapView.tsx:51`: no upper bound on the pane's width is needed for the guard never to
  drop an item. Entries vanish from the view exactly when an undrawn entry shares a drawn entry's path
  (`TreemapView.EveryEntryOnce`).
- `fs_ui/src/pages/SearchPage.tsx:548`: a reader that takes a final line feed as a terminator loses a last record
  that is one empty cell, and nothing else (`CsvExport.TerminatedAgreesExactly`).

## Model

| member | source | states |
|---|---|---|
| Paths.NormalizeScanRoot | fs_common/src/lib.rs:104-138 | the component loop accepts exactly the absolute spellings without `..` and names the error otherwise |
| Paths.NamesOfRender | fs_common/src/lib.rs:117-137 | printing components and splitting a path undo each other |
| Paths.NormalizedIsCanonical | fs_common/src/lib.rs:90-138 | a normalized root is canonical, keeps its components, and normalizes to itself |
| Paths.CanonicalIsNormal | fs_common/src/lib.rs:104-138 | the canonical paths are exactly the fixed points of normalization |
| Paths.NormalizedIffSpells | fs_common/src/lib.rs:104-138 | a spelling normalizes to a canonical path iff it is absolute, has no `..` and has the same components |
| Paths.ExtraComponent | fs_common/src/lib.rs:119-132 | empty and `.` components make no difference anywhere in a spelling, and `..` is refused anywhere |
| Paths.CoversIsComponentPrefix | fs_common/src/lib.rs:143-155 | on canonical paths the byte-prefix test is the component-prefix test, so `/var` never covers `/vardata` |
| Paths.CoversIsOnChain | fs_common/src/lib.rs:151-155 | a root covers a path iff it is the path or one of its repeated parents |
| Paths.LastSlashIndex | fs_indexer/src/main.rs:67-67 | the index of the last separator, or a negative number when there is none |
| Paths.GetParentPath | fs_indexer/src/main.rs:58-70 | trimming and cutting loop computes the specified parent for every byte string |
| Paths.ParentOfAnyPath | fs_indexer/src/main.rs:58-70 | of any byte string the parent is what stands before the last separator that something follows; trailing separators do not count, and without a separator there is none |
| Paths.ParentOfCanonical | fs_indexer/src/main.rs:49-70 | the parent of a canonical path drops its last component; only `/` has none |
| Paths.ParentChainIsAncestors | fs_aggregator/src/main.rs:169-182 | climbing parent by parent ends at `/` and visits exactly the aggregator's directories before it |
| Paths.AncestorsAreCovers | fs_aggregator/src/main.rs:178-182 | the directories a row folds into are its proper component prefixes other than `/` |
| Paths.CleanCharacterizesCanonical | fs_api/auth.go:514-523 | Go's cleaning gives a canonical path and leaves a path alone iff it is canonical |
| ScanRoots.NormalizeAll | fs_common/src/lib.rs:59-62 | every root normalized, in the order configured, or the first that fails with its own reason |
| ScanRoots.CoveringRootSortsFirst | fs_common/src/lib.rs:70-75 | a root sorts before everything it covers |
| ScanRoots.EarlierCoversLater | fs_common/src/lib.rs:70-75 | every overlap shows up as an earlier root covering a later one |
| ScanRoots.FindOverlap | fs_common/src/lib.rs:73-85 | the one-directional nested scan finds nothing iff no two roots overlap in either direction |
| ScanRoots.Roots | fs_common/src/lib.rs:58-87 | succeeds iff there is a root, all normalize and different ones do not overlap; the result is sorted, distinct, canonical and disjoint, and a refusal names its reason |
| ScanRoots.CoveredByAtMostOneRoot | fs_common/src/lib.rs:51-57 | disjoint canonical roots share no path, so responsibility for a path is never ambiguous |
| Aggregation.SelectedRows | fs_aggregator/src/main.rs:74-146 | the streamed rows are the files and directories other than `/proc/kcore` |
| Aggregation.SelfAndAncestorsShape | fs_aggregator/src/main.rs:178-182 | after the path itself the ancestor loop meets its directories and then `/`, where it stops |
| Aggregation.FoldIntoAncestors | fs_aggregator/src/main.rs:178-207 | folding one row updates each of its directories once and no other entry |
| Aggregation.RunAggregation | fs_aggregator/src/main.rs:119-211 | after the row loop every directory, user and group entry is the total over its rows |
| Aggregation.StepAgrees | fs_aggregator/src/main.rs:169-207 | one more row keeps every directory's entry equal to the total over the rows so far |
| Aggregation.StepUsersAgree | fs_aggregator/src/main.rs:157-167 | one more row keeps every user's and group's totals exact |
| BottomUp.NegativeSizesDependOnOrder | fs_aggregator/src/main.rs:183-186 | three files of any one directory, one size negative, stream in two orders to two different totals |
| BottomUp.TotalPermutation | fs_aggregator/src/main.rs:124-130 | the order in which rows stream in does not change any total |
| BottomUp.TotalUnion | fs_aggregator/src/main.rs:126-127 | totals of disjoint groups of rows merge into the total of both |
| BottomUp.SizeIsCappedSum | fs_aggregator/src/main.rs:157-167 | a saturating total is the true sum capped once at the largest 64-bit value |
| BottomUp.TimesAreExtremes | fs_aggregator/src/main.rs:187-192 | first and last times bound every row's time and are both reached |
| BottomUp.StepExact | fs_aggregator/README.md:5-10 | one row of the sorted pass hands its parent exactly the row and all it has gathered |
| BottomUp.SubtreeComplete | fs_aggregator/README.md:8-10 | with every deep ancestor indexed, when a directory is processed everything below it has already arrived |
| BottomUp.BottomUpReaches | fs_aggregator/README.md:5-10 | on any index the sorted pass gives every directory the total over the rows below it whose chain up to it is indexed |
| BottomUp.BottomUpIsExact | fs_aggregator/README.md:5-10 | with every deep ancestor indexed that is the total over its strict descendants |
| BottomUp.StreamedTotal | fs_aggregator/src/main.rs:124-130 | a streamed entry is the total over the strict descendants in any other order of the rows |
| BottomUp.StreamingRefinesBottomUp | fs_aggregator/src/main.rs:124-130 | for any row order, with every deep ancestor indexed, the streamed aggregates equal those of the sorted children-before-parents pass |
| BottomUp.StreamingIsBottomUpExactly | fs_aggregator/src/main.rs:124-130 | for any row order and any index of fewer than 2^64 rows the two agree iff every ancestor two or more levels below `/` of a row is a row |
| BottomUp.DeepRootDiffers | fs_aggregator/src/main.rs:124-130 | on every index of a scan root three or more levels deep they differ |
| BottomUp.DirectoryHasEntry | fs_aggregator/src/main.rs:169-207 | a directory has an entry iff something lies strictly below it |
| BottomUp.DirectorySizes | fs_aggregator/src/main.rs:169-207 | its size is the capped true sum of what lies below it and its count the number of those rows |
| BottomUp.DirectoryTimes | fs_aggregator/src/main.rs:187-192 | a directory's six times are the extremes over what lies below it |
| BottomUp.OwnerUsage | fs_aggregator/src/main.rs:157-167 | a user or group has an entry iff it owns a row, with the capped sum and the count |
| Indexer.MadeRecordsAreFromWalk | fs_indexer/src/main.rs:165-206 | a record's raw path is recoverable, and its hash, text and metadata are functions of it |
| Indexer.MadeRecordsKnowTheirParent | fs_indexer/src/main.rs:165-206 | the record of a canonical path carries the metadata it was given and the hash of its parent directory; only `/` has none |
| Indexer.UpsertOneOverwrites | fs_indexer/src/main.rs:624-651 | although the update skips `path` and unchanged rows, it leaves exactly the new record |
| Indexer.OverwriteIsAnUpsert | fs_indexer/src/main.rs:634-651 | record-by-record overwriting is one of the outcomes a set-based upsert may have |
| Indexer.UpsertedTwice | fs_indexer/src/main.rs:359-386 | two batches in a row amount to one batch of both |
| Indexer.BatchesRefineOverwrite | fs_indexer/src/main.rs:580-656 | with each path sent once, any batching leaves what overwriting one by one leaves |
| Indexer.Database.UpsertDistinct | fs_indexer/src/main.rs:620-651 | every staged path ends up with one of the records staged for it, all else is untouched |
| Indexer.Database.InsertBatch | fs_indexer/src/main.rs:583-656 | a batch commits whole, hashes included, or changes nothing; staging is empty either way |
| Indexer.Database.CommitOrDrop | fs_indexer/src/main.rs:363-369 | the index stays the upsert of the committed batches and the seen-set their hashes, and the flag is set iff an insert so far failed |
| Indexer.Database.ConsumeRecords | fs_indexer/src/main.rs:352-386 | for every batch size and failure pattern all records are taken, exactly the batches whose insert did not fail are committed, and failure is reported iff some insert failed |
| Indexer.CommittedAreReceived | fs_indexer/src/main.rs:359-386 | only received records are committed |
| Indexer.PrunesOnlyComplete | fs_indexer/src/main.rs:410-421 | a run that prunes has committed every record it received |
| Indexer.Database.CleanupStaleEntries | fs_indexer/src/main.rs:466-493 | removes exactly the unseen entries under a scan root, on both branches |
| Indexer.Database.Run | fs_indexer/src/main.rs:352-452 | what goes wrong determines one run: it commits the batches that did not fail, prunes iff the walk finished and no insert, identity refresh or cleanup failed, succeeds iff the indexes were built too, and removes no key after a panicked walk or a failed batch |
| Indexer.RootTableCovers | fs_indexer/src/main.rs:480-488 | the SQL test against root and prefix bytes is the cover test |
| Indexer.UnscopedDeleteIsScoped | fs_indexer/src/main.rs:473-479 | for a run rooted at `/` the delete without prefix test removes the same rows |
| Indexer.FailedRunKeepsKeys | fs_indexer/src/main.rs:410-421 | a run with a panicked walk or any failed batch never removes a key and leaves alone every path it committed nothing for |
| Indexer.UnprunedKeepsKeys | fs_indexer/src/main.rs:410-421 | a run that did not prune never removes a key |
| Indexer.TransitionDecides | fs_indexer/src/main.rs:432-441 | after a run each path is as the run decided, or as before if it decided nothing |
| Indexer.LastDecidingRunWins | fs_indexer/src/main.rs:454-466 | over any history of runs, failed ones included, the last run that decided about a path determines it |
| Indexer.CoversWhatItSends | fs_indexer/src/main.rs:460-465 | a successful run decides exactly the paths its roots cover |
| Indexer.UncoveredIsUntouched | fs_indexer/src/main.rs:460-465 | over successful runs a path no run covers is as at the start |
| Indexer.LastCoveringRunWins | fs_indexer/src/main.rs:454-466 | over successful runs with any root sets a path is indexed iff the last run covering it sent it, with that record |
| Indexer.CleanRunIsSuccessful | fs_indexer/src/main.rs:388-441 | a run over what its roots hold counts as successful iff nothing of the walk, the inserts, the identity refresh and the cleanup failed |
| Indexer.CleanRunsDetermineTheIndex | fs_indexer/src/main.rs:454-466 | over any history of clean runs the last one covering a path says whether it is indexed, and with which record its walk sent |
| Like.EscapedMatchesLiterally | fs_api/search.go:447-452 | an escaped value matches itself and nothing else, whatever pattern follows |
| Like.StartsWithPattern | fs_api/search.go:412-414 | escaped value plus `%` matches iff the value is a prefix |
| Like.ContainsPattern | fs_api/search.go:409-411 | escaped value between `%` matches iff the value occurs |
| Like.EndsWithPattern | fs_api/search.go:415-417 | `%` plus escaped value matches iff the value is a suffix |
| Like.FoldEscape | fs_api/search.go:447-452 | case folding and escaping commute |
| Like.ILikeIsLiteral | fs_api/search.go:409-417 | the three ILIKE operators are literal tests on the folded strings, for every value |
| SqlExpr.ParseParens | fs_api/search.go:376-378 | parentheses shield a predicate from the connectors around it |
| SqlExpr.LexAppend | fs_api/search.go:363-370 | text continued at a word boundary is read piecewise |
| Search.BuildCondition | fs_api/search.go:379-427 | every branch: the bind and the predicate that `SearchMeaning.ConditionMeans` gives a meaning are appended and named by position, or an error and no bind |
| Search.CompileStep | fs_api/search.go:341-371 | compiling one more rule appends its connector, its predicate and its one bind |
| Search.BuildSearchWhere | fs_api/search.go:337-374 | succeeds iff every rule compiles, with text and binds in rule order; otherwise the first bad rule names the error |
| SearchMeaning.ConditionMeans | fs_api/search.go:379-427 | a predicate is TRUE iff the column the rule names holds a number or a text that stands to the value as the operator in the request says: equal, above, below, containing, beginning, ending, matching; NULL never does |
| SearchMeaning.CompilesWhenAcceptable | fs_api/search.go:341-427 | which field names, operators and values compile, and which of the four errors any other rule gets |
| SearchMeaning.RuleMeans | fs_api/search.go:352-361 | a negated rule takes exactly the rows its plain form leaves out, NULL columns included |
| SearchMeaning.LexRule | fs_api/search.go:359-370 | a rule's text, negated or not, reads as the tokens meant |
| SearchClause.LexWhere | fs_api/search.go:341-373 | the whole clause reads as its rules' tokens and connectors in order |
| SearchClause.RuleParses | fs_api/search.go:376-378 | each rule parses as one operand whatever follows it |
| SearchClause.WhereParses | fs_api/search.go:363-370 | by SQL precedence the clause is the OR of its AND-runs, the first connector being ignored |
| SearchClause.WhereTrue | fs_api/search.go:363-370 | wherever AND and OR are TRUE as they should be, the clause is TRUE iff a left-to-right reading of its runs is |
| SearchClause.SelectsIsSomeRun | fs_api/search.go:363-370 | the left-to-right reading is "some maximal AND-run matches throughout" |
| SearchClause.WhereTextMeans | fs_api/search.go:334-374 | the emitted text parses to one expression, TRUE of exactly the rows the rules describe, also with more binds after its own |
| SearchClause.WhereSelectsWhatRulesSay | fs_api/search.go:334-374 | the emitted text with its binds, parsed and evaluated as SQL does, selects exactly the rows the rules describe, read off the field names, operators and connectors of the request |
| Access.AllowsIsCoverage | fs_api/auth.go:514-530 | on any string the test is "canonical and covered by a granted prefix" |
| Access.ResolvePrefixes | fs_api/auth.go:443-508 | the prefixes are, each once and in byte order, every grant with the name filled in if the name is one safe component, else the grants without the mark; canonical if the stored grants are |
| Access.AcceptedNames | fs_api/auth.go:415-424 | a name is filled in iff it is one path component without NUL |
| Access.AccessIsGranted | fs_api/auth.go:431-530 | from stored grants to the answer: a restricted user may see a path iff it is canonical and the components of some grant, each filled in, are its first components |
| Access.NobodySharesAPath | fs_api/auth.go:431-530 | one grant with `{user}` never lets two different users see the same path |
| Access.MarkedGrantSeparates | fs_api/auth.go:501-508 | so of any number of grants, no single marked one opens a path to two users |
| Access.ReplaceAtMark | fs_api/auth.go:501-508 | the leftmost mark gives way to the whole name, and what follows it is filled in on its own |
| Access.ReplaceCut | fs_api/auth.go:501-508 | `{user}` is filled in component by component, never across a separator |
| Access.NameSurvives | fs_api/auth.go:501-508 | a filled component contains the whole name |
| Access.ExpansionIsCanonical | fs_api/auth.go:415-424 | filling in any accepted name keeps a canonical prefix canonical with the same number of components |
| Access.ExpansionDeterminesName | fs_api/auth.go:501-508 | however often the mark occurs, equal expansions come from equal names |
| Access.ExpansionsAreDisjoint | fs_api/auth.go:501-508 | two accepted names get disjoint subtrees from one `{user}` grant |
| Identity.MapIdentity | fs_api/auth.go:398-413 | the loop rewrites by the first longest matching suffix, or drops the domain |
| Identity.MappedMeans | fs_api/auth.go:394-413 | the name is the identity with a longest matching suffix replaced and all before it kept, or, when no rule matches, what stands before the first `@` |
| Identity.BestIsLongest | fs_api/auth.go:394-396 | a rule is found when any matches, and none that matches is longer |
| Identity.OrderIrrelevant | fs_api/auth.go:394-396 | rules that agree on equal suffixes map every identity alike in any order |
| Identity.StoredRulesAreUnambiguous | fs_api/admin.go:196-200 | rules stored lowercased under distinct suffixes agree as required |
| Identity.OrderMatters | fs_api/auth.go:394-413 | any other rules have two orders and an identity that map to different names |
| SearchScope.ScopeStep | fs_api/search.go:437-443 | each prefix adds its two binds in order; at `/` nothing is added |
| SearchScope.ScopeClause | fs_api/search.go:432-445 | the loop appends the stated binds and returns the disjunction, FALSE for no prefix, TRUE at `/` |
| SearchScope.ScopeParses | fs_api/search.go:436-444 | the clause parses as one operand: the OR over all prefixes |
| SearchQuery.SlashPattern | fs_api/search.go:441-442 | the second bind matches exactly the paths strictly below the prefix, wildcards in it notwithstanding |
| SearchQuery.ScopeTrue | fs_api/search.go:429-445 | the clause is TRUE iff the path is under one of the prefixes |
| SearchQuery.CanonicalAllows | fs_api/auth.go:517-530 | on canonical paths the access test is the prefix test |
| SearchQuery.FinalTextParses | fs_api/search.go:129-132 | the final text parses as (rules) AND scope whatever connectors the rules contain |
| SearchQuery.FinalClauseIsScoped | fs_api/search.go:124-132 | the final clause selects a row iff the rules do and the caller may see its path |
| SearchBinds.BuildScopedWhere | fs_api/search.go:124-132 | the rules' clause and binds, for a restricted caller with the scope added, or the first bad rule's error |
| SearchBinds.SearchFiles | fs_api/search.go:119-156 | refuses no rules or names the first bad rule, otherwise query text and binds with clamped limit and offset last |
| SearchBinds.EffectiveLimit | fs_api/search.go:144-147 | a limit between 1 and 10000 is kept, any other becomes 200 |
| SearchBinds.EffectiveOffset | fs_api/search.go:148-151 | a negative offset becomes 0, any other is kept |
| SearchBinds.SortColumnIs | fs_api/search.go:134-138 | sorting takes the searchable fields except the two identity names, and the path for anything else |
| SearchBinds.QueryReads | fs_api/search.go:139-203 | after the clause the query orders by that column in the direction asked for, then names the limit and the offset, in this order |
| SearchBinds.ScopePlaceholders | fs_api/search.go:436-444 | the scope's placeholders continue the numbering without gap |
| SearchBinds.QueryPlaceholders | fs_api/search.go:153-203 | the query names the rules' binds, the scope's, then limit and offset |
| SearchBinds.EveryBindIsNamedOnce | fs_api/search.go:124-156 | placeholders are $1, $2, … once each for all binds iff `/` is not granted behind another prefix |
| SearchBinds.SortedRootComesFirst | fs_api/auth.go:451-452 | sorted absolute prefixes have `/` first |
| SearchBinds.ResolvedRootComesFirst | fs_api/auth.go:443-453 | so resolved canonical prefixes never have `/` behind another |
| Sessions.StepKeepsInv | fs_api/auth.go:165-278 | every step of every request keeps the row and its stamps consistent |
| Sessions.ClaimsAreSpaced | fs_api/auth.go:222-235 | in every interleaving the issue and the claims are more than one interval apart |
| Sessions.RowLasts | fs_api/auth.go:165-185 | from its issue the session is there until a logout, a successful revocation or a clean-up later than its lifetime, which is a day with a refresh token and one interval without |
| Sessions.LoadsWhileLive | fs_api/auth.go:202-214 | a request finds the session iff nothing has ended it since its issue and it is younger than that lifetime |
| Sessions.WasLoaded | fs_api/auth.go:202-278 | every request that is not turned away has loaded the session while it was alive |
| Sessions.AcceptingSteps | fs_api/auth.go:202-278 | only a request's own claim or the end of its own exchange lets it in, and only after it has loaded the session younger than its lifetime and not yet ended |
| Sessions.AcceptanceIsFresh | fs_api/auth.go:226-277 | whichever step lets a request in, the last issue or claim is at most one interval old iff the step is a claim that finds the row or it was so before |
| Sessions.ClaimIsFreshIfRowPresent | fs_api/auth.go:226-242 | a claim, also one that sends the request to the provider, leaves a fresh check iff it finds the row or the last was fresh |
| Sessions.ClaimAsksWhenStale | fs_api/auth.go:226-242 | a claim sends the request to the provider iff the row holds a refresh token and the last issue or claim is more than one interval old; otherwise it lets the request in |
| Sessions.VerdictDecides | fs_api/auth.go:244-277 | whatever happens in between, a request the provider refused is never let in, and one it refreshed is never turned away and stores the token it was given |
| Sessions.AcceptedOnOwnClaim | fs_api/auth.go:252-277 | what a request remembers of its claim is the time of a claim step of its own, won if it went to the provider |
| Sessions.QuickExchangeIsFresh | fs_api/auth.go:252-277 | an exchange of at most one interval ends in an acceptance with a fresh check |
| Sessions.OnlyLogoutMakesStale | fs_api/auth.go:226-277 | with such exchanges a request is let in on a stale check iff its claim found the row gone and the last check stale |
| Sessions.LogoutRaceIsStale | fs_api/auth.go:233-235 | a run in which a logout in between lets a stale request in |
| Sessions.SlowExchangeIsStale | fs_api/auth.go:252-277 | a run in which, with the row present throughout, a slow exchange lets a stale request in |
| Sessions.DeletedStaysDeleted | fs_api/auth.go:273-276 | a late UPDATE never brings a deleted session back |
| Sessions.PendingBlocksClaims | fs_api/auth.go:222-231 | while a prompt exchange is under way nobody else can claim |
| Sessions.StepKeepsTokens | fs_api/auth.go:254-276 | every step keeps the stored token unspent unless an exchange holds it |
| Sessions.NoTokenSpentTwice | fs_api/auth.go:222-278 | with prompt exchanges, working writes and a rotating provider no refresh token is presented twice |
| LoginLimiter.Limiter.LoginAllowed | fs_api/auth.go:49-54 | allowed iff fewer than ten failures since the last success, or more than fifteen minutes since the last one whose number is a multiple of ten |
| LoginLimiter.Limiter.LoginFailed | fs_api/auth.go:56-69 | the address's failures grow by this one, others are untouched, and the records go on standing for them |
| LoginLimiter.Limiter.LoginSucceeded | fs_api/auth.go:71-75 | the address's failures are forgotten, others are untouched |
| LoginLimiter.RefusedOnlyWhileLocked | fs_api/auth.go:49-69 | after any admitted failures an address is refused iff one of the tenth ones is at most fifteen minutes ago |
| LoginLimiter.LockSeparates | fs_api/auth.go:65-67 | every tenth admitted failure is more than fifteen minutes before the next one |
| LoginLimiter.AtMostTenPerWindow | fs_api/auth.go:584-613 | any closed fifteen-minute window holds at most ten admitted failures of an address |
| EnvRefs.RefAtIsTheMatch | fs_api/config.go:139-139 | the expression matches at a position iff a braced name stands there, and then only that name |
| EnvRefs.NameBefore | fs_common/src/lib.rs:202-206 | cutting at the first `}` and testing the name finds the expression's match or none |
| EnvRefs.ReadRef | fs_api/config.go:172-181 | a reference at the first opener gives way to its value or names the unset variable, and reading goes on behind it |
| EnvRefs.ReadOpener | fs_api/config.go:139-139 | a first opener that starts no reference is copied, and reading goes on behind it |
| EnvRefs.ExpandEnvStr | fs_common/src/lib.rs:195-225 | the scanner ends and gives the text or the failing name that leftmost replacement gives, for every string and environment |
| EnvRefs.WholeRefFlag | fs_common/src/lib.rs:216-222 | the loop's flag is a property of the original string, whatever the values are |
| EnvRefs.FlagsAgreeExactly | fs_common/src/lib.rs:222-222 | the flag equals the anchored match unless one leading reference is followed by text that ends in an opener |
| EnvRefs.FlagsDisagreeSomewhere | fs_api/config.go:140-140 | `${A}${` is a bare reference to one program and not to the other |
| ConnString.LibpqEscape | fs_api/config.go:93-106 | the loop quotes the value with every quote and backslash escaped |
| ConnString.QuotedReadsBack | fs_common/src/lib.rs:271-283 | libpq's reader undoes the escaping and stops at the printer's quote |
| ConnString.PrintReadsBack | fs_api/config.go:91-112 | a printed string reads back as exactly its settings, nothing added, for all values |
| ConnString.BothConnectionStringsReadBack | fs_common/src/lib.rs:285-292 | both programs' connection strings read back as host, user, password and dbname, each with its own value, and only the API's names an sslmode |
| ConnString.EscapersAgree | fs_common/src/lib.rs:272-283 | escaping the UTF-8 bytes is encoding the escaped code points |
| Treemap.GrowRow | fs_ui/src/components/TreemapView.tsx:54-62 | the row loop ends at the length that `TreemapTiling.RowIsGreedy` characterizes |
| Treemap.PushRow | fs_ui/src/components/TreemapView.tsx:67-71 | one row's tiles are appended in item order along the edge |
| Treemap.PlaceRow | fs_ui/src/components/TreemapView.tsx:64-84 | the row's strip is appended on the shorter side and the rest of the rectangle remains |
| Treemap.Squarify | fs_ui/src/components/TreemapView.tsx:46-89 | the nested loops compute the recursive layout |
| TreemapTiling.RowStopsAtFirstWorsening | fs_ui/src/components/TreemapView.tsx:54-62 | that length is the only one at which no earlier growth raised the compared number and the next one would |
| TreemapTiling.WorstRatioIsWorstTile | fs_ui/src/components/TreemapView.tsx:29-40 | the number compared is the largest aspect ratio among the tiles the row would emit |
| TreemapTiling.RowIsGreedy | fs_ui/src/components/TreemapView.tsx:54-62 | a length is that of the row iff none of its items made the worst aspect ratio among the tiles larger and the next item would |
| TreemapTiling.RowsAreGreedy | fs_ui/src/components/TreemapView.tsx:51-86 | every row of the finished layout is greedy in this sense on the rectangle and the items left for it |
| TreemapTiling.StripHits | fs_ui/src/components/TreemapView.tsx:64-84 | a row's tiles partition the band it takes |
| TreemapTiling.RestFits | fs_ui/src/components/TreemapView.tsx:72-84 | what is left of the rectangle has the area of the items left |
| TreemapTiling.TilesInOrder | fs_ui/src/components/TreemapView.tsx:42-46 | tile i is item i with exactly its area, inside the rectangle |
| TreemapTiling.TilesPartition | fs_ui/src/components/TreemapView.tsx:46-90 | no point is in two tiles or outside; with every item placed each point of the rectangle is in exactly one |
| TreemapTiling.TilesDisjoint | fs_ui/src/components/TreemapView.tsx:46-90 | two tiles never share a point |
| TreemapTiling.DroppedItemLeavesAGap | fs_ui/src/components/TreemapView.tsx:51-51 | if the guard ends the loop early part of the rectangle is bare |
| TreemapView.Height | fs_ui/src/components/TreemapView.tsx:108-109 | the pane's height is the whole number nearest to half its width, 320 for widths up to 640 and 680 from 1360 on |
| TreemapView.SortDescends | fs_ui/src/components/TreemapView.tsx:117-119 | sorting is largest first and keeps every entry |
| TreemapView.ScaledFills | fs_ui/src/components/TreemapView.tsx:134-138 | the drawn areas add up to the pane |
| TreemapView.NothingDropped | fs_ui/src/components/TreemapView.tsx:51-51 | with areas of at least 100 and such a pane of any width the guard never ends the loop while items remain |
| TreemapView.AllItemsPlaced | fs_ui/src/components/TreemapView.tsx:121-139 | the drawn entries meet that condition, so each gets a tile |
| TreemapView.TileIsShare | fs_ui/src/components/TreemapView.tsx:42-46 | drawn entry i has tile i, inside the pane, with its exact share of the pane's area |
| TreemapView.TilesCoverThePane | fs_ui/src/components/TreemapView.tsx:134-138 | with anything drawn every point of the pane is in exactly one tile |
| TreemapView.TileIffLargeShare | fs_ui/src/components/TreemapView.tsx:127-130 | an entry gets a tile iff its share of all bytes is worth an area of at least 100 |
| TreemapView.EveryEntryOnce | fs_ui/src/components/TreemapView.tsx:121-140 | every entry is once a tile or a chip iff no undrawn entry shares a drawn path; distinct paths suffice |
| TreemapView.BytesConserved | fs_ui/src/components/TreemapView.tsx:139-142 | the bytes of tiles and chips are all the bytes |
| CsvExport.Guarded | fs_ui/src/pages/SearchPage.tsx:541-543 | no guarded cell begins with a formula character; a harmless cell is left as it is, any other gains one apostrophe |
| CsvExport.EscapedReads | fs_ui/src/pages/SearchPage.tsx:539-545 | an escaped cell reads back as its guarded text and ends where it should |
| CsvExport.ExportReadsBack | fs_ui/src/pages/SearchPage.tsx:538-548 | the file reads back as the headers and the guarded cells, whatever the cells hold |
| CsvExport.GuardIsInjectiveUpToQuote | fs_ui/src/pages/SearchPage.tsx:541-543 | two cells export alike iff they are equal or one is the other with the guard already written |
| CsvExport.TerminatedAgreesExactly | fs_ui/src/pages/SearchPage.tsx:548-548 | reading a last line feed as a terminator agrees iff the last record is not one empty cell |

## Left out

- PostgreSQL itself: connections, COPY format, DDL, migrations, UNLOGGED conversion, index creation, planner
  choices. Tables are maps and sequences, a transaction commits whole or not at all, and a failed statement is a parameter.
- SHA-256 and the stored hash width: a digest stands for the bytes it was taken over; a width change, which clears
  the index before a run, is not modelled.
- The walker and its thread pool: their output is the sequence of records sent; an entry skipped on error is not sent.
- UTF-8 rendering of names: one function from bytes to text, the same throughout a history.
- Rows from before the `path_raw` column existed, and rows with metadata other than the empty text every record carries.
- Negative sizes in the aggregates beyond the lemma that shows why they are excluded.
- BottomUp.StreamingIsBottomUpExactly: indexes of 2^64 rows or more, on which the wrapped count may hide a difference.
- Case folding and the regex operators: functions of the engine, the first assumed to keep LIKE's special characters apart.
- Number parsing (`parseHumanSize`, `ParseInt`): a function of the value; byte, date and percent formatting.
- SearchBinds.SearchFiles: models the query from its WHERE on; the SELECT list and joins name no parameter, tabs and
  line breaks of the template are single blanks, and running the query and attaching aggregates are not modelled.
- SqlExpr.ParseParens: the grammar read is that of the emitted clauses (section 6.34 of ISO/IEC 9075-2:2003 for the
  connectives), with blank-separated words; other SQL is not parsed.
- OIDC exchanges, claims, cookies, TLS and random tokens: the provider's answer is any of refused, refreshed and
  rotated; a cookie is a session; a session's user and groups are not carried.
- Sessions.AcceptanceIsFresh: one session, one clock; each database statement is one atomic step.
- LoginLimiter.AtMostTenPerWindow: attempts of one address one at a time, no success in between; requests that passed
  the check together may add to the window. `Limiter` itself takes the calls in any order.
- The SQL of `matchingGrants` (which grants a user's groups select), role assignment from groups, and the forms of the admin page.
- Walking the YAML tree of a configuration and the check of its file permissions; environment values are text.
- EnvRefs.ExpandEnvStr: the error text around the variable's name is not modelled.
- NUL bytes in connection strings, which libpq cannot receive.
- Treemap.Squarify: floating-point rounding; all arithmetic is over exact reals. The loop body is split into three methods.
- React components, hooks, styling, routing, windowed lists, paging and API documentation.
