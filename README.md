# ci-bot core in Dafny

A model of three parts of the Gitee bot `ci-bot` (package `pkg/cibot`):

- **The init handler** (`inithandler.go`):
  - At start-up it records the hash of the watched project file as the file's *waiting* hash.
  - On every tick of the watch loop it promotes the waiting hash to the *target* hash. This happens only when no target is in flight and the waiting hash differs from the *current* one.
  - After a promotion it walks the repositories the manifest declares. It creates each unknown repository on Gitee and then in the database. It then computes the member differences for each role (manager, developer, viewer, reporter). The desired members follow a strict precedence, and the recorded ones are read from the privileges table.
- **The label commands** (`label.go`):
  - Parsing a comment line such as `/remove-kind bug feature` into whole label names such as `kind/bug`.
  - Choosing which of those labels to add to an issue or pull request, or remove from it.
  - Building the comma-separated label string sent back to Gitee.
- **`UrlEncode`** (`utils.go`): escapes the slashes of a label name.

Modules, one per file:

| file | module | what it holds |
|---|---|---|
| `base.dfy` | `Base` | `Option`, `Distinct`, `Elems` |
| `gostrings.dfy` | `GoStrings` | The Go `strings` functions the bot calls: `TrimSpace`, `Split`, `Join`, `Replace` with count 1, `TrimRight` and `Contains`, on strings as character sequences |
| `utils.dfy` | `Utils` | `UrlEncode` and its properties |
| `labels.dfy` | `Labels` | `GetLabelsMap`, `GetListOfAddLabels`, `GetListOfRemoveLabels` and the label strings of the handlers, as methods with loops, specified by functions |
| `store.dfy` | `Database` | The three tables as a `Store` class with one sequence of rows per table, and the queries the handler issues as functions over them |
| `members.dfy` | `Members` | Roles, the desired buckets (`getMembersMap`), the recorded buckets (`getMembersMapByDB`) and the per-role differences (`add*`/`remove*`) |
| `watch.dfy` | `Watch` | What a tick and a start-up do to the project-file record, over any sequence of ticks and restarts |
| `inithandler.dfy` | `InitHandler` | `initWaitingSha`, one tick of `watch`, the repository loop, `addRepositories`, `isUsingRepositoryMember` and `handleMembers` |

Every call to Gitee and every database query that can fail is a parameter saying whether it fails. The parsed manifest is given as an input: `None` when fetching, decoding or parsing the blob fails.

## Model

| member | source | states |
|---|---|---|
| `Utils.EncodedHasNoSlash` | pkg/cibot/utils.go:21-24 | The encoding contains no `/` |
| `Utils.EncodeWithoutSlash` | pkg/cibot/utils.go:22 | A name without `/` is returned unchanged |
| `Utils.EncodedLength` | pkg/cibot/utils.go:22 | The length grows by two for each `/` |
| `Utils.EncodeConcat` | pkg/cibot/utils.go:22 | Encoding works character by character: the code of `a + b` is the code of `a` followed by the code of `b` |
| `Utils.DecodeEncode` | pkg/cibot/utils.go:22 | For names without `%`, replacing each `%2F` by `/` gives the name back |
| `Utils.EncodeNotInjective` | pkg/cibot/utils.go:22 | `a/b` and `a%2Fb` have the same encoding, `a%2Fb` |
| `GoStrings.TrimSpace` | pkg/cibot/label.go:17 | The trimmed comment is no longer than the comment and neither starts nor ends with white space |
| `GoStrings.SplitJoin` | pkg/cibot/label.go:17 | Splitting the space-joined words gives back the words, when no word contains a space |
| `GoStrings.JoinSplit` | pkg/cibot/label.go:17 | Joining the pieces of a split gives back the string |
| `GoStrings.IndexOf` | pkg/cibot/label.go:25 | `strings.Index`: the result is a match position with no earlier match, and `None` means no match |
| `GoStrings.TrimRight` | pkg/cibot/label.go:168 | The result is a prefix that does not end in the cut character, and everything cut is that character |
| `Labels.GetLabelsMap` | pkg/cibot/label.go:13-34 | The map's keys are exactly the whole labels of the comment, and each maps to itself |
| `Labels.WholeLabelsMembership` | pkg/cibot/label.go:21-31 | A whole label is the group, `/` and one of the words after the first, and each such word gives one |
| `Labels.CommandLabelsSize` | pkg/cibot/label.go:21-31 | Repeated words collapse: at most one label per word after the first, and none for a single-word comment |
| `Labels.RemoveCommandGroup` | pkg/cibot/label.go:25 | `/remove-kind` has group `kind` |
| `Labels.AddCommandGroup` | pkg/cibot/label.go:25 | `/kind` has group `kind`, unless the group itself contains `remove-` |
| `Labels.TokensOfWords` | pkg/cibot/label.go:17 | The tokens of words joined by single spaces are those words |
| `Labels.RemoveCommandLabels` | pkg/cibot/label.go:13-34 | `/remove-<group> w1 … wn` names exactly the labels `<group>/wi` |
| `Labels.AddCommandLabels` | pkg/cibot/label.go:13-34 | `/<group> w1 … wn` names exactly the labels `<group>/wi` |
| `Labels.DoubleSpace` | pkg/cibot/label.go:17-28 | Two spaces in a row give a label with an empty name: `/<group>  <word>` names `<group>/` as well as `<group>/<word>` (so `/kind  bug` names `kind/` and `kind/bug`) |
| `Labels.ContainsName` | pkg/cibot/label.go:43-49 | The inner search loop finds a label exactly when one has that name |
| `Labels.GetListOfAddLabels` | pkg/cibot/label.go:37-74 | `l` is in the list iff it is a key of the map, names a repository label and names no item label; no label appears twice |
| `Labels.GetListOfRemoveLabels` | pkg/cibot/label.go:77-100 | `l` is in the list iff it is a key of the map and names an item label; no label appears twice |
| `Labels.TerminatedJoin` | pkg/cibot/label.go:161-167 | The loops' string is the comma-join of the names plus one trailing comma |
| `Labels.TrimmedTerminated` | pkg/cibot/label.go:161-168 | For comma-free names with a non-empty last one, trimming gives the comma-join, and splitting that on `,` gives the names back |
| `Labels.AddedLabelString` | pkg/cibot/label.go:161-168 | The add-path string is the item's label names then the added labels, comma-terminated and right-trimmed; it splits back into those names |
| `Labels.RemovedLabelString` | pkg/cibot/label.go:316-324 | The remove-path string as written: the item's names comma-terminated, each removed label plus `,` cut at its first occurrence, then right-trimmed |
| `Labels.CutHitsAnotherLabel` | pkg/cibot/label.go:316-324 | For item labels `c l`, `b`, `l` with `c` not the first character of `l`, removing `l` sends `c b,l` where the remaining labels are `c l`, `b`; with `x`, `kind/a`, `b`: `xb,kind/a` instead of `xkind/a,b` |
| `Labels.RemainingLabelString` | pkg/cibot/label.go:316-324 | The remove-path string with whole-name removal: the item's names that are not removed, comma-joined; it splits back into exactly those names |
| `Labels.Kept` | pkg/cibot/label.go:316-324 | A name is kept iff it is an item name and not removed |
| `Database.FirstWatched` | pkg/cibot/inithandler.go:98-100 | `First` gives the first row the watch target selects, and `None` when it selects none |
| `Database.CountWatchedPositive` | pkg/cibot/inithandler.go:87-100 | A positive count is exactly a `First` that finds a row |
| `Database.CountRepositoriesZero` | pkg/cibot/inithandler.go:232-242 | The repositories count is zero iff no row has that owner, repository and project-file id |
| `Database.PrivilegesOf` | pkg/cibot/inithandler.go:328-330 | The privileges read are exactly the rows with that owner and repository |
| `Database.Store.CreateProjectFile` | pkg/cibot/inithandler.go:116-125 | `Create` appends the row under the next id |
| `Database.Store.SaveProjectFile` | pkg/cibot/inithandler.go:107 | `Save` replaces the row with the record's id and nothing else |
| `Database.Store.CreateRepository` | pkg/cibot/inithandler.go:265-274 | `Create` appends the repository row |
| `Members.RoleOf` | pkg/cibot/inithandler.go:46-51 | A stored name denotes the role with that name, or no role |
| `Members.GetMembersMap` | pkg/cibot/inithandler.go:357-405 | The four buckets are the managers, then the developers not already managers, then the viewers not already in either, then the remaining reporters |
| `Members.PrecedenceByHighestRole` | pkg/cibot/inithandler.go:362-396 | A user is in a role's bucket iff that role is the highest whose list names the user |
| `Members.PrecedenceCovers` | pkg/cibot/inithandler.go:357-405 | The union of the buckets is exactly the set of users in the four lists |
| `Members.PrecedenceDisjoint` | pkg/cibot/inithandler.go:367-396 | No user is in two buckets |
| `Members.ManagerWinsOverViewer` | pkg/cibot/inithandler.go:376-385 | A user listed as manager and viewer is desired as manager only |
| `Members.GetMembersMapByDB` | pkg/cibot/inithandler.go:408-426 | Each privilege lands under its role; a row naming no role gives the panic outcome `None`, and only such a row does |
| `Members.ExistingMembership` | pkg/cibot/inithandler.go:419-423 | A user is recorded under a role iff some privilege row grants that role to it |
| `Members.Difference` | pkg/cibot/inithandler.go:428-440 | The list holds each user of the first map that is not in the second, once |
| `Members.DiffRole` | pkg/cibot/inithandler.go:338-339 | Additions are desired minus recorded and removals are recorded minus desired, each without repetition |
| `Members.DiffMembers` | pkg/cibot/inithandler.go:337-351 | The eight lists are the two differences of each of the four roles |
| `Members.DescribedLists` | pkg/cibot/inithandler.go:428-538 | Additions and removals of a role are disjoint, and equal buckets give two empty lists |
| `Members.DiffScenario` | pkg/cibot/inithandler.go:337-351 | Desired alice as manager and bob as developer, recorded bob as developer and carol as viewer: add alice as manager, remove carol as viewer, nothing else |
| `Watch.PromoteOnlyTarget` | pkg/cibot/inithandler.go:158-165 | A tick changes the record iff no target is in flight, a hash is waiting and it differs from the current one; then only the target changes, from empty to the waiting hash |
| `Watch.PromoteInFlight` | pkg/cibot/inithandler.go:158-160 | A record with a target in flight is left unchanged |
| `Watch.PromoteIdempotent` | pkg/cibot/inithandler.go:158-165 | A second tick right after a first changes nothing more |
| `Watch.RunKeepsCurrent` | pkg/cibot/inithandler.go:136-229 | No sequence of ticks and restarts changes the current hash or the record's identity |
| `Watch.RunTargetSticky` | pkg/cibot/inithandler.go:136-229 | Once a target is set, no later tick or restart clears or replaces it |
| `Watch.RunTargetWasWaiting` | pkg/cibot/inithandler.go:158-165 | A target set after an idle start always differs from the current hash |
| `Watch.SingleFlight` | pkg/cibot/inithandler.go:136-229 | From current `h0` with `h1` waiting, the first good tick promotes `h1`; a restart recording `h2` changes only the waiting hash, and the target stays `h1` whatever follows |
| `InitHandler.IsUsingRepositoryMember` | pkg/cibot/inithandler.go:309-311 | True iff some user appears in one of the repository's four lists |
| `InitHandler.DesiredSource` | pkg/cibot/inithandler.go:314-325 | The desired users are exactly those of the repository's lists when it names any, otherwise exactly those of the community's; the two are never merged |
| `InitHandler.DevelopersOnlyOverride` | pkg/cibot/inithandler.go:318-325 | A repository naming only developers desires exactly those developers and nothing from the community |
| `InitHandler.HandleMembers` | pkg/cibot/inithandler.go:314-354 | A failed query gives no lists; a recorded privilege naming no role gives the panic; otherwise the lists are the per-role differences between the desired and the recorded buckets. Nothing is written |
| `InitHandler.PostFor` | pkg/cibot/inithandler.go:285-295 | The request has issues and wiki on, and it is private iff the declared type is exactly `private` |
| `InitHandler.AddRepositoriesInGitee` | pkg/cibot/inithandler.go:283-306 | The request built is that one, and the error is the remote call's |
| `InitHandler.AddRepositories` | pkg/cibot/inithandler.go:245-280 | The remote create comes first; the row is inserted only after it succeeds; a failure of either leaves the table unchanged |
| `InitHandler.HandleRepository` | pkg/cibot/inithandler.go:193-213 | A failed count skips the repository; otherwise it is created iff no row exists, and member handling runs whether or not the creation failed |
| `InitHandler.ReconcileRepositories` | pkg/cibot/inithandler.go:192-214 | Every declared repository is handled in order whatever failed before it, and only the panic stops the loop; the rows are those folded by `RowsAfter`, and the other tables are unchanged |
| `InitHandler.ReportsFitEach` | pkg/cibot/inithandler.go:192-214 | The report of the i-th repository fits the rows left by the ones before it |
| `InitHandler.RowsAfterUnique` | pkg/cibot/inithandler.go:199-208 | A row is inserted only when none exists, so no two rows are for the same repository of the same project file |
| `InitHandler.RowsAfterExtends` | pkg/cibot/inithandler.go:199-208 | Rows are only ever appended |
| `InitHandler.RowsAfterCovers` | pkg/cibot/inithandler.go:199-208 | When no count, create or insert fails, every handled repository has a row afterwards |
| `InitHandler.RowsAfterCovered` | pkg/cibot/inithandler.go:199-200 | Rows that already cover the manifest are left alone, and every repository is reported as existing |
| `InitHandler.SecondPassCreatesNothing` | pkg/cibot/inithandler.go:192-208 | After a pass in which every creation succeeded, a second pass over the same manifest creates no repository and inserts no row |
| `InitHandler.InitWaitingSha` | pkg/cibot/inithandler.go:66-133 | A failed fetch or count is an error with no write. An existing record gets only its waiting hash overwritten; otherwise a new record gets the fetched hash as waiting hash and empty current and target hashes. Any failed read, save or create is an error with no write, and on success the first selected record holds the fetched hash |
| `InitHandler.WatchTick` | pkg/cibot/inithandler.go:136-229 | A failed read or a missing record changes nothing, and so does a target in flight or nothing waiting. A promotable record is saved with the waiting hash as target; then, if the manifest is available, its repositories are handled in order, every one of them unless a panic stops the loop, and only a panic does |

## Left out

- The Gitee calls: fetching the file contents and the blob, creating a repository, and the label, issue and pull-request endpoints. Each is a parameter saying whether it fails, or an input (`fetched`, `projects`).
- The gorm queries. The tables are sequences in a `Store` object, and a failing query is a parameter.
- Base64 decoding and YAML parsing of the blob (library calls). The parsed manifest is an input.
- The endless loop of `watch` and its `time.Sleep`. One tick is a method. Sequences of ticks and restarts are modelled on the record alone (`Watch.Run`).
- Logging.
- The regular expressions `RegAddLabel`/`RegRemoveLabel` in `utils.go`, which depend on the regex engine.
- Label handler plumbing:
  - the dispatch on `NoteableType`
  - splitting a comment into lines
  - the label API calls
  - the per-label delete of the issue path, which only passes `UrlEncode` of each name
- `issue.go`, which only logs, and the configuration structs of `config/config.go`, which are plain data. The watch parameters and the duration are inputs.
- The access token put into every request.
- The manifest's `*string` fields (name, description, type) are plain strings. A nil pointer crashes the process, which is outside the model.
- Inner maps: a Go `map[string]string` whose values equal its keys is a `set<string>` in `Members`. In `Labels` it stays a `map` whose values equal its keys.
- Order: Go map iteration order is unspecified, so lists built from maps are specified by membership and absence of repetition, not order.
- Character encoding: strings are sequences of characters. Go's byte-level UTF-8 handling is not modelled.
- GoStrings.TrimSpace: states only that the result is no longer than the input and has no white space at either end. It does not state that the result is the middle part of the input; the reason is that this fact is costly for the verifier.
- Database.Store.SaveProjectFile: requires the record's id to be a row of the table. Every caller passes a record read from it.
- Cancellation and concurrency: there is one watch loop and no shutdown signal.

## Behaviour worth noting

- `watch` never writes the current hash and never clears the target (`inithandler.go:158-165`). Once a target is set, nothing else is promoted, and a later hash is only ever recorded as waiting (`Watch.RunTargetSticky`, `Watch.SingleFlight`).
- The tick does not fetch the file's hash. The waiting hash is written only by `initWaitingSha` at start-up.
- The `add*`/`remove*` functions only compute and log their lists. No grant or revoke is called and no privilege is written, so a second pass recomputes the same lists.
- A failed remote create, including one for a repository that already exists on Gitee, is an error, and no row is written (`inithandler.go:299-303`).
- A failed repositories count skips member handling for that repository (the `continue` at `inithandler.go:197`).

## Findings

| source | as written | input that shows it | evidently intended | confidence | as-written member | corrected member |
|---|---|---|---|---|---|---|
| pkg/cibot/label.go:320-322 | Each removed label plus `,` is cut at its first textual occurrence in the comma-terminated string, which can lie inside another label's name | Item labels `xkind/a`, `b`, `kind/a`; removing `kind/a` sends `xb,kind/a` (lemma `Labels.CutHitsAnotherLabel` with `x`, `kind/a`, `b`) | Remove the whole label, leaving `xkind/a,b`, as the issue path does by deleting each label by name (`label.go:384-388`) | not executed | `Labels.RemovedLabelString` | `Labels.RemainingLabelString` |
