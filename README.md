# branch-dawg, modelled in Dafny

branch-dawg is a command-line tool for managing local git branches. Its
`describe` command prints, for every local branch, the reference the branch
was made from. To find it, the tool walks the history of each branch and
stops at the first commit that a branch or a tag points to. When that commit
is on the default branch's history, the branch is reported as detached at
the first default-history commit after the branch's tip, which may be that
referenced commit itself; when the walk ends without such a commit, the
branch gets no parent. (The earlier `src/git.rs` version also
stops at the first commit of the default history.) This project models that
logic and proves what it computes:

- `src/git_utils.rs`: reference names, the ordering of branches, reading
  branch and tag names as UTF-8, `parent`, `commits_since` and `commits_to`.
- `src/main.rs`: choosing the default branch's name (`branch_default_name`)
  and the describe pipeline. The pipeline indexes the default history,
  builds the reference map, sorts the branches, skips the default tip, and
  picks between "no parent", "detached on the default history" and "named
  parent".
- `src/git.rs`: the earlier version of the same idea. It has its own
  reference map, where every commit of the default history maps to
  `refs/default`. It also has `find_parent`, `branch_commit_list` and the
  loop of `build`.

The git repository is a value (`Git2.Repo`):

- `walks` holds, for each commit that can be pushed, the sequence a revwalk
  yields from it. Each item is a commit id or an error.
- The branch enumeration, the tag enumeration and the reference enumeration
  are results. Their items are results too, where git2's are.

An error the tool turns into a panic (an `unwrap`) or an exit becomes an
explicit outcome:

- `Describe.Failure` records which setup step failed, or which branch made
  `describe` panic.
- `GitLegacy.BuildOutcome` does the same for `build`.

The modules:

- `Results`: `Option`, `Result`, collecting into a `Result`, collecting into
  a hash map, and `find`.
- `Bytes`: bytes and byte-wise lexicographic order.
- `Utf8`: `str::from_utf8` and its inverse.
- `Git2`: commit ids, hex display, revwalks, repositories.
- `Errors`: `src/error.rs`.
- `GitUtils`: `src/git_utils.rs`.
- `Describe`: `src/main.rs`.
- `GitLegacy`: `src/git.rs`.
- `Scenarios`: a worked example.

Where a textual description of the tool and its code disagree, the model
follows the code:

- **Tags win in the reference map.** `reference_map` in `src/main.rs`
  chains the tags after the branches and collects into a `HashMap`. When a
  tag and a branch point at the same commit, the tag's entry survives
  (`Describe.ReferenceMap`).
- **`refs/default` wins in the old reference map.** In `src/git.rs` the
  default-history entries come last, so every commit of the default history
  maps to `refs/default` (`GitLegacy.ReferenceMapDefault`).
- **`commits_to` hides walk errors.** Its `take_while` stops at the first
  walk error without reporting it (`GitUtils.CommitsToShape`).
- **The default branch's name comes from `init.defaultBranch`.** With no
  argument, the tool reads that setting. Failing to read it is an error;
  `main` is used only when the value is empty (`Describe.BranchDefaultName`).
- **A branch forked at the default tip gets a named parent.** Consider a
  branch made at the default branch's tip with commits of its own. The
  default tip is not in the index of the default history, because
  `commits_since` skips it. So such a branch is named by the reference
  map's entry at the default tip (the default branch itself when no tag and
  no later-enumerated branch sits there), not described as detached
  (`Scenarios.ForkedAtDefaultTip`, for a repository with no tag and no other
  branch at that commit).
- **One branch of `main_commit` cannot be reached.** A branch's parent is
  never the branch's own commit (`GitUtils.ParentIsNotTip`). So the
  `branch.oid == parent` test in `main_commit` is never true.

## Model

| member | source | states |
|---|---|---|
| Results.Collect | src/git_utils.rs:78-86 | collecting results succeeds exactly when every item is `Ok`, and then gives every value, in order |
| Results.CollectSnoc | src/git_utils.rs:85 | collecting one more item keeps an earlier error; otherwise it appends the new value or reports the new error |
| Results.CollectFirstError | src/git_utils.rs:85 | an error preceded only by `Ok` items is the error collecting reports |
| Results.FirstError | src/git_utils.rs:85 | a failed collection has a first failing item, every item before it is `Ok`, and its error is the one reported |
| Results.CollectMap | src/main.rs:193-197 | the map's keys are exactly the pairs' keys, and the last pair with a key supplies its value |
| Results.Find | src/main.rs:228 | `find` gives the first element in the key set, and gives nothing exactly when no element is in it |
| Bytes.LexLessIrreflexive | src/git_utils.rs:36-40 | no byte string sorts before itself |
| Bytes.LexLessTransitive | src/git_utils.rs:36-40 | byte-wise order is transitive |
| Bytes.LexLessTotal | src/git_utils.rs:36-40 | of two different byte strings, one sorts before the other |
| Bytes.LexLessAsymmetric | src/git_utils.rs:36-40 | two byte strings never sort before each other |
| Utf8.Decode | src/git_utils.rs:47-54 | decoding succeeds exactly on well-formed UTF-8 and gives the string that encodes to those bytes; on failure, the reported `valid_up_to` is inside the input, the prefix before it is well-formed, and no sequence starts there |
| Utf8.DecodeEncode | src/git_utils.rs:47-54 | decoding the encoding of any string gives the string back |
| Utf8.EncodeInjective | src/git_utils.rs:47-54 | two strings with the same encoding are equal, so a branch name is determined by its bytes |
| Git2.IsZeroIsZero | src/git_utils.rs:70 | `is_zero` holds exactly of the zero id that `parent` returns when there is no parent |
| Git2.Hex | src/main.rs:239 | an id displays as 40 hex digits |
| Git2.HexRoundTrip | src/main.rs:239 | hex display loses nothing: reading the digits back gives the id's bytes |
| Git2.HexInjective | src/git.rs:122 | two ids with the same display are equal |
| Git2.Revwalk | src/git_utils.rs:61-62 | pushing a commit succeeds exactly when the repository knows it; in a valid repository the walk starts at that commit, never yields the zero id and never repeats a commit |
| GitUtils.DisplayRoundTrip | src/git_utils.rs:20-34 | `Display for ReferenceName` (`GitUtils.Display`) is invertible: a displayed reference name (`refs/heads/…` or `refs/tags/…`) parses back to the same branch or tag |
| GitUtils.LessIrreflexive | src/git_utils.rs:36-40 | the derived (name, oid) order on reference infos is irreflexive |
| GitUtils.LessTransitive | src/git_utils.rs:36-40 | the derived order is transitive |
| GitUtils.LessTotal | src/git_utils.rs:36-40 | of two different reference infos, one sorts first |
| GitUtils.From | src/git_utils.rs:47-54 | `from` succeeds exactly when the name bytes are UTF-8, keeps the oid and a name that encodes to those bytes; otherwise it gives a UTF-8 error whose `valid_up_to` ends the well-formed prefix |
| GitUtils.FromEncodedName | src/git_utils.rs:47-54 | the bytes of a name always give back that name |
| GitUtils.Branches | src/git_utils.rs:78-86 | `branches` fails with the enumeration's own error, or gives one info per branch in enumeration order with that branch's oid and decoded name |
| GitUtils.BranchesFirstFailure | src/git_utils.rs:78-86 | when `branches` fails after the enumeration started, its error is that of the first item whose read or name decoding fails |
| GitUtils.TagsOf | src/git_utils.rs:88-107 | `tags` fails with the iteration's error, or gives every tag in order with its decoded name |
| GitUtils.TagsFirstFailure | src/git_utils.rs:93-101 | when `tags` fails after the iteration started, its error is that of the first tag whose name is not UTF-8 |
| GitUtils.Tags | src/git_utils.rs:88-107 | the loop with its `err` slot returns what `TagsOf` states |
| GitUtils.FirstKey | src/git_utils.rs:63-70 | the loop returns the first commit that is a key, or the first walk error, with only unreferenced commits before it; it returns zero only when the whole walk passes |
| GitUtils.ParentIsKey | src/git_utils.rs:63-68 | a parent other than zero is a key of the reference map, so looking it up cannot panic |
| GitUtils.Parent | src/git_utils.rs:56-71 | the loop over the revwalk minus its first item returns exactly `GitUtils.ParentOf`, whose properties `ParentIsNotTip`, `ParentIsFirstReferenced` and `ParentZeroIff` state |
| GitUtils.ParentIsNotTip | src/git_utils.rs:61-63 | a branch's parent is never its own commit |
| GitUtils.ParentIsFirstReferenced | src/git_utils.rs:63-68 | a non-zero parent is the first referenced commit strictly after the branch's tip in its history |
| GitUtils.ParentZeroIff | src/git_utils.rs:63-70 | the parent is zero exactly when every commit after the tip is readable and unreferenced |
| GitUtils.CommitsSince | src/git_utils.rs:137-141 | `commits_since` succeeds only on a known commit, and lists the walk after it in order |
| GitUtils.CommitsSinceFirstError | src/git_utils.rs:137-141 | when `commits_since` fails on a known commit, its error is the walk's first one after that commit |
| GitUtils.CommitsSinceShape | src/git_utils.rs:137-141 | in a valid repository the list is the history minus its tip, does not contain the tip, and has no repeats |
| GitUtils.TakeUntil | src/git_utils.rs:146 | `take_while` keeps the commits before the target or the first error, never the target, and stops only there or at the end |
| GitUtils.CommitsToShape | src/git_utils.rs:143-147 | `commits_to` (`GitUtils.CommitsTo`) on a known commit always succeeds, never contains the target, and lists the history in order; with no error and no target it is the whole tail |
| GitUtils.InsertSortedPermutation | src/main.rs:199-200 | inserting into a sorted list keeps it sorted and adds exactly that element |
| GitUtils.Sort | src/main.rs:199-200 | `sort` gives an ascending permutation of the branches |
| Describe.BranchDefaultName | src/main.rs:76-87 | an argument is used as given; otherwise the error of reading `init.defaultBranch` propagates, an empty value becomes `main`, and any other value is used; the name is empty only when the argument is |
| Describe.DefaultCommitIndex | src/main.rs:172-181 | the index has exactly the listed commits as keys, and a commit's value is the position of its last occurrence |
| Describe.DefaultCommitIndexOfHistory | src/main.rs:171-181 | in a valid repository the index holds exactly the default history after its tip, each commit at its position in the walk minus one, and not the tip itself |
| Describe.EntriesKeys | src/main.rs:193-197 | the chained entries have as keys exactly the oids of the branches and the tags |
| Describe.TagEntryIsLast | src/main.rs:196-197 | the last tag at a commit is the last entry for that commit in the chain |
| Describe.BranchEntryIsLast | src/main.rs:193-197 | a branch that no later branch and no tag shares its commit with is the last entry for that commit |
| Describe.ReferenceMap | src/main.rs:193-197 | the map's keys are every branch and tag commit; the last tag at a commit wins over every branch there; a branch survives only when no later branch and no tag shares its commit |
| Describe.MainCommit | src/main.rs:221-234 | `main_commit` is `None` exactly when the parent is off the default history; a found commit is on it; its `unwrap` can fail only for a branch the repository does not know |
| Describe.NoParentIff | src/main.rs:217-219 | a branch gets no parent exactly when every commit after its tip is readable and neither a branch nor a tag |
| Describe.NamedIsFirstReferenced | src/main.rs:235-239 | a named parent is off the default history, is not the branch's own commit, carries the reference map's name for it, and is the first referenced commit after the tip |
| Describe.DetachedIsNearestDefault | src/main.rs:221-236 | a detached description names a commit of the default history, the first such commit after the branch's tip |
| Describe.NonDefaultMembers | src/main.rs:201-204 | the branches the loop describes are exactly those not at the default tip |
| Describe.NonDefaultSorted | src/main.rs:199-204 | skipping the default tip keeps the sorted order |
| Describe.LinesFollowBranches | src/main.rs:201-240 | one line per branch off the default tip, in order, each with that branch's resolution; the output is complete exactly when nothing panicked, and a panic belongs to the next branch |
| Describe.SortedLines | src/main.rs:199-204 | the lines are in ascending (name, oid) order, only for branches off the default tip, and cover all of them when nothing panicked |
| Describe.DescribeBranch | src/main.rs:217-240 | the per-branch body gives exactly `Describe.Resolve` (whose cases `NoParentIff`, `NamedIsFirstReferenced` and `DetachedIsNearestDefault` characterise): a panic of `parent`, no parent, detached, or the named reference |
| Describe.DescribeBranches | src/main.rs:201-247 | the loop over the sorted branches produces the report `Describe.LinesOf` states, whose lines `LinesFollowBranches` and `SortedLines` characterise |
| Describe.Describe | src/main.rs:163-247 | `describe` ends as `Describe.DescribeSpec` states: it fails at the first failing setup step in source order, and otherwise reports the lines of the sorted branches |
| Describe.DescribeSortedLines | src/main.rs:163-247 | once every setup step of `describe` succeeds, its report is the loop over the sorted branches with the context the setup built; its lines are in ascending (name, oid) order, each for a branch off the default tip, and cover every such branch when nothing panicked |
| GitLegacy.DisplayRoundTrip | src/git.rs:45-61 | `Display for Reference` (`GitLegacy.Display`) is invertible: a displayed tag, branch or `refs/default` parses back to itself |
| GitLegacy.FilterReferencesAppend | src/git.rs:69-85 | the `filter_map` of two lists is the concatenation of their `filter_map`s |
| GitLegacy.FilterReferencesFrom | src/git.rs:70-85 | every kept entry comes from a readable branch or tag reference at that commit |
| GitLegacy.CollectedReferencesOk | src/git.rs:69-89 | when the collection succeeds, every enumerated reference was readable |
| GitLegacy.DefaultEntriesWin | src/git.rs:86-89 | every commit of the default history ends up mapped to `refs/default`, whatever branch or tag points there |
| GitLegacy.KeyFromReferences | src/git.rs:69-89 | a collected key off the default history comes from a branch or tag reference at that commit |
| GitLegacy.ReferenceMapDefault | src/git.rs:64-90 | `reference_map` (`GitLegacy.ReferenceMap`) maps every commit of the default history to `refs/default` |
| GitLegacy.ReferenceMapOthers | src/git.rs:64-90 | a successful `reference_map` saw no unreadable reference, and every other key comes from a branch or tag |
| GitLegacy.ReferenceMapLastWins | src/git.rs:64-90 | off the default history the last branch or tag at a commit names it |
| GitLegacy.BranchCommitList | src/git.rs:92-97 | a successful `branch_commit_list` is the set of commits of the branch's history, every item of which was readable |
| GitLegacy.BranchCommitListFirstError | src/git.rs:92-97 | when `branch_commit_list` fails on a known branch, its error is the walk's first one |
| GitLegacy.BranchCommitListHasTip | src/git.rs:92-97 | in a valid repository the branch's own commit is in the list |
| GitLegacy.ParentText | src/git.rs:122 | the parent text is never empty, so it cannot be mistaken for "no parent" |
| GitLegacy.ParentTextInjective | src/git.rs:122 | the text determines the reference and the commit |
| GitLegacy.FindParentInFirst | src/git.rs:115-126 | the loop of `find_parent` over the walk (`GitLegacy.FindParentIn`) gives the empty string exactly when every commit is readable and is the branch's own or unmapped; otherwise it gives the text of the first mapped commit, or the first walk error |
| GitLegacy.FindParent | src/git.rs:105-127 | the loop returns exactly `GitLegacy.FindParentOf`: the revwalk's error, or `FindParentIn` over the walk |
| GitLegacy.FindParentInAt | src/git.rs:115-123 | the first mapped commit other than the branch's own decides the text |
| GitLegacy.FindParentStopsAtDefault | src/git.rs:105-127 | a branch whose history reaches the default history, with no mapped commit before, is described as `refs/default` at the first shared commit |
| GitLegacy.MappingsComplete | src/git.rs:24-32 | when the loop (`GitLegacy.Mappings`) completes, every branch off the default tip has an entry under its name, and every entry is the parent text of a branch with that name |
| GitLegacy.MappingsKeep | src/git.rs:31 | `insert` never removes a name already recorded |
| GitLegacy.BuildRecordsEveryBranch | src/git.rs:19-32 | a successful `build` records every local branch off the default tip, and only those |
| GitLegacy.Build | src/git.rs:19-37 | `build` with its mutable `mappings` map ends as `GitLegacy.BuildSpec` states: the error of a missing default branch, of `reference_map`, of the enumeration or of `find_parent`, a panic on a non-UTF-8 name, or the mappings |
| GitLegacy.RecordMappings | src/git.rs:23-33 | the loop over the local branches, updating its `mappings` map, ends where `GitLegacy.Mappings` from an empty map says: the first enumeration or `find_parent` error, a panic on a non-UTF-8 name, or the mappings of every branch off the default tip |
| Scenarios.ForkedResolve | src/main.rs:217-239 | in the worked example, `feature` has `main`'s commit as its named parent |
| Scenarios.ForkedAtDefaultTip | src/main.rs:163-240 | with `init.defaultBranch` set to the empty string, a branch forked at `main`'s tip is described as `refs/heads/main` at that commit, not as detached |

## Left out

- Opening the repository (`Repository::open`, `src/main.rs:143-146`) and
  the configuration (`config_open`, `src/main.rs:153-156`), and the files
  they read: `describe` exits when either fails, and the model has no
  separate outcome for either failure. The configuration value is an input
  to `BranchDefaultName`.
- `branch_current` and the `*` marker for the checked-out branch
  (`src/main.rs:148-151`): the marker only changes what is printed, and the
  failure path where reading the current branch fails (an unreadable HEAD,
  on which `describe` exits) is not modelled.
- Printing, colours and their errors (termcolor, stdout, stderr): a report
  holds the lines and the failure instead of text.
- The command line (clap) and the `list` command. `list` sorts and prints
  branches with the same `branches` and ordering modelled here.
- The printing loop of `build` over the `HashMap` (`src/git.rs:33-35`): its
  order is unspecified.
- `branch_commit_oid` (`src/git.rs:99-102`) and `branch_oid`: every branch
  is modelled as a direct reference, so resolving it and taking its target
  always succeed and give the tip's commit.
- The `unwrap`s on `resolve`, `target` and `shorthand` inside `src/git.rs`
  `reference_map`: a reference entry carries its resolved commit and its
  shorthand.
- `BranchError::ConversionError`: it is declared but never constructed.
- What git stores for a tag: the model takes the oid and name bytes that
  `tag_foreach` passes to its callback as given.
- `Utf8Error::error_len`: only `valid_up_to` is kept, which is what the
  error's message shows.
- The text git2 puts in its error messages: a `GitError` carries a message
  that the model never inspects.
- Natural sorting: the code leaves it as a to-do and sorts by bytes.
