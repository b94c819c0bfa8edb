# sync_vendor: a verified model of the vendor synchroniser

`script/sync_vendor.go` reads the dependency manifest at `<wd>/vendor/manifest`.
For each entry, in manifest order, it brings the git working copy at
`<wd>/.gopath/src/<import path>` to the entry's pinned revision:

- An incomplete entry is skipped, and so is an entry for another version-control system.
- A missing destination is cloned.
- A working copy whose HEAD already prints the revision is left alone.
- A stale working copy is fetched only when the revision does not resolve there yet.
- Every entry that is not up to date ends with a forced checkout.
- The first failure of mkdir, stat, clone, fetch or checkout ends the run with an error.

This project models that procedure in Dafny and proves what it does.

- `Paths` (`paths.dfy`) builds the destination the way `filepath.Join`,
  `filepath.FromSlash` and `filepath.Dir` do on a '/'-separated system. Paths
  are sequences of segments, and lexical cleaning is modelled.
- `Text` (`text.dfy`) is `strings.TrimSpace` over Go's white-space set.
- `Workspace` (`workspace.dfy`) is the world the program acts on.
  - The directories and git working copies under the working directory form
    a map from paths to entries. A path above an existing one exists too, and
    so does every directory inside a working copy's tree.
  - An oracle stands for the network, the remote repositories and git
    itself. It says which mkdir, clone, fetch and checkout commands fail and
    what the successful ones leave behind, including the directory tree a
    clone brings.
  - `git rev-parse HEAD` and `git rev-parse --verify` are answered from the
    working copy's recorded state.
  - A rule of the model: git finds a repository only in the directory it
    runs in. A fetch or checkout in a directory that is not a working copy
    fails, even inside another working copy's tree.
- `SyncVendor` (`sync_vendor.dfy`) holds the loop as written and its specification.
  - The loop is the methods `Run`, `SyncEntry`, `CloneMissing`,
    `UpdateExisting` and `ForceCheckout`. They issue commands into a trace and
    update the world step by step.
  - The specification is two functions. `Reconcile` gives one entry's commands,
    resulting world and status. `Sync` gives the report of a run over a
    manifest prefix.
  - `Run` is proved to compute `Sync` with the destination function
    `Placement(wd)`.
- `EntryFacts` (`entry_facts.dfy`) proves what one entry does, case by case.
- `RunFacts` (`run_facts.dfy`) proves what a whole run does:
  - where it stops and when it returns nil;
  - the order of its commands;
  - that a second run over what a successful run left issues no clone and no fetch, changes nothing and returns nil.

Two behaviours of the source are easy to miss, and the model keeps both.
- An `os.Stat` error other than "not exist" aborts the run, just as a failed
  mkdir or git command does (lines 80-82). The model has it as the
  `StatDestination` stage.
- An up-to-date working copy gets no forced checkout: the loop moves on to
  the next entry (line 73). See `UpToDateIffMatches`.

## Model

| member | source | states |
|---|---|---|
| SyncVendor.Run | script/sync_vendor.go:31-90 | A failed Getwd, an unopenable manifest and an undecodable one each return their error at once with no command issued and nothing changed; otherwise the trace, the world and the result are those of `Sync` over the manifest with destinations under `<wd>/.gopath/src` |
| SyncVendor.SyncEntry | script/sync_vendor.go:52-87 | One loop iteration issues exactly the commands of `Reconcile`, leaves its world, and continues or aborts as its status says |
| SyncVendor.CloneMissing | script/sync_vendor.go:67-70 | A missing destination is cloned and, unless the clone fails, checked out, as `CloneFresh` says |
| SyncVendor.UpdateExisting | script/sync_vendor.go:71-79 | An existing destination is rev-parsed, then verified, fetched only if the revision is unknown, and checked out, as `Update` says |
| SyncVendor.ForceCheckout | script/sync_vendor.go:84-86 | The forced checkout is appended to the commands; on failure the entry fails at the checkout stage with the world unchanged |
| SyncVendor.SyncStep | script/sync_vendor.go:52-87 | While the run has not failed, handling entry i extends the report of the first i entries by that entry's commands and world |
| SyncVendor.AbortIsFinal | script/sync_vendor.go:63-86 | Once an entry has failed, later entries add no command, change nothing and leave the error as it is |
| Workspace.Apply | script/sync_vendor.go:63-84 | A command changes at most the entry at its own path; mkdir only adds its directory; rev-parse queries change nothing; a clone leaves the directory tree the repository holds, and fetch and checkout keep the tree they find |
| EntryFacts.PlainDirectoryFailsAtFetch | script/sync_vendor.go:71-79 | An existing destination that is not a working copy gets mkdir, rev-parse, verify and a fetch, and the entry fails at the fetch |
| EntryFacts.InsideCloneIsNotCloned | script/sync_vendor.go:67-79 | A destination inside the tree of an earlier clone exists, so it is not cloned; it gets rev-parse, verify and a fetch, and fails at the fetch |
| Workspace.Stat | script/sync_vendor.go:67 | Stat reports an error other than not-exist exactly for an unreadable entry; a path it reports missing is neither named by the map nor inside a working copy's tree; a working copy always exists |
| Workspace.StatAbove | script/sync_vendor.go:63-67 | Every directory above a path the map names exists, unless it is itself unreadable |
| Text.TrimSpace | script/sync_vendor.go:97 | The result is a white-space-free-at-both-ends slice of the input, with only white space cut from either side |
| Text.TrimPadded | script/sync_vendor.go:97 | Trimming a trimmed string padded with white space on both sides gives that string back |
| Paths.Split | script/sync_vendor.go:62 | Splitting an import path at '/' gives at least one segment, none containing '/'; with JoinSplit and SplitJoin it is the inverse of joining with '/' |
| Paths.Clean | script/sync_vendor.go:62 | The lexical cleaning filepath.Join applies always yields a clean path: no empty, "." or ".." segment |
| Paths.JoinSplit | script/sync_vendor.go:62 | Joining the '/'-separated segments of an import path gives the import path back |
| Paths.SplitJoin | script/sync_vendor.go:62 | Splitting segments free of '/' after joining them gives the segments back |
| Paths.Parent | script/sync_vendor.go:63 | filepath.Dir of a non-root clean path is that path without its last segment, and stays clean |
| Paths.Resolve | script/sync_vendor.go:62 | Lexical cleaning from a clean directory yields a clean path |
| Paths.ResolvePlain | script/sync_vendor.go:62 | Cleaning plain segments only appends them |
| Paths.ResolveAppend | script/sync_vendor.go:62 | Cleaning a concatenation is cleaning its parts in turn |
| Paths.CleanOfClean | script/sync_vendor.go:62 | Cleaning leaves a clean path unchanged |
| Paths.VendorRoot | script/sync_vendor.go:50 | The vendor root is the cleaned working directory followed by `.gopath` and `src` |
| Paths.Destination | script/sync_vendor.go:62 | Every destination is a clean path |
| Paths.DestinationLayout | script/sync_vendor.go:62 | A well-formed import path's destination is the vendor root followed by the import path's segments |
| Paths.DestinationNesting | script/sync_vendor.go:62 | One well-formed import path's destination is, or lies above, another's exactly when the first import path is a segment prefix of the second |
| Paths.DestinationInjective | script/sync_vendor.go:62 | Different well-formed import paths never share a destination |
| EntryFacts.MkdirParentKeeps | script/sync_vendor.go:63-67 | Creating the destination's parent changes neither what stat reports at the destination nor what git sees there |
| EntryFacts.CheckoutStepShape | script/sync_vendor.go:84-86 | The checkout fails exactly when the oracle says so; on success only the destination changes, to HEAD at the checked-out commit with the revision resolvable |
| EntryFacts.CloneFreshShape | script/sync_vendor.go:67-70 | The missing-destination branch issues mkdir, clone and then a checkout; it touches only the destination and ends checked out or failed at clone or checkout |
| EntryFacts.UpdateShape | script/sync_vendor.go:71-86 | The existing-destination branch issues mkdir and rev-parse first and then only commands about the destination; it ends up to date exactly when HEAD matches, with nothing changed, or else checked out by a checkout that succeeded, with HEAD at that checkout and the revision resolvable, or failed at fetch or checkout; it changes only the destination |
| EntryFacts.SkipsExactlyIneligible | script/sync_vendor.go:53-60 | An entry is skipped, issuing no command at all, exactly when a required field is empty or its VCS is neither "git" nor empty |
| EntryFacts.EmptyVcsIsGit | script/sync_vendor.go:57 | An empty VCS field is handled exactly like "git" |
| EntryFacts.ParentFirst | script/sync_vendor.go:63-65 | An eligible entry starts with mkdir of the destination's parent; it fails at that stage exactly when mkdir fails, and then issues nothing else and changes nothing |
| EntryFacts.ClonesWhenAbsent | script/sync_vendor.go:67-70 | A missing destination gets exactly mkdir, clone and checkout, or mkdir and clone when the clone fails; there is no rev-parse and no fetch; success leaves the checked-out working copy |
| EntryFacts.UpToDateIffMatches | script/sync_vendor.go:72-74 | An existing destination is up to date exactly when HEAD matches, and then only mkdir and rev-parse are issued |
| EntryFacts.NoFetchWhenKnown | script/sync_vendor.go:75-76 | A stale working copy that resolves the revision gets mkdir, rev-parse, verify and checkout, and no fetch |
| EntryFacts.FetchOnceWhenUnknown | script/sync_vendor.go:77-79 | A stale working copy that does not resolve the revision gets exactly one fetch before the checkout; a failed fetch ends the entry |
| EntryFacts.StatErrorAborts | script/sync_vendor.go:80-82 | A stat error other than "not exist" ends the entry right after mkdir |
| EntryFacts.ReconcileFrame | script/sync_vendor.go:62-86 | An entry changes only its destination and may add its parent, and every command it issues is about one of the two; an entry that is not skipped starts with mkdir and fails at that stage exactly when mkdir fails |
| EntryFacts.CheckedOutLast | script/sync_vendor.go:84-86 | An entry that ends checked out ends with a checkout that succeeded, and leaves a working copy whose HEAD is the checkout's and in which the revision resolves |
| EntryFacts.SucceededSettles | script/sync_vendor.go:52-87 | An eligible entry that does not fail leaves its destination settled |
| EntryFacts.SettledIsQuiet | script/sync_vendor.go:71-86 | A settled entry issues no clone and no fetch, does not fail and changes nothing |
| EntryFacts.SettledUpdateIsQuiet | script/sync_vendor.go:71-86 | The existing-destination branch on a settled working copy changes nothing and does not fail |
| EntryFacts.RepeatedCheckoutIsQuiet | script/sync_vendor.go:84-86 | Checking out again the revision a working copy is at succeeds and changes nothing |
| EntryFacts.MatchedHeadIsPadded | script/sync_vendor.go:92-98 | A match needs a working copy whose HEAD output is the revision with only white space around it, and a revision without white space at its ends |
| EntryFacts.RevExistsInWorkingCopy | script/sync_vendor.go:100-103 | A revision resolves only in a working copy, and there exactly when that working copy knows it |
| EntryFacts.NoHeadNoMatch | script/sync_vendor.go:93-96 | A failed rev-parse HEAD never matches |
| EntryFacts.PrintedHeadMatches | script/sync_vendor.go:92-98 | HEAD output that is the revision padded with white space matches it |
| RunFacts.OnlyEntriesFail | script/sync_vendor.go:52-89 | Once the manifest is read, a run fails only because an entry failed |
| RunFacts.FailureIndex | script/sync_vendor.go:52-87 | The entry a run reports as failed is in the manifest, every entry before it ran without failure, and the run ended right after it |
| RunFacts.FailureInLast | script/sync_vendor.go:52-87 | A run whose earlier entries ran without failure can only have failed at its last entry |
| RunFacts.StopsAtFirstFailure | script/sync_vendor.go:63-86 | A run that returns an error for entry i at some stage ran every earlier entry without failure, failed entry i at that stage, and issued nothing after it |
| RunFacts.OkPrefix | script/sync_vendor.go:52-89 | A run that returns nil returns nil over every prefix of the manifest |
| RunFacts.OkMeansEntryOk | script/sync_vendor.go:52-89 | In a run that returns nil, no entry failed |
| RunFacts.OkIffNoEntryFails | script/sync_vendor.go:89 | A run returns nil exactly when no entry failed in the world the entries before it left |
| RunFacts.AllSkippedIsOk | script/sync_vendor.go:52-60 | A manifest with no eligible entry issues nothing, changes nothing and returns nil |
| RunFacts.TracePrefix | script/sync_vendor.go:52 | The commands of the run over a prefix of the manifest come first in the commands of the whole run |
| RunFacts.SettledFrame | script/sync_vendor.go:62-86 | Whether an entry is settled depends only on its destination and that path's parent |
| RunFacts.SyncSettles | script/sync_vendor.go:52-89 | When no destination is, or lies above, another, a run that returns nil leaves every eligible entry settled |
| RunFacts.QuietWhenSettled | script/sync_vendor.go:52-89 | A run over a world where every eligible entry is settled issues no clone and no fetch, changes nothing and returns nil |
| RunFacts.Idempotent | script/sync_vendor.go:52-89 | When no destination is, or lies above, another, a second run over what a successful run left returns nil, issues no clone and no fetch, and changes nothing |
| RunFacts.PlacementSeparate | script/sync_vendor.go:62 | Well-formed import paths none of which is a segment prefix of another give eligible entries destinations none of which is, or lies above, another |
| RunFacts.RunIdempotent | script/sync_vendor.go:31-90 | With well-formed import paths none of which is a segment prefix of another, running the synchroniser twice is quiet the second time |

## Left out

- Reading the manifest (lines 37-48) is not modelled. File I/O and JSON decoding become the `Manifest` value `Run` receives: the decoded entries, `Unopenable` or `Undecodable`.
- `os.Getwd` (lines 32-35) becomes an `Option` parameter of `Run`, and the error message texts are not modelled.
- `main` (lines 24-29) and the process exit status are not modelled.
- `runCmd` and `runCmdOutput` (lines 105-125) are not modelled. Starting processes, their working directory and the forwarding of their output are replaced by the oracle. Each command appears once in the trace, and its failure is the oracle's answer.
- Git itself is not modelled. What a clone publishes, what HEAD prints after clone or checkout, and what a fetch makes resolvable are oracle answers.
- A fetch with `--prune` only adds resolvable revisions in the model. Refs it would delete are not modelled.
- `rev-parse --verify <revision>^{commit}` is membership of the revision in the working copy's resolvable set. The `^{commit}` peeling is part of that oracle answer.
- `CombinedOutput` mixes stderr into HEAD's output. The model takes the whole output as the oracle's `head` string.
- In the model, git commands run in a directory that is not a working copy find no repository: rev-parse fails, and fetch and checkout fail. Real git would search the directories above for a repository and act on it. That repository may be the program's own checkout or another entry's clone. The search is not modelled.
- Workspace.Apply: a fetch or checkout keeps the working copy's directory tree as its clone brought it. Directories that a later revision adds or removes are not modelled.
- mkdir records only the directory it names. Its missing ancestors exist implicitly, because a path above an existing one always exists.
- The working directory is treated as an absolute path.
- Only the '/' separator is modelled. `filepath.FromSlash` on other systems is not.
- Text.TrimSpace: works on Unicode code points (`seq<char>`). Go's handling of invalid UTF-8 bytes in command output is not modelled.
- Formula/gtm.rb, a build recipe, is not part of this model.
- RunFacts.Idempotent, RunFacts.SyncSettles and RunFacts.RunIdempotent: assume that no eligible destination is, or lies above, another. The model's git does not search the directories above the one it runs in, so an entry nested inside another entry's clone is not covered. In the program such an entry runs its rev-parse and checkout in the enclosing repository and moves it to another revision.
