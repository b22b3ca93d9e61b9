# GitPack lock ledger and update flow, modelled in Dafny

GitPack installs and maintains a set of git mirrors ("repos") listed in a
YAML file. This project models its core:

- **The lock ledger.** `.gpacklock` is a text file with one mirror
  directory per line. It records the mirrors that are currently *unlocked*.
  - `lock` removes the owner-write bit from a mirror's files and directories and deletes the mirror's ledger line.
  - `unlock` restores the bit and adds the line.
  - `checkLock` creates an empty ledger when there is none.
- **`applyPerms`.** It walks a mirror top-down, pruning `.git`. Then it chmods every file and directory in the reversed listing, so every directory comes after all the directories below it. A failing file chmod is skipped; a failing directory chmod aborts the pass.
- **git.py's update flow.** The `update` decision procedure, and the classifiers it uses: `localClean`, `commitsMatch`, `current_branch` and `viewTags`. Also the relabelling of git's error text, `rinse`, `fetch`, and `push` with its refusal on `master`.
- **The `Repo` descriptor.** Its constructor, and `Repo.update`.
- **The gpack commands.** `installRepo`, `updateRepo`, `cleanRepo`, `repoUninstall` and `getFile`.

How things are modelled:

- **Python text helpers.** `str.strip`, `in`, `replace`, `split("\n")` and universal-newline `readlines` are written out in `PyText`. `os.path.join`, `dirname` and `basename` are in `PosixPath`.
- **The file system.**
  - A mirror's file tree is a `Permissions.Tree`.
  - `Permissions.Mirror` is a class holding its modes and the paths whose chmod is refused.
  - The ledger file is the class `LockLedger.LockFile`; its `Lock` and `Unlock` methods rewrite its text in place.
- **git.** The repository is an oracle `Argv -> CmdResult`, or a record of the replies `update` reads.
- **Orchestration.**
  - `update` and the gpack commands return the trace of effects they cause: status, unlock, rinse, fetch, log comparison, pull, lock, clone, remove tree.
  - The git commands that take no directory of their own (status, fetch, log comparison, pull) record where they run: the mirror or the gpack root.
  - `GPack.LedgerSteps` and `GPack.Replay` give the ledger a trace leaves behind.
- **Raising permission passes.** A directory chmod that fails raises out of `lock` and `unlock` after the ledger has been truncated. A `finishes` fact per mirror says whether its passes run to the end. When one raises, `update` stops at its first `unlock` or `lock` and returns `None`, the command calling it stops there too, and the ledger reads back empty.
- **Integers.** File modes are `bv32`. `chmod` keeps the file-type bits and sets the low twelve permission bits.

Four behaviours of the code that are easy to misread; the model follows the
code:

- Blank ledger lines are not skipped. `line.strip()` keeps them as empty entries.
- `update` opens the ledger read-only, without `checkLock`. A missing ledger therefore makes it raise, which is modelled as a `None` result.
- `cleanRepo` unlocks a locked mirror and never locks it again.
- The current directory moves during `update`. It starts in the mirror
  (core/util/git.py:225). `unlock` leaves the process in the gpack root
  (gpack.py:203 and 264). `rinse` enters the mirror and also ends in the root
  (core/util/git.py:20 and 31). `update` never changes back. So on a dirty
  locked mirror the fetch and the log comparison run in the root. On every
  path that pulls, the xterm pull and the status checks after it run in the
  root (see Findings).

## Model

| member | source | states |
|---|---|---|
| PyText.StripIsBareSlice | gpack.py:173 | `strip()` returns a contiguous slice of its input with no whitespace at either end |
| PyText.StripBare | gpack.py:173 | stripping a string with no surrounding whitespace returns it unchanged |
| PyText.StripTwice | core/util/git.py:118-127 | `strip()` is idempotent, so pushing to `branch.strip()` of an already stripped branch targets the same branch |
| PyText.ContainsEmbedded | core/util/git.py:289 | a pattern occurs in any text built around it |
| PyText.ReplaceRemovesAll | core/util/git.py:29 | after `replace(old, new)`, where neither word's first character occurs in the other (as with "fatal" and "gpack"), `old` no longer occurs |
| PyText.ReplaceAbsent | core/util/git.py:29 | `replace` of an absent pattern is the identity |
| PyText.ReadLinesShape | gpack.py:173 | every line `readlines` yields has `\n` only as its last character and holds only characters of the text read |
| PyText.LinesHaveNoCarriageReturn | gpack.py:180-181 | entries free of `\r` written one per line give a text free of `\r` |
| PosixPath.RFindSlash | core/repo/repo.py:9 | the index returned is that of the last `/`, or -1 when there is none |
| PosixPath.BasenameHasNoSlash | core/repo/repo.py:15 | a basename never contains `/` |
| PosixPath.JoinKeepsAbsolute | core/repo/repo.py:8 | joining onto an absolute directory gives an absolute path |
| PosixPath.JoinBasename | core/repo/repo.py:8-15 | the basename of `join(cwd, local_dir)` is the basename of `local_dir` |
| PosixPath.DirnameBasenameRebuild | gpack.py:68 | for a path that splits cleanly, `dirname + "/" + basename` is the path itself |
| Permissions.LockClearsOwnerWrite | gpack.py:250 | a lock chmod clears exactly the owner-write bit |
| Permissions.UnlockSetsOwnerWrite | gpack.py:255 | an unlock chmod sets exactly the owner-write bit |
| Permissions.OtherBitsKept | gpack.py:250-263 | every bit other than owner-write is kept by either action |
| Permissions.AppliedIdempotent | gpack.py:250-263 | applying the same action twice equals applying it once |
| Permissions.Keep | gpack.py:237 | the kept file names are exactly those other than `.git` |
| Permissions.Prune | gpack.py:236 | the kept subdirectories are exactly those not named `.git` |
| Permissions.SchedulePruned | gpack.py:235-238 | the work stack of pruned children yields the preorder of those children |
| Permissions.Walk | gpack.py:234-238 | the loop collects the top-down `os.walk` listing, with `.git` pruned, in preorder |
| Permissions.ChmodDirFiles | gpack.py:243-257 | the inner loop leaves exactly the modes of chmodding one directory's files in order, skipping missing and refused ones |
| Permissions.Reversed | gpack.py:240 | the reversed listing has the same length and the entries in opposite order |
| Permissions.Mirror.constructor | gpack.py:229-232 | a mirror starts with the given tree, modes and refused paths |
| Permissions.ApplyPerms | gpack.py:229-264 | the new modes, and whether the pass finished, are those of the reversed walk: files first, then the directory, skipping refused file chmods and aborting on a refused directory chmod |
| Permissions.ChmodFilesPointwise | gpack.py:243-257 | chmodding a directory's files changes each reachable, non-refused file once and leaves every other path alone |
| Permissions.ChmodEntriesPointwise | gpack.py:241-263 | the whole pass changes exactly the reached paths, each once |
| Permissions.FinishedIgnoresAction | gpack.py:229-264 | whether a pass finishes depends only on the tree, the refused paths and which paths have a mode, not on the action or the mode values |
| Permissions.ApplyPermsIdempotent | gpack.py:229-264 | a second pass with the same action changes nothing |
| Permissions.LockRunEffect | gpack.py:229-264 | after a lock pass, every reached path lacks owner-write and every other path keeps its mode |
| Permissions.ApplyPermsSparesGit | gpack.py:233-237 | no path inside a `.git` directory, and no file named `.git`, is ever chmodded |
| Permissions.ReversedWalkDescendantsFirst | gpack.py:240 | in the reversed walk every directory comes after all its descendants |
| Permissions.ReversedFlipsOrder | gpack.py:240 | reversing a top-down listing puts every directory after all of its descendants |
| Permissions.ChmodEntriesFollowsSteps | gpack.py:241-263 | the pass equals a flat run of single chmod steps in listing order |
| Permissions.ChildrenBeforeParents | gpack.py:240-263 | in a well-formed tree, the pass is a run of steps in which no path is chmodded before a path below it |
| LockLedger.StripAll | gpack.py:173 | each ledger entry is the stripped line at the same position |
| LockLedger.LedgerRoundTrip | gpack.py:173-195 | writing storable entries one per line and reading them back returns the same entries |
| LockLedger.ReadLedger | gpack.py:173 | every entry read from any ledger text, after universal-newline reading and `strip()`, is storable: no surrounding whitespace and no line break |
| LockLedger.WrittenReadsBack | gpack.py:173-195 | an empty ledger reads as no entries; storable entries, with one directory filtered out or appended, read back as written |
| LockLedger.Without | gpack.py:178 | the filter keeps every entry other than the directory, with multiplicity, and drops all copies of it; a single entry is kept exactly when it is not the directory, which with `WithoutConcat` fixes the order |
| LockLedger.WithoutConcat | gpack.py:184 | filtering distributes over concatenation |
| LockLedger.LockedText | gpack.py:174-195 | the text `lock` leaves, on any branch, reads back without the directory and with no entry that was not there before; when the pass on an existing mirror raises, it reads back empty |
| LockLedger.UnlockedText | gpack.py:201-222 | the text `unlock` leaves is empty when the pass fails; when it finishes it lists the directory and every earlier entry |
| LockLedger.LockFile.constructor | gpack.py:224-227 | a ledger file starts with the given presence and text |
| LockLedger.LockFile.CheckLock | gpack.py:224-227 | afterwards the ledger exists; an existing ledger keeps its text, a missing one is created empty |
| LockLedger.LockFile.WriteEntries | gpack.py:180-181 | the loop appends each entry followed by a newline |
| LockLedger.LockFile.Lock | gpack.py:168-195 | the new ledger text and mirror modes for every branch, including the emptied ledger on an early return or a failed pass |
| LockLedger.LockFile.Unlock | gpack.py:201-222 | a missing mirror changes nothing; otherwise the ledger gains the directory and the owner-write bit is set on the reached paths |
| LockLedger.LockForgets | gpack.py:176-188 | a completed lock removes the directory from the ledger and keeps the rest |
| LockLedger.LockTwice | gpack.py:168-195 | locking an existing mirror twice leaves the same ledger as locking once |
| LockLedger.UnlockRecords | gpack.py:212-222 | after a completed unlock the directory is listed, the old entries are a prefix, and at most one entry was added |
| LockLedger.UnlockTwice | gpack.py:201-222 | unlocking twice leaves the same ledger as unlocking once |
| LockLedger.LockOfMissingDirectoryWipesLedger | gpack.py:174-191 | locking a directory that is neither listed nor on disk empties a ledger that listed another mirror |
| LockLedger.FailedPermissionPassWipesLedger | gpack.py:174-188 | a lock or unlock whose permission pass raises leaves an empty ledger |
| LockLedger.IntendedKeepsOthers | gpack.py:168-222 | under the corrected ledger update, every entry other than the directory keeps its presence, whatever the branch |
| LockLedger.IntendedAgreesWhenFinished | gpack.py:184-222 | when the mirror exists and the pass finishes, the code as written and the corrected update agree |
| GitOps.LocalClean | core/util/git.py:279-292 | clean implies that `git status` succeeded and its output can hold the clean message |
| GitOps.LocalCleanExactly | core/util/git.py:279-292 | clean holds exactly when the status succeeded and its output contains the clean message somewhere |
| GitOps.LocalCleanAround | core/util/git.py:284-292 | any successful output around the clean message counts as clean; a failed status never does |
| GitOps.CommitsMatch | core/util/git.py:258-277 | run against the git oracle: the commits match exactly when both `git log` and `git log origin/<branch>` succeed with equal output; the remote log runs only after the local one succeeded |
| GitOps.CurrentBranch | core/util/git.py:97-104 | read from the git oracle: a successful `rev-parse` gives its output; a failed one gives the empty branch, which never strips to master |
| GitOps.ViewTags | core/util/git.py:294-306 | a failed `git tag -l` gives no tags; every tag returned is non-empty and has no newline |
| GitOps.ViewTagsRoundTrip | core/util/git.py:299-306 | a tag listing printed one tag per line is read back as exactly those tags |
| GitOps.Relabel | core/util/git.py:72-76 | the relabelled message never contains "error" |
| GitOps.RelabelHidesGitWords | core/util/git.py:72-76 | the relabelled message never contains "error"; without "error" it never contains "fatal"; without either it is the stripped output |
| GitOps.RinseMessageHidesFatal | core/util/git.py:28-29 | the rinse error message never contains "fatal"; without it, it is the stripped output |
| GitOps.RunUntilFailure | core/util/git.py:22-28 | the commands run are a prefix of the list; all but a failing last one succeeded; no failure means all ran |
| GitOps.RinseRepo | core/util/git.py:8-31 | rinse runs clean, reset to `origin/<branch>`, the two submodule cleanups and the submodule update in order, stopping at the first failure, whose output is reported with "fatal" replaced and stripped |
| GitOps.FetchRemote | core/util/git.py:209-220 | fetch reports a message exactly when `git fetch` fails, and the message is the relabelled output |
| GitOps.Push | core/util/git.py:98-138 | nothing runs when the stripped current branch is master; otherwise add, commit and push to that branch run in order, every command but the last run succeeded, a run cut short ends with the failing command, and all three run when none fails; nothing runs exactly when `rev-parse` succeeds with master, and a failed `rev-parse` never blocks the push, which then targets the empty branch |
| GitOps.Observe | core/util/git.py:241 | the facts say the commits match only when both logs printed the same text |
| GitOps.Flow | core/util/git.py:224-255 | every update starts with a status read in the mirror, and only a locked repository can make it return False |
| GitOps.Decide | core/util/git.py:224-255 | as written: the first effect is the status read in the mirror, and False is returned only for a locked repository |
| GitOps.IntendedDecide | core/util/git.py:224-255 | with every command run in the mirror: the same first effect and the same bound on False |
| GitOps.FirstPass | gpack.py:259-263 | the index of the first `unlock` or `lock` in a trace, or its length when there is none |
| GitOps.FirstPassAfterQuiet | gpack.py:259-263 | a trace whose prefix has no pass has its first pass right after that prefix |
| GitOps.Attempt | core/util/git.py:224-255 | a run cut short happens exactly when the repository is locked and the pass raises; it is a prefix of the full run ending in that pass; otherwise the value and effects are the full decision table's |
| GitOps.RaisingPassCutsAtFirstPass | core/util/git.py:224-255 | a locked repository always reaches a pass, and a raising one cuts the run right after the first `unlock` or `lock` |
| GitOps.Update | core/util/git.py:222-255 | a missing ledger makes update raise; otherwise the result and the effects, with where each ran, are the as-written decision table applied to the lock state and to what git reports, cut at the first pass when it raises |
| GitOps.UpdateFlow | core/util/git.py:224-255 | tracking the current directory step by step, the effects and the value returned are those of the as-written decision table; a raising pass ends the run with no value right after it |
| GitOps.UnlockedDirtyLeftAlone | core/util/git.py:233-236 | an unlocked repository whose status in the mirror is not clean is left alone and update returns True |
| GitOps.LockedDirtyRinsedFirst | core/util/git.py:233-241 | a locked, dirty repository is unlocked and rinsed before the fetch, and the fetch and log comparison then run in the gpack root |
| GitOps.PullExactlyWhenLockedAndLogsDiffer | core/util/git.py:241-246 | a pull, run in the gpack root, happens exactly when the repository is locked and the two logs compared differ |
| GitOps.PullNeverInMirror | core/util/git.py:242-250 | as written, the pull never runs in the mirror, and the status read after it is the root's |
| GitOps.BehindMirrorPulledInRoot | core/util/git.py:224-255 | a clean, locked mirror whose logs differ is fetched and compared in the mirror but pulled and checked in the root, then relocked with True |
| GitOps.IntendedRunsInMirror | core/util/git.py:224-255 | changing back into the mirror after each unlock and rinse puts every status, fetch, log comparison and pull there; the pull happens exactly when locked with differing logs |
| GitOps.IntendedSameResult | core/util/git.py:224-255 | the corrected flow returns the same value and performs the same unlocks, rinses and locks in the same order as the code as written |
| GitOps.UnlockedNeverTouched | core/util/git.py:226-255 | an unlocked repository is never unlocked, rinsed, pulled or locked, and update returns True, in either flow |
| GitOps.FalseOnlyWhenRinseFails | core/util/git.py:241-252 | update returns False exactly when the repository is locked, its logs differ, and it is dirty after the pull and still dirty after the rinse, in either flow |
| GitOps.LockedEndsLocked | core/util/git.py:253-255 | a locked repository's trace ends with a lock exactly when update returns True; on False it is never locked again, in either flow |
| RepoDescriptor.JoinedDirectory | core/repo/repo.py:7-15 | the joined directory is absolute under an absolute cwd, and its name is the basename of `local_dir`, free of `/` |
| RepoDescriptor.Repo.constructor | core/repo/repo.py:5-16 | the url and branch are copied, the directory is `join(cwd, local_dir)`, the name is its basename, the lock defaults to True, and there is no tag |
| RepoDescriptor.Repo.Update | core/repo/repo.py:42-43 | `Repo.update` has the same outcome as git's `update` on the mirror's directory, including the run cut short by a raising pass |
| GPack.LedgerStep | gpack.py:168-222 | when the pass finishes: after an unlock the directory is listed, after a lock it is not, and no other entry changes presence |
| GPack.LedgerSteps | gpack.py:168-222 | a whole trace changes the presence of no entry other than the directory |
| GPack.Apply | gpack.py:168-222 | an event other than `unlock` or `lock` leaves the ledger text alone; a pass that raises leaves a text that reads back empty |
| GPack.Replay | gpack.py:168-222 | when every pass finishes, replaying a trace's locks and unlocks changes the presence of no entry other than the directory; a trace without passes changes nothing; when the passes raise, the ledger reads back empty after any trace that holds a pass |
| GPack.ApplyReadsAsStep | gpack.py:168-222 | reading the ledger after one event's rewrite gives the entry-level step |
| GPack.ReplayReadsAsSteps | gpack.py:168-222 | replaying a whole trace on the ledger text reads back as the entry-level steps |
| GPack.LockUndoesUnlock | gpack.py:168-222 | an unlock followed by a lock restores a ledger that did not list the directory |
| GPack.LockedUpdateEffect | core/util/git.py:222-255 | when every pass finishes, on a locked mirror update leaves the ledger as it was when it returns True, and with the directory listed at the end when it returns False, whether or not it changes back into the mirror |
| GPack.UpdateLedgerEffect | core/util/git.py:222-255 | when every pass finishes, update leaves the ledger as it was, except that a locked mirror whose update returns False ends up listed as unlocked, in either flow |
| GPack.UpdateRepoKeepsLedger | gpack.py:96-108 | when every pass finishes, after `updateRepo` on an existing mirror every ledger entry is as it was, because a recloned mirror is locked again |
| GPack.UpdateRepoKeepsLedgerFile | gpack.py:96-108 | the ledger file `updateRepo` leaves reads back as it was found, except that a locked mirror whose passes raise leaves it empty |
| GPack.RaisingUpdateEmptiesLedger | gpack.py:96-108 | with raising passes, update stops early exactly when the mirror is locked, and then the ledger reads back empty; an unlocked mirror keeps its ledger text |
| GPack.InstallRepo | gpack.py:37-41 | an existing mirror is untouched; a missing one is cloned, then locked exactly when its policy says so; it completes unless that lock raises |
| GPack.UpdateRepo | gpack.py:96-108 | a missing mirror is cloned and locked; an update returning False is followed by remove, reclone and lock; a missing ledger makes it raise, and so does a raising pass, which cuts the trace at that pass |
| GPack.CleanRepo | gpack.py:82-90 | an existing mirror is unlocked if locked, then rinsed, and ends up listed as unlocked; a missing ledger makes it raise; an unlock that raises skips the rinse and leaves the ledger reading back empty |
| GPack.GetFile | gpack.py:70-73 | the listing entry equal to the mirror's name is found exactly when it is listed |
| GPack.RepoUninstall | gpack.py:64-68 | an existing mirror is unlocked, then `dirname/name` is removed exactly when the unlock finishes and the name is listed; for a well-formed descriptor that is the mirror's own directory |

## Left out

- `core/util/ssh.py`, the process pool and the threads that run commands concurrently are not part of this model.
- YAML loading (`getRepos`, `getRepo`), argument parsing, `help` and the `main` dispatch are not modelled: they only select mirrors and call the commands above.
- The xterm window that runs `git pull && git submodule update --recursive` is reduced to the `Pull` event, with the directory it runs in, and the status reply that follows it. Whether the pull succeeds is not observed by `update`, so it is not modelled.
- The replies git gives in the gpack root are given values in `UpdateReplies`; whether the root is itself a git repository is not modelled.
- The interactive commit-message prompt in `push` becomes a parameter.
- `clone`, `checkout`, `checkout_tag`, `add_tag`, `tagRepo` and `check_branch` are not modelled. A clone is the `Clone` event.
- Console output is not modelled. Error texts are modelled as the relabelled strings returned.
- Symbolic links and file-system races are not modelled. A mirror's tree and modes are given values. A broken link, whose `os.stat` raises `FileNotFoundError`, is a listed file with no entry in the modes, and is skipped.
- A `lock` value in the YAML that is not a boolean is not modelled. It is an `Option<bool>`.
- LockLedger.UnlockTwice: requires the directory to be storable (no surrounding whitespace or newline). A directory that is not storable never matches its own stripped line, so it is added again on every unlock.
- LockLedger.LockTwice: stated for an existing mirror only. For a missing one the first call may empty the ledger (see Findings).
- GPack.Replay: gives every pass in a trace the same outcome and assumes the mirror exists. The text each branch of a single pass leaves is stated by `LockLedger.LockFile.Lock` and `LockLedger.LockFile.Unlock`.
- GPack.LedgerStep: stated for passes that finish; a raising pass is covered by `GPack.Apply`.
- GPack.LockedUpdateEffect: stated for passes that finish; a raising pass is covered by `GPack.RaisingUpdateEmptiesLedger` and `GPack.UpdateRepoKeepsLedgerFile`.
- GPack.UpdateLedgerEffect: stated for passes that finish, for the same reason.
- GPack.UpdateRepoKeepsLedger: stated for passes that finish; `GPack.UpdateRepoKeepsLedgerFile` covers raising passes.
- One `finishes` fact per mirror does not model a pass that raises only after the pull or a rinse has changed the tree, so a locked mirror whose passes raise always raises at its first pass.
- Permissions.ChildrenBeforeParents: stated for well-formed trees, in which sibling names are distinct.
- GPack.RepoUninstall: the removed path is shown to be the mirror's directory only when the directory splits cleanly into dirname and basename. A `local_dir` ending in `/` gives an empty name, and then nothing is removed.

## Findings

| source | as written | input that shows it | evidently intended | confidence | as-written member | corrected member |
|---|---|---|---|---|---|---|
| gpack.py:174-191 | `lock` empties the ledger before branching; a directory that is neither listed nor on disk returns without writing the entries back | ledger `other\n`, `lock` of directory `gone`, which does not exist | the other entries are kept | not executed | LockLedger.LockOfMissingDirectoryWipesLedger | LockLedger.IntendedKeepsOthers |
| gpack.py:174-188, 210-222 | a permission pass that raises, on an unguarded directory chmod, leaves the already-emptied ledger empty | ledger `other\nrepo\n`, `lock` of `repo` whose directory chmod is refused | the ledger is kept when the pass fails | not executed | LockLedger.FailedPermissionPassWipesLedger | LockLedger.IntendedKeepsOthers |
| core/util/git.py:242-250 | after `gpack.unlock` the process stands in the gpack root (gpack.py:203), and the xterm pull and the `localClean` calls after it run there, not in the mirror | a clean, locked mirror whose `git log` differs from `git log origin/<branch>`, in a gpack root that is a clean git repository | the pull and the checks after it run in the mirror, which ends up at the remote's commits | not executed | GitOps.BehindMirrorPulledInRoot | GitOps.IntendedRunsInMirror |
