# Easy Node Module Remover — a verified model

`module-remover.js` deletes the installed folders `node_modules/<name>` of the
dependencies listed in a `package.json`. It starts one `EasyNodeModuleRemover`
for each dependency section named in its `keys` that the file has: the four
default sections, or the section names given on the command line (lines
14-18, 26-28). Each of these removes the folders of its own section's
dependencies, and for each folder it starts a `DependencyRemover`. The remover works in two phases:

- **Search.** It walks the folder tree with `fs.readdir`/`fs.stat`. The
  worklist `directoriesBeingSearched` holds the directories still being
  searched. Every entry found is sorted into `files` or `directories`.
- **Removal.** Once the worklist is empty, `removeFiles` unlinks every file.
  Then `removeDirectories` makes repeated index passes over `directories`. It
  removes a directory only when a fresh listing shows it is empty, and it
  restarts at index 0 after each removal.

An `EasyNodeModuleRemover` counts the removers down. When the last one
resolves, it removes the top-level dependency folders.

This project models that program in Dafny and proves what it does.

- **The disk** is a value: a set of file paths and a set of directory paths.
  The parent of a path is everything before its last `/` (`Paths`, `Fs`).
  `readdir`, `stat`, `unlinkSync` and `rmdirSync` are functions on that value.
- **Callbacks.** Every asynchronous call a remover makes leaves an `Event` in
  its `pending` set. The host runs any pending callback next, against
  whatever the disk holds at that moment. So other removers and other
  programs working on the same disk are covered.
- **The pure model** (`DependencyRemoval`) is one function per callback.
  `RemovalInvariant.Step` is the single entry point: any pending callback, on
  any disk.
- **The objects** are the classes `Remover.DependencyRemover` and
  `ModuleRemover.EasyNodeModuleRemover`. Their fields are updated in place by
  methods. Each method is proved to move the object from `old(State())` to
  the corresponding step of the pure model.

What is proved:

- **Safety, on any disk and in any callback order:**
  - the invariant holds throughout;
  - a settled promise stays settled;
  - nothing outside the remover's folder is ever touched;
  - a directory is removed only when a listing taken in the same step is empty;
  - a file is deleted only if the search collected it.
- **Undisturbed disk:**
  - while nothing is blocked, the search always has a callback owed, and
    every callback does one unit of the work left, so on a tree with no
    empty directory every order of callbacks reaches `removeFiles`;
  - the search collects exactly the files and directories below the folder;
  - the directory pass always finishes and never needs its wrap-around to
    index 0;
  - the run leaves exactly the original disk minus everything below the
    folder, with the folder itself present and empty.
- **The hang:** an empty directory anywhere in the tree, including the folder
  itself, keeps the search from ever finishing.

An empty folder might be expected to complete at once. In the code, a
listing with no entries never brings its `count` to zero, so that directory
never leaves the worklist and the promise never settles
(`SearchOutcome.EmptyDirectoryHangsSearch`).

Two failure paths both end in the `.catch` of the stat callback (lines
139-141):

- a failed `stat`;
- an `unlinkSync` that throws inside `removeFiles`, which that same callback
  called.

Both are modelled as the rejection `UnreadableEntry` with the entry's name.

## Model

| member | source | states |
|---|---|---|
| `Paths.JoinSplits` | module-remover.js:127-130 | The full path `dir + "/" + name` of a proper entry name splits back into its directory and its name. |
| `Paths.JoinInjective` | module-remover.js:159 | Two entries have the same full path only if they have the same directory and the same name. |
| `Fs.ReadDir` | module-remover.js:113 | A listing succeeds exactly for a directory; it fails with "not a directory" exactly for a file. |
| `Fs.Stat` | module-remover.js:160-166 | `isDirectory()` is true exactly for a directory and false exactly for a file; anything else fails. |
| `Fs.Unlink` | module-remover.js:193 | Unlinking succeeds exactly on a file, and removes that file and nothing else. |
| `Fs.Rmdir` | module-remover.js:212 | rmdir succeeds exactly when a listing would be empty, removes only that directory, and otherwise reports "not empty" for a directory. |
| `Fs.ListingIsExact` | module-remover.js:113-120 | A listing of `d` names exactly the entries whose path is `d + "/" + name`. |
| `Fs.EmptyIffNothingBelow` | module-remover.js:246-250 | On a tree-shaped disk, an empty listing means nothing at any depth lies below the directory. |
| `Fs.RmdirKeepsWellFormed` | module-remover.js:212 | Removing an empty directory keeps the disk a tree. |
| `Lists.IndexOf` | module-remover.js:133 | `indexOf` is -1 exactly when the element is absent; otherwise it is the first position holding it. |
| `Lists.SpliceAt` | module-remover.js:213 | `splice(i, 1)` with `i` in range drops exactly element `i`, keeps the others in order, and is a permutation minus that element. |
| `Lists.SpliceOne` | module-remover.js:213 | `splice(start, 1)` (also used at line 133) as JavaScript defines it: an index in range drops that element; a negative start counts back from the end, and one below `-length` means 0; a start at or past the end removes nothing. The result is one shorter exactly when an element was removed. |
| `Lists.SpliceIndexOf` | module-remover.js:133 | `splice(indexOf(x), 1)` on a list without repeats removes `x` and nothing else. |
| `DependencyRemoval.UnlinkAll` | module-remover.js:192-194 | The unlink loop only ever removes collected files, never touches directories, and on success removes them all. It cannot fail when the files are distinct and all exist. |
| `DependencyRemoval.CheckIfEmptyDirectory` | module-remover.js:237-256 | The check yields true exactly when the listing is empty, which is exactly when rmdir would succeed; it fails exactly when the path is not a directory. |
| `DependencyRemoval.Settle` | module-remover.js:92-94 | The first `resolve` or `reject` decides the promise; any later call leaves it as it was. |
| `DependencyRemoval.Initial` | module-remover.js:92-98 | A new remover has empty `files` and `directories`, only its folder on the worklist, only that folder's listing owed, and a pending promise. The invariant it starts is `ScanInvariant.InitialScanInv`. |
| `DependencyRemoval.OnListDir` | module-remover.js:113-146 | The readdir callback consumes its event and changes none of the three lists. A failed listing rejects with the directory and the cause and blocks that directory. A successful one records the names, sets `count` to their number, and owes exactly one stat per name. An empty listing blocks the directory. The invariants it keeps are `ScanInvariant.OnListDirKeepsScanInv` and `SearchProgress.ListDirKeepsOwed`. |
| `DependencyRemoval.Classify` | module-remover.js:123-170 | A stat callback consumes its event. A failure rejects with the entry name and the cause, blocks the parent, and changes no list. A success lowers the parent's `count` by one. A directory is appended to `directories` and its listing is owed; a file is appended to `files`. Invariants: `ScanInvariant.StatSuccessKeepsScanInv`, `ScanInvariant.StatFailureKeepsScanInv`. |
| `DependencyRemoval.StartRemoval` | module-remover.js:189-203 | removeFiles deletes only collected files and no directory. It schedules the directory pass only after every collected file is gone. A rejection of a pending promise names the entry whose callback ran it. When the collected files are distinct and all present, it never rejects, and it resolves exactly when no directory was found. |
| `RemovalInvariant.StartRemovalOutcome` | module-remover.js:189-203 | At the end of a search: the pass is owed only after every collected file is gone; the promise resolves exactly when all unlinks succeed and no directory was found; it rejects exactly when an unlink fails; at most the check at index 0 is owed; the directories on disk are unchanged. |
| `DependencyRemoval.OnStat` | module-remover.js:123-141 | A failed stat changes nothing but the sort step and never touches the disk. removeFiles starts exactly on the stat that takes the parent's `count` from 1 to 0 and leaves the worklist empty. The disk changes only once the worklist is empty. No directory is removed, and every deleted file is one of the collected files. |
| `DependencyRemoval.OnCheckEmpty` | module-remover.js:206-235 | The emptiness check never touches a file. The only directory it can remove is the checked one, and only when its listing was empty; the list then loses exactly that element. While the promise is pending, it rejects exactly when the checked path is not a directory, and it resolves only with no directory left. Order and progress: `RemovalInvariant.CheckEmptyNextIndex`, `RemovalInvariant.CheckEmptyRestarts`. |
| `ScanInvariant.InitialScanInv` | module-remover.js:92-98 | A new remover satisfies the search invariant. |
| `ScanInvariant.OnListDirKeepsScanInv` | module-remover.js:113-122 | A readdir callback keeps the search invariant, and no blocked directory becomes unblocked. A failed listing rejects the promise with the directory and the cause, and blocks the directory, which then never leaves the worklist. |
| `ScanInvariant.ClassifyFacts` | module-remover.js:120-131 | A pending stat is for a directory on the worklist that has been listed, and for an entry not yet sorted. That entry's full path lies strictly below the folder and is not on the worklist. |
| `ScanInvariant.StatFailureKeepsScanInv` | module-remover.js:139-141 | A failed stat rejects the promise with the entry's name and the cause, keeps the search invariant, and blocks the parent directory, which then never leaves the worklist. |
| `ScanInvariant.StatSuccessKeepsScanInv` | module-remover.js:123-137 | A successful stat keeps the search invariant. The search invariant includes: every sorted entry is in exactly one list, below the root, with its parent listed; each `count` equals the number of unsorted entries; and a directory leaves the worklist only when all its entries are sorted. |
| `RemovalInvariant.EventMatchesPhase` | module-remover.js:189-208 | Search callbacks are owed only before removeFiles; emptiness checks only after it. |
| `RemovalInvariant.InitialInv` | module-remover.js:90-101 | A new remover satisfies the lifetime invariant. |
| `RemovalInvariant.WorklistEmptyMeansScanComplete` | module-remover.js:180-187 | When the worklist is empty, no callback is owed and the promise is pending. The root and every found directory were listed with every entry sorted, none had an empty listing, and the root is not in `directories`. |
| `RemovalInvariant.StartRemovalEntersRemovalInv` | module-remover.js:189-203 | removeFiles, run on a finished search, establishes the removal invariant: at most one check in flight, pending exactly while one is, resolved only with no directories left. |
| `RemovalInvariant.OnStatKeepsInv` | module-remover.js:132-136 | A stat callback keeps the lifetime invariant, including the one that runs removeFiles. While any directory is blocked, removeFiles is never reached. |
| `RemovalInvariant.RejectedSearchNeverRemoves` | module-remover.js:139-141 | After the search has rejected, no stat callback unlinks anything or starts the directory pass. |
| `RemovalInvariant.OnListDirKeepsInv` | module-remover.js:113-122 | A readdir callback of the search keeps the lifetime invariant and never reaches removal. |
| `RemovalInvariant.OnCheckEmptyKeepsInv` | module-remover.js:208-218 | An emptiness check keeps the removal invariant. The disk changes only by removing the checked directory, and only when its fresh listing is empty. The list either stays the same or loses exactly that element. |
| `RemovalInvariant.CheckEmptyNextIndex` | module-remover.js:221-228 | After a non-empty check, the next check is at `(i + 1) mod length`, and the list and disk are unchanged. |
| `RemovalInvariant.CheckEmptyRestarts` | module-remover.js:211-219 | After a removal the list is one shorter. The pass restarts at index 0 if any directory is left; otherwise the promise resolves. |
| `RemovalInvariant.Step` | module-remover.js:108-256 | Whichever pending callback runs next, on any disk, the invariant is kept. A settled promise stays settled. No path outside the remover's folder changes. No directory is created. A directory disappears only if its listing was empty. A file disappears only if the remover collected it. |
| `DirectoryPass.SomeDirectoryEmpty` | module-remover.js:206-229 | A non-empty list of directories in which every entry inside a member is itself a member (so no member holds a file) always has an empty member: the longest path. |
| `DirectoryPass.NoWrapWhenUndisturbed` | module-remover.js:222-225 | On an undisturbed disk, a non-empty directory is never the last index, so the wrap-around branch is never taken. |
| `DirectoryPass.Drain` | module-remover.js:206-235 | On an undisturbed disk the pass terminates and resolves. It removes exactly the collected directories and leaves the files and every other directory alone. |
| `SearchOutcome.OnListDirKeepsAgreement` | module-remover.js:113-120 | A readdir callback on a given disk keeps the remover's record true of that disk. |
| `SearchOutcome.ClassifyKeepsAgreement` | module-remover.js:123-131 | A stat callback on a given disk records each directory as a directory and each file as a file. |
| `SearchOutcome.ScanInvComplete` | module-remover.js:180-187 | A search whose worklist is empty is complete. Each list is free of repeats, and no path is in both. Every listed entry `dir + "/" + name` is sorted. Every sorted path is below the folder. |
| `SearchOutcome.SearchIsExact` | module-remover.js:120-131 | A complete search on an undisturbed disk has collected exactly the directories and exactly the files strictly below the folder. |
| `SearchOutcome.CompleteMeansNoEmptyDirectory` | module-remover.js:119-136 | A search can complete only if no directory in the tree, the folder itself included, is empty. |
| `SearchOutcome.EmptyDirectoryHangsSearch` | module-remover.js:119-136 | If the tree holds an empty directory, the worklist never becomes empty, so removeFiles is never reached. |
| `SearchOutcome.RemovalAfterExactSearch` | module-remover.js:189-203 | After a complete search on an undisturbed disk, removeFiles never fails. It either resolves at once with nothing left below the folder, or starts a directory pass that ends with exactly that result. |
| `SearchOutcome.PrunedFolderIsEmpty` | module-remover.js:80 | With everything below it gone, the folder itself is still present and its listing is empty, ready for the final rmdirSync. |
| `SearchOutcome.UndisturbedRunEmptiesFolder` | module-remover.js:90-256 | On an undisturbed disk, the stat callback that finishes the search hands over to a removal that never fails. That removal leaves exactly the original disk minus everything below the folder. |
| `SearchProgress.UnblockedDirectoryOwesCallback` | module-remover.js:108-141 | A directory still on the worklist that is not blocked always has a callback owed: its listing, or a stat of one of its unsorted entries. |
| `SearchProgress.QuietSearchIsDone` | module-remover.js:180-187 | A search that owes no callback and has nothing blocked has an empty worklist. |
| `SearchProgress.ListDirKeepsOwed` | module-remover.js:113-122 | On any disk, a readdir callback keeps every unblocked directory's owed callbacks in step with its unsorted entries. |
| `SearchProgress.ClassifyKeepsOwed` | module-remover.js:123-141 | On any disk, a stat callback keeps every unblocked directory's owed callbacks in step with its unsorted entries. |
| `SearchProgress.ListDirProgresses` | module-remover.js:113-122 | On an undisturbed tree with no empty directory, a readdir callback lists a new directory, blocks nothing, and leaves strictly less work. |
| `SearchProgress.StatProgresses` | module-remover.js:123-137 | On an undisturbed tree with no empty directory, a stat callback finds its entry. It either hands over to removeFiles or sorts one more entry, leaving strictly less work. |
| `SearchProgress.SearchStepProgresses` | module-remover.js:108-141 | On an undisturbed tree with no empty directory, any owed callback either hands over to a removal that ends with the folder emptied, or leaves the search ready with strictly less work. So every order of callbacks reaches removeFiles. |
| `SearchProgress.Search` | module-remover.js:108-203 | Running the owed callbacks of an undisturbed search always reaches removeFiles, which ends with exactly the disk minus everything below the folder. |
| `SearchProgress.InitialReady` | module-remover.js:92-98 | A new remover on a tree with no empty directory starts ready to search. |
| `SearchProgress.Run` | module-remover.js:90-256 | On an undisturbed tree with no empty directory, a remover resolves, leaving exactly the disk minus everything below its folder, with the folder present and empty. This is the converse of `SearchOutcome.EmptyDirectoryHangsSearch`. |
| `Remover.UnlinkFiles` | module-remover.js:192-194 | The unlink loop computes `UnlinkAll`: it unlinks in order and stops at the first failure. |
| `Remover.DependencyRemover.constructor` | module-remover.js:92-98 | A new remover has empty lists, the folder on the worklist, and its listing requested; it satisfies the invariant. |
| `Remover.DependencyRemover.GetDirectoryContents` | module-remover.js:111-113 | The directory joins the end of the worklist and its listing is requested; nothing else changes. |
| `Remover.DependencyRemover.GetFileType` | module-remover.js:157-160 | The stat of the entry is requested; nothing else changes. |
| `Remover.DependencyRemover.HandleListDir` | module-remover.js:113-122 | The readdir callback performs the listing step of the model and keeps the invariant. |
| `Remover.DependencyRemover.GetFileTypes` | module-remover.js:120-122 | The forEach requests exactly one stat per listed entry. |
| `Remover.DependencyRemover.HaveAllDirectoriesBeenChecked` | module-remover.js:180-187 | True exactly when the worklist is empty. When true, no callback is owed, nothing is blocked, and every found directory was fully sorted with a non-empty listing. |
| `Remover.DependencyRemover.RemoveDirectories` | module-remover.js:206-208 | The emptiness check of the given index is requested; nothing else changes. |
| `Remover.DependencyRemover.RemoveFiles` | module-remover.js:189-203 | Unlinks every collected file. Then it rejects on a failure, resolves when no directories were found, or starts the pass at index 0. |
| `Remover.DependencyRemover.SortEntry` | module-remover.js:123-137 | The sort step of the model. It reports whether the stat succeeded and the parent's count reached zero. |
| `Remover.DependencyRemover.HandleStat` | module-remover.js:123-141 | The stat callback performs the stat step of the model, including removeFiles once the worklist is empty, and keeps the invariant. |
| `Remover.DependencyRemover.RemoveFilesIfSearched` | module-remover.js:134-136 | After a sort that closed its directory: removeFiles runs exactly when the worklist is empty; otherwise nothing changes. |
| `Remover.DependencyRemover.HandleCheckEmpty` | module-remover.js:206-235 | The emptiness-check callback performs the check step of the model and keeps the invariant. |
| `ModuleRemover.TargetPaths` | module-remover.js:55-57 | One path per dependency key, in key order, each `"node_modules/"` followed by the key, from which the key strips back off. |
| `ModuleRemover.TargetPathsDistinct` | module-remover.js:55-57 | The target paths are free of repeats exactly when the keys are. |
| `ModuleRemover.RmdirAll` | module-remover.js:79-81 | The rmdirSync loop removes only the given folders and no files. On success it removes them all. It cannot fail when the folders are distinct and empty. |
| `ModuleRemover.RemoveFolders` | module-remover.js:79-81 | The loop computes `RmdirAll`. |
| `ModuleRemover.EasyNodeModuleRemover.constructor` | module-remover.js:41-43 | A new coordinator keeps the section's data and has no dependencies, no removers and no resolved remover yet; its countdown invariant holds. |
| `ModuleRemover.EasyNodeModuleRemover.Init` | module-remover.js:52-65 | The dependencies are the keys. With at least one key, the counter starts at their number, and one fresh, valid remover is started on each target path in order. |
| `ModuleRemover.EasyNodeModuleRemover.RemoveModuleFolder` | module-remover.js:74-82 | The counter goes down by exactly one. The folders are removed only when it reaches zero, and then all of them in key order. |
| `ModuleRemover.EasyNodeModuleRemover.OnRemoverResolved` | module-remover.js:60-64 | The counter reaches zero exactly when every remover has resolved. A remover that never resolves, such as a rejected one, keeps every folder in place. |

## Left out

- Reading `package.json`, `JSON.parse`, choosing the dependency sections and
  command-line arguments (lines 13-35). The model starts from the list of
  keys of one section; the version strings are not used by the code.
- `console.log` output and the text of error messages. A rejection carries
  only the path or entry name and the cause.
- Operating-system error causes beyond "no entry", "not a directory", "is a
  directory" and "not empty". The disk has no permissions, links or special
  files.
- True asynchrony.
  - A `stat` callback and the `.then` that sorts its answer are one step.
  - The `readdir` callback of `checkIfEmptyDirectory` and the `.then` that
    removes the directory are one step.
  - In both cases no other I/O callback can run in between. So in the model,
    an `rmdirSync` that follows an empty listing always succeeds. An
    `rmdirSync` failure caused by another process in between is not modelled.
- Listing order. A listing is a set of names, and each entry gets its own
  pending stat. The order of `files` and `directories` is the order in which
  the host runs callbacks, which the model leaves open.
- ModuleRemover.EasyNodeModuleRemover.RemoveModuleFolder: an `rmdirSync`
  that throws stops the loop and is returned as `failure`. What happens to
  the exception afterwards is not modelled.
- ModuleRemover.EasyNodeModuleRemover.Init: with no keys, the code leaves
  `numOfModulesToRemove` undefined. The model keeps the value the
  constructor set (0). Nothing reads it in that case.
- DirectoryPass.Drain, SearchProgress.Run and SearchOutcome.UndisturbedRunEmptiesFolder:
  termination and complete removal are proved only for a disk that nobody
  else changes during the run. The sibling removers that `init` starts at
  the same time (lines 57-65) count as somebody else. No argument is made
  that removers working on disjoint folders leave each other's result
  intact. On a changing disk only the safety properties of
  `RemovalInvariant.Step` are proved.
- RemovalInvariant.Step: paths are plain strings, and the model does no
  normalisation of `.`, `..`, `//` or a trailing `/`. A key such as `../src`
  gives the folder `node_modules/../src`, which the real disk resolves
  outside `node_modules`. "Nothing outside the folder changes" is
  containment by string prefix. It matches the real disk only for keys
  whose segments are names other than `.` and `..`. `fs.stat` follows
  symbolic links (lines 160-166), and the model has no links. A link to a
  directory inside the tree, or a dependency installed with `npm link`, makes
  the real program list and unlink files outside `node_modules`.
