# Git front end for the Unity editor: the rules under the windows

This project models, in Dafny, the host-independent rules of a small git
front end for the Unity editor. Four editor windows and one helper library
are modelled:

- **Helper library** (`extensions.dfy`, module `Extensions`). It holds the
  string helpers `WrapUp`, `SplitLines`, `Join`, `AfterLast`,
  `NormalizeSlashes` and `When`, and the dictionary get-or-insert
  `GetOrCreate`. It also models `GetResultOrDefault`. That call reports each
  faulted asynchronous git query once, through a process-wide list of tasks
  already shown.
- **Shared git data** (`git_model.dfy`, module `GitModel`). It holds a file's
  porcelain status codes and the staged and unstaged lists derived from
  them. It also holds a window's task slots and the selection lists of the
  staging and commit windows.
- **Branches window** (`git_branches.dfy`, module `GitBranches`). It covers:
  - the reference comparer;
  - how the reference lists of several modules are combined (one module as
    is, the union, or the intersection);
  - `BranchesToItems`, which turns slash-separated reference names into a
    depth-annotated tree item list;
  - the context menu and "New Branch" commands;
  - the window state that gates the menu.
- **Settings window** (`git_settings.dfy`, module `GitSettings`). It covers
  the editable list of remotes: rebuilding it, adding and removing rows, and
  editing a row. On Save it reconciles the rows into remove, add and set-url
  operations. The model proves what those operations do to the remote
  configuration.
- **Staging window** (`git_staging.dfy`, module `GitStaging`). It covers:
  - the staged-module count and when the commit and stash buttons are
    enabled;
  - the commit, stash, add and reset commands;
  - the per-tab task slots and selections;
  - the "More" menu offered for the selected files.
- **Commit window** (`commit.dfy`, module `Commit`). It covers the tab label
  abbreviation, the commit-all button, and staging and unstaging with
  space-joined paths.

Windows whose fields change are classes, and their buttons are methods:
- `BranchesWindow`, `SettingsWindow`, `StagingWindow` and `CommitWindow`;
- the `EditableRecord` rows of the settings list;
- the `Selection` lists.

Each method states the window's whole new state. The task slots of the
staging and commit windows are an `array` replaced or overwritten in place.
Commands handed to git are appended to a log field (`issued`) as values,
because the processes themselves are outside the model.

Where the source calls something it does not define, the model takes it as
a parameter:
- `string.GetHashCode` is a function `hash: string -> int`, with no
  collision-freedom assumed.
- `PackageShortcuts.JoinFileNames` is a function `joinFileNames`.
- The hash of the remotes list is an `int` argument.

## Model

| member | source | states |
|---|---|---|
| `Extensions.PollStep` | Editor/Extensions.cs:12-22 | one poll throws iff the task is faulted and not yet shown, then records it; otherwise returns the result of a successful task or the default, and the shown list is unchanged |
| `Extensions.ShownExceptions.GetResultOrDefault` | Editor/Extensions.cs:10-22 | the in-place call on the shown list returns and records exactly what `PollStep` says |
| `Extensions.PollAll` | Editor/Extensions.cs:12-22 | polling a sequence of tasks yields one outcome per poll |
| `Extensions.PollAllNeverRethrows` | Editor/Extensions.cs:16-21 | once a task is in the shown list it stays there and no later poll of it throws |
| `Extensions.PollAllThrowsAtMostOnce` | Editor/Extensions.cs:16-21 | two polls of the same task never both throw: each failure surfaces at most once |
| `Extensions.PollAllThrowsAtFirstFault` | Editor/Extensions.cs:14-21 | an unshown failure surfaces, with its error, at the first poll that sees the task faulted |
| `Extensions.WrapUp` | Editor/Extensions.cs:23-26 | as written: the left wrap, the text, then the right wrap, with a missing right wrap dropped |
| `Extensions.WrapUpIntended` | Editor/Extensions.cs:23-26 | as intended: a missing right wrap repeats the left one |
| `Extensions.WrapUpAgreesWhenRightGiven` | Editor/Extensions.cs:23-26 | with both wraps given, both definitions give left + text + right |
| `Extensions.WrapUpDefaultLeavesQuoteOpen` | Editor/Extensions.cs:23-26 | `s.WrapUp()` for a quote-free `s` is `"` + `s`: it holds exactly one quote |
| `Extensions.WrapUpIntendedDefaultQuotes` | Editor/Extensions.cs:23-26 | the intended default wraps `s` in two quotes |
| `Extensions.Filter` | Editor/GitStaging.cs:49 | `Where`: no longer than the input; every kept element is from the input and satisfies the predicate; every input element that satisfies it is kept |
| `Extensions.FilterAppend` | Editor/GitStaging.cs:49 | `Where` keeps the input order: filtering `a + b` is filtering `a`, then filtering `b` |
| `Extensions.FilterCount` | Editor/GitStaging.cs:49 | `Where` keeps each element that satisfies the predicate as often as the input holds it and drops every other; a single element is kept iff it satisfies the predicate |
| `Extensions.SplitOn` | Editor/Extensions.cs:29 | `Split`: one field more than there are separators, and no field holds a separator |
| `Extensions.ConcatSplitOn` | Editor/Extensions.cs:29 | concatenating the fields gives the input without its separators |
| `Extensions.SplitOnJoin` | Editor/Extensions.cs:29 | splitting undoes joining with a separator that no value contains |
| `Extensions.JoinSplitOn` | Editor/Extensions.cs:29 | joining the fields with the separator rebuilds the input |
| `Extensions.RemoveEmptyMember` | Editor/Extensions.cs:29 | `RemoveEmptyEntries` keeps exactly the non-empty fields |
| `Extensions.ConcatRemoveEmpty` | Editor/Extensions.cs:29 | dropping empty fields does not change their concatenation |
| `Extensions.SplitLines` | Editor/Extensions.cs:27-30 | no line is empty and no line holds `\n` or `\r` |
| `Extensions.SplitLinesConcat` | Editor/Extensions.cs:27-30 | the lines concatenated are the input with every `\n` and `\r` removed |
| `Extensions.SplitLinesJoin` | Editor/Extensions.cs:27-30 | non-empty lines without breaks, joined with `\n`, split back into the same lines |
| `Extensions.Join` | Editor/Extensions.cs:39-42 | joining nothing gives "" and joining one value gives that value |
| `Extensions.Concat` | Editor/Extensions.cs:31-34 | joining with no separator: one value is returned as is |
| `Extensions.JoinChar` | Editor/Extensions.cs:35-38 | joining with a character separator: one value is returned as is |
| `Extensions.JoinNonEmpty` | Editor/Extensions.cs:39-42 | a join that includes a non-empty value is non-empty and at least as long as that value |
| `Extensions.JoinLength` | Editor/Extensions.cs:39-42 | a join is as long as its values plus one separator between each pair of neighbours |
| `Extensions.LastIndexOf` | Editor/Extensions.cs:45 | -1 exactly when the character is absent; otherwise the position of an occurrence with none after it |
| `Extensions.AfterLast` | Editor/Extensions.cs:43-47 | the result never holds the separator; it is the whole string when the separator is absent, and otherwise the suffix after the last separator |
| `Extensions.NormalizeSlashes` | Editor/Extensions.cs:48-51 | same length; each backslash becomes `/` and every other character is kept, so no backslash remains |
| `Extensions.NormalizeSlashesIdempotent` | Editor/Extensions.cs:48-51 | normalizing twice is normalizing once |
| `Extensions.ReplaceChar` | Editor/GitBranches.cs:143 | `Replace` for characters: same length, every `from` becomes `to`, and every other character is kept |
| `Extensions.When` | Editor/Extensions.cs:52-55 | returns `self` when the condition holds, and a value only when it holds and then it is `self` |
| `Extensions.Dictionary.GetOrCreate` | Editor/Extensions.cs:56-59 | a present key returns the stored value and leaves the dictionary unchanged; an absent key stores `createNew()` under it and returns it, and nothing else changes |
| `GitModel.Staged` | Editor/Commit.cs:57 | the staged list holds exactly the files whose index code is neither ' ' nor '?' |
| `GitModel.Unstaged` | Editor/Commit.cs:56 | the unstaged list holds exactly the files whose worktree code is not ' ' |
| `GitModel.StagedPaths` | Editor/GitStaging.cs:49 | there are at most as many staged paths as files |
| `GitModel.StagedPathsOfStagedList` | Editor/GitStaging.cs:49 | the staged paths are the `FullPath`s of the staged list, one for one and in order |
| `GitModel.UntrackedIsUnstagedOnly` | Editor/Commit.cs:56-57 | in any status, an untracked `??` file is in the unstaged list and not in the staged list |
| `GitModel.ModifiedCodes` | Editor/Commit.cs:56-57 | in any status, an index code `M` puts a file in the staged list and a worktree code `M` in the unstaged list; a blank code keeps it out of that list. So `M ` is staged only, ` M` unstaged only, and `MM` both |
| `GitModel.ForEachModule` | Editor/GitStaging.cs:43 | one command per module, in module order |
| `GitModel.NewSelections` | Editor/GitStaging.cs:25 | fresh, empty selection lists, either one pair shared by every tab (as `Enumerable.Repeat` builds them) or one pair per tab |
| `GitBranches.RefEqualsLaws` | Editor/GitBranches.cs:52-56 | only branches equal themselves, so a tag or stash does not; the comparer is symmetric and transitive; equal references are of the same branch kind |
| `GitBranches.SetMatchLaws` | Editor/GitBranches.cs:52-61 | a hash-set match (equal hashes and comparer-equal) is symmetric and transitive and holds only between branches |
| `GitBranches.DistinctFromFacts` | Editor/GitBranches.cs:86 | `Distinct` with a kept prefix keeps that prefix; everything kept comes from the prefix or the input; every input is kept or matched; no two kept references match |
| `GitBranches.DistinctFacts` | Editor/GitBranches.cs:86 | `Distinct`: results come from the input; every input is kept or matched by a kept one; tags and stashes are always kept; no two results match |
| `GitBranches.WithoutMember` | Editor/GitBranches.cs:87 | removing a matched element from the intersection's pool keeps exactly the pool entries that do not match it |
| `GitBranches.IntersectSound` | Editor/GitBranches.cs:87 | what survives `Intersect` comes from the first list and has a match in the second |
| `GitBranches.IntersectComplete` | Editor/GitBranches.cs:87 | every element of the first list that has a match in the second is represented in the result |
| `GitBranches.IntersectNoTwoMatch` | Editor/GitBranches.cs:87 | no two survivors of `Intersect` match each other |
| `GitBranches.ConsNoTwoMatch` | Editor/GitBranches.cs:87 | a list without two matching elements stays so when an element matching none of them is put in front |
| `GitBranches.FoldIntersectSound` | Editor/GitBranches.cs:87 | after the left fold of intersections, every survivor is from the first list and is matched in every later list |
| `GitBranches.FoldIntersectComplete` | Editor/GitBranches.cs:87 | an element of the first list that is matched in every later list is represented after the fold |
| `GitBranches.FoldIntersectNoTwoMatch` | Editor/GitBranches.cs:87 | no two survivors of the fold match each other |
| `GitBranches.Values` | Editor/GitBranches.cs:82-87 | the loaded reference lists, one per module, in module order |
| `GitBranches.Flatten` | Editor/GitBranches.cs:86 | `SelectMany`: every element of every list is in the result, and every result element is in some list |
| `GitBranches.SelectReferences` | Editor/GitBranches.cs:82-87 | nothing is built with no module or with a module whose references are not loaded; with one module the result is its list unchanged |
| `GitBranches.SelectUnion` | Editor/GitBranches.cs:86 | with show-all on: every shown reference comes from some module; every reference of every module is shown or matched; every tag and stash is shown; no two shown references match |
| `GitBranches.SelectIntersection` | Editor/GitBranches.cs:87 | otherwise: every shown reference is from the first module, is a branch, and is matched in every module's list; every reference of the first module matched in all others is represented; no two shown references match |
| `GitBranches.NameLeTotal` | Editor/GitBranches.cs:209 | the ordinal name order is total |
| `GitBranches.InsertByName` | Editor/GitBranches.cs:209 | inserting into a sorted list keeps it sorted and adds exactly that reference |
| `GitBranches.SortByName` | Editor/GitBranches.cs:209 | `OrderBy(QualifiedName)`: sorted, and a permutation of the input |
| `GitBranches.Listed` | Editor/GitBranches.cs:209 | the listed references are the filtered ones, sorted by qualified name, and form a permutation of the filtered list |
| `GitBranches.ListedMembers` | Editor/GitBranches.cs:209 | a reference is listed iff it passes the filter and is among the given ones |
| `GitBranches.IdsAppend` | Editor/GitBranches.cs:219 | appending an item adds exactly its id to the ids present |
| `GitBranches.NatToString` | Editor/GitBranches.cs:226 | a count prints as a non-empty string of decimal digits whose value is the count, with no leading zero |
| `GitBranches.FolderPath` | Editor/GitBranches.cs:211-214 | the folder path is the name up to its last slash, and no slash follows it |
| `GitBranches.PathParts` | Editor/GitBranches.cs:215 | a folder path has one part more than it has slashes |
| `GitBranches.HavingCount` | Editor/GitBranches.cs:225 | the number of modules having the branch is at most the module count, and equals it iff every module has the branch |
| `GitBranches.HavingCountFilters` | Editor/GitBranches.cs:225 | the count printed in `(n)` is the number of modules whose reference list holds the qualified name |
| `GitBranches.HavingCountAppend` | Editor/GitBranches.cs:225 | the count adds up over consecutive groups of modules; one module counts 1 iff its references include the name |
| `GitBranches.NamesOnBranchMembers` | Editor/GitBranches.cs:224 | the names listed for a branch are exactly the names of the modules whose current branch is this reference |
| `GitBranches.CountNoteShown` | Editor/GitBranches.cs:225-229 | the `(n)` note is empty iff every module has the branch; otherwise it is the count in parentheses |
| `GitBranches.CurrentNoteShown` | Editor/GitBranches.cs:224-230 | the `[names]` note lists the modules on the branch, comma separated and in brackets; it is shown whenever a named module is on the branch |
| `GitBranches.BranchBelowInnermostFolder` | Editor/GitBranches.cs:211-223 | a branch sits at `rootDepth` + its slash count, one level below the innermost folder created for it |
| `GitBranches.FirstFoldersPresentStep` | Editor/GitBranches.cs:216-221 | once the next folder id is present, one more folder level of the path is present |
| `GitBranches.WellPlacedAppend` | Editor/GitBranches.cs:219-232 | appending a correctly placed item, in order, keeps every earlier item's placement |
| `GitBranches.AppendFolder` | Editor/GitBranches.cs:219-220 | a folder item for part `i`, added because its id is absent, keeps the loop invariant, now past part `i`, and adds its id |
| `GitBranches.AppendBranch` | Editor/GitBranches.cs:223-232 | a branch item added after its folders advances the loop invariant to the next reference |
| `GitBranches.AddFolders` | Editor/GitBranches.cs:215-221 | the folder loop adds a folder item for each path prefix whose id is absent, so that every prefix of the path has an item |
| `GitBranches.BranchesToItems` | Editor/GitBranches.cs:204-235 | the caller's items are kept as a prefix. The listed references, in name order, are appended each as its branch item: depth `rootDepth` + slash count, label starting with the last name segment, id `hash(QualifiedName)`. Each branch item follows folder items for all its path prefixes, and a folder is added only when no earlier item has its id. Items come in order: a reference's folders parent first, then its branch item, then what belongs to the next reference |
| `GitBranches.ContextMenu` | Editor/GitBranches.cs:139-200 | no selected reference gives no menu; a branch gets four entries and a tag or stash two |
| `GitBranches.ContextMenuConfirmations` | Editor/GitBranches.cs:147-198 | only the first entry runs without a confirmation dialog; a branch's third and fourth entries merge and rebase by qualified name |
| `GitBranches.MergeOnlyForBranches` | Editor/GitBranches.cs:188-199 | no entry of a tag or stash menu merges or rebases |
| `GitBranches.ContextMenuOwnCommands` | Editor/GitBranches.cs:145-186 | the commands of each kind: checkout and `branch -d` by name; `switch` and `push -d <alias> <name>`; tag checkout by qualified name and `tag -d` by name; `stash apply` and `stash -d` of `stash@{Id}` |
| `GitBranches.FindById` | Editor/GitBranches.cs:101 | `FirstOrDefault` by id: none iff no reference hashes to the id; otherwise the first reference that does |
| `GitBranches.NewBranchCommand` | Editor/GitBranches.cs:129 | `checkout -b <name>` when checkout is requested, `branch <name>` otherwise; so it starts with `checkout -b ` iff checkout is requested, and ends with the branch name |
| `GitBranches.PerModule` | Editor/GitBranches.cs:129 | the command once per module, in module order |
| `GitBranches.MakeBranch` | Editor/GitBranches.cs:114-137 | nothing runs unless Ok is pressed; then every selected module, in order, runs `checkout -b <name>` when checkout is ticked and `branch <name>` when it is not |
| `GitBranches.ReferencesOf` | Editor/GitBranches.cs:80 | one possibly missing reference list per module, in order |
| `GitBranches.AddSection` | Editor/GitBranches.cs:91-98 | the earlier items are kept, the section header follows them at depth 0, and the items after it are what `BranchesToItems` places at root depth 1 for the references of the header's kind, sorted by name, each once |
| `GitBranches.SectionInTree` | Editor/GitBranches.cs:90-98 | a section stays a section of any longer item list that begins with it |
| `GitBranches.SectionsInTree` | Editor/GitBranches.cs:90-98 | all the sections so far stay sections when later items are appended |
| `GitBranches.HeadersAtAppend` | Editor/GitBranches.cs:90-98 | appending the next header after the items keeps every earlier header at its position and adds the new one |
| `GitBranches.SectionsSnoc` | Editor/GitBranches.cs:90-98 | the sections of an item list followed by one more section placed after them are the sections of the longer list |
| `GitBranches.SectionsAppend` | Editor/GitBranches.cs:90-98 | the sections so far and a new section placed after them are together the sections of the extended list |
| `GitBranches.AppendSection` | Editor/GitBranches.cs:91-98 | the next header and its section are appended; the sections before it are kept, with their bounds |
| `GitBranches.Tree` | Editor/GitBranches.cs:90-98 | the four sections Branches, Remotes, Tags and Stashes, in that order, from item 0 to the end of the list, each its header and the placed references of its kind |
| `GitBranches.BranchesWindow.constructor` | Editor/GitBranches.cs:70-71 | show-all off, no batch started |
| `GitBranches.BranchesWindow.ToggleShowAll` | Editor/GitBranches.cs:109 | the toggle sets show-all and changes nothing else |
| `GitBranches.BranchesWindow.BuildTree` | Editor/GitBranches.cs:77-98 | no tree iff the references cannot be combined; otherwise the four headers Branches, Remotes, Tags and Stashes, in that order, at depth 0, each followed by what `BranchesToItems` places for the combined references of its kind |
| `GitBranches.BranchesWindow.ContextClick` | Editor/GitBranches.cs:99-102 | a menu is offered iff no earlier batch is running and some shown reference's name hashes to the clicked id; it is then the context menu of the first such reference |
| `GitBranches.BranchesWindow.ChooseMenuItem` | Editor/GitBranches.cs:147-198 | unless the dialog is declined, the entry's command runs in every module and becomes the running batch; a declined dialog changes nothing |
| `GitBranches.BranchesWindow.CheckoutFinished` | Editor/GitBranches.cs:100 | the batch is marked completed and nothing else changes |
| `GitSettings.EditableRecord.New` | Editor/GitSettingsWindow.cs:29-36 | the parameterless record has empty alias and URL and is newly added |
| `GitSettings.EditableRecord.FromRemote` | Editor/GitSettingsWindow.cs:30 | a record from a fetched remote copies its alias and URL and is not newly added |
| `GitSettings.Views` | Editor/GitSettingsWindow.cs:45 | the rows' values, one per record, in order |
| `GitSettings.Loaded` | Editor/GitSettingsWindow.cs:56 | the rebuilt list: one row per remote, in order, with its alias and URL, not newly added |
| `GitSettings.Removals` | Editor/GitSettingsWindow.cs:76-78 | exactly the existing remotes whose alias no row has are removed, and each removal is of such a remote |
| `GitSettings.Updates` | Editor/GitSettingsWindow.cs:79-85 | one operation per row, in order: add for newly added rows, set-url for the others |
| `GitSettings.SaveOpsShape` | Editor/GitSettingsWindow.cs:76-85 | every removal comes before every add or set-url, and each row gets exactly one call |
| `GitSettings.ConfigOf` | Editor/GitSettingsWindow.cs:52 | the remote configuration has exactly the aliases of the fetched remotes |
| `GitSettings.RowsConfig` | Editor/GitSettingsWindow.cs:79-85 | the configuration the rows describe has exactly the rows' aliases |
| `GitSettings.ApplyAllAppend` | Editor/GitSettingsWindow.cs:76-85 | applying two operation logs in sequence is applying their concatenation |
| `GitSettings.RemovalsEffect` | Editor/GitSettingsWindow.cs:76-78 | after the removals, an alias remains iff it was there and some row has it, with its URL unchanged |
| `GitSettings.UpdatesEffect` | Editor/GitSettingsWindow.cs:79-85 | with distinct row aliases, where exactly the rows that are not newly added are present, the updates overwrite the configuration with the rows |
| `GitSettings.SaveReachesRows` | Editor/GitSettingsWindow.cs:76-85 | Save turns the remotes' configuration into exactly the configuration the rows describe |
| `GitSettings.KeptByRemovals` | Editor/GitSettingsWindow.cs:76-78 | every alias that survives the removals is an alias of some row |
| `GitSettings.LoadedConfig` | Editor/GitSettingsWindow.cs:56 | the freshly rebuilt rows describe exactly the fetched configuration |
| `GitSettings.SaveWithoutEditsKeepsRemotes` | Editor/GitSettingsWindow.cs:56-85 | saving the freshly rebuilt rows leaves the remote configuration as it was |
| `GitSettings.SettingsWindow.Snapshot` | Editor/GitSettingsWindow.cs:45 | one row value per editable record |
| `GitSettings.SettingsWindow.constructor` | Editor/GitSettingsWindow.cs:41-45 | hash 0, no list, no rows |
| `GitSettings.SettingsWindow.Refresh` | Editor/GitSettingsWindow.cs:52-72 | the list is rebuilt from the remotes (fresh records) iff their hash differs from the last one, after which the last hash is that hash; otherwise nothing changes |
| `GitSettings.SettingsWindow.Add` | Editor/GitSettingsWindow.cs:62-65 | exactly one new, empty, newly added record is appended at the end |
| `GitSettings.SettingsWindow.Remove` | Editor/GitSettingsWindow.cs:66-69 | exactly the record at the index is removed, and the others keep their order |
| `GitSettings.SettingsWindow.EditRow` | Editor/GitSettingsWindow.cs:91-101 | the URL of any row takes the input; the alias changes only for a newly added row; nothing else changes |
| `GitSettings.SettingsWindow.Save` | Editor/GitSettingsWindow.cs:74-86 | the two loops issue exactly `SaveOps` of the remotes and the current rows |
| `GitStaging.StagedModuleCount` | Editor/GitStaging.cs:35 | at most the module count; positive iff some module's status is loaded and has a staged file; equal to the count iff every module's does |
| `GitStaging.StagedModuleCountFilters` | Editor/GitStaging.cs:35 | the count is the number of modules whose status is loaded and has a staged file |
| `GitStaging.StagedModuleCountAppend` | Editor/GitStaging.cs:35 | the count adds up over consecutive groups of modules; one module counts 1 iff it has staged files |
| `GitStaging.FirstUnknown` | Editor/GitStaging.cs:48-51 | every module before it has a loaded status, and the module at it (if any) has none |
| `GitStaging.CommitCommand` | Editor/GitStaging.cs:43 | the intended commit command, with the message between two quotes |
| `GitStaging.CommitCommandAsWritten` | Editor/GitStaging.cs:43 | the command the window runs: it opens a quote before the message and never closes it |
| `GitStaging.CommitCommandAsWrittenLeavesQuoteOpen` | Editor/GitStaging.cs:43 | for a quote-free message, the command as written holds one quote and the intended one holds two |
| `GitStaging.StashCommandShape` | Editor/GitStaging.cs:50 | the stash command the window runs: `stash push -m "`, the message with no closing quote, ` -- `, then the module's staged paths |
| `GitStaging.StashCommandIntendedShape` | Editor/GitStaging.cs:50 | the intended stash command quotes the message on both sides before ` -- ` and the staged paths |
| `GitStaging.StashPrefixQuotes` | Editor/GitStaging.cs:50 | the text before the message holds exactly the one opening quote |
| `GitStaging.QuotesAfterHead` | Editor/GitStaging.cs:50 | after that text, a quote-free message and file list add no quote, and a closing quote adds one |
| `GitStaging.StashFilesInsideOpenQuote` | Editor/GitStaging.cs:50 | for a quote-free message and file list, the command as written holds a single quote, the one before the message, so the message, `--` and the file list all fall inside it |
| `GitStaging.StashCommandClosesQuote` | Editor/GitStaging.cs:50 | for a quote-free message and file list, the intended command holds two quotes |
| `GitStaging.StashRuns` | Editor/GitStaging.cs:48-51 | the stash commands as written of the first k modules: one per module, in order, each with that module's staged paths |
| `GitStaging.Paths` | Editor/GitStaging.cs:103 | the `FullPath` of each file, in order |
| `GitStaging.SelectedFiles` | Editor/GitStaging.cs:87 | exactly the status's files whose path is selected in either list |
| `GitStaging.FileMenu` | Editor/GitStaging.cs:97-118 | no menu for no files. Otherwise three entries when some file is in the index and one when none is: "Diff" of the first file with its staged flag, then "Discrad" running `checkout -- <files>` after a confirmation. "Delete" of all the files, after a confirmation, is always last |
| `GitStaging.FileMenuActsOnSelection` | Editor/GitStaging.cs:87-117 | every path the menu deletes is selected in the tab and is a file of the module's status |
| `GitStaging.StagingWindow.MoreMenuActsOnSelection` | Editor/GitStaging.cs:85-117 | every path the window's "More" menu deletes is selected in the current tab's lists and is a file of the module's status |
| `GitStaging.StagingWindow.constructor` | Editor/GitStaging.cs:21-28 | empty message, tab 0, no task started, empty selections laid out as asked |
| `GitStaging.StagingWindow.EditMessage` | Editor/GitStaging.cs:33 | the message is what was typed |
| `GitStaging.StagingWindow.ClickCommit` | Editor/GitStaging.cs:35-45 | when some module has staged files, the message is not blank and no task runs: every module runs the commit command as written (`commit -m "` and the message, with no closing quote), each slot holds it, and the message is cleared. Otherwise nothing changes |
| `GitStaging.StagingWindow.ClickStash` | Editor/GitStaging.cs:35-53 | when enabled, the modules up to the first one without a loaded status each run the stash command as written, with their staged paths inside the open quote. If every status is loaded, the slots hold those commands and the message is cleared. Otherwise the reading throws: the slots and message are kept, and only the earlier modules' commands were issued |
| `GitStaging.StagingWindow.IssueStash` | Editor/GitStaging.cs:48-51 | the loop issues the stash commands as written up to the first module without a loaded status, and fills a new slot array with them |
| `GitStaging.StagingWindow.SelectTab` | Editor/GitStaging.cs:56 | the chosen tab, or tab 0 when there is only one module |
| `GitStaging.StagingWindow.SelectPath` | Editor/GitStaging.cs:59-60 | a clicked path is added to the tab's list selection. With a pair per tab, the other tabs' selections are unchanged |
| `GitStaging.StagingWindow.ClickStage` | Editor/GitStaging.cs:64-79 | when the lists are shown and the tab's task is not running: the tab's slot holds `add -f -- <unstaged selection>`, that command is issued and the unstaged selection is cleared. With shared lists, every tab's unstaged selection is then empty; with a pair per tab, the other tabs keep theirs. When disabled, nothing changes |
| `GitStaging.StagingWindow.ClickUnstage` | Editor/GitStaging.cs:64-84 | the same for `reset -q -- <staged selection>` and the staged selection |
| `GitStaging.StagingWindow.MoreMenu` | Editor/GitStaging.cs:64-88 | no menu iff the lists are disabled (repository path unknown or the tab's task running) or no file of the status is selected in the tab; a menu always ends with "Delete" |
| `GitStaging.StagingWindow.CompleteTask` | Editor/GitStaging.cs:36 | a finished command's slot is no longer running; the other slots are unchanged |
| `GitStaging.SharedSelectionCrossesModules` | Editor/GitStaging.cs:25-79 | with shared lists, a path selected in the first module's tab is staged in the second module after switching tabs |
| `GitStaging.PerTabSelectionStaysInModule` | Editor/GitStaging.cs:25-79 | with a pair per tab, the same steps stage nothing in the second module |
| `Commit.TabLabel` | Editor/Commit.cs:23 | no label exceeds 20 characters. A name of at most 20 is unchanged; a longer one becomes exactly 20: its first character, `..`, and its last 17 |
| `Commit.TabLabelsCollide` | Editor/Commit.cs:23 | two long names get the same label iff they share the first character and the last 17 |
| `Commit.CommitCommand` | Editor/Commit.cs:34 | `commit -m "<message>"`, the same command the staging window intends |
| `Commit.PathArguments` | Editor/Commit.cs:63 | the selection joined with spaces: "" for no path, the path itself for one |
| `Commit.SelectionSurvivesJoin` | Editor/Commit.cs:63-68 | read back as space-separated arguments, the joined paths are the selection when no path holds a space |
| `Commit.PathWithSpaceIsSplit` | Editor/Commit.cs:63 | a selected path with a space in it reads back as two arguments |
| `Commit.CommitWindow.constructor` | Editor/Commit.cs:17-24 | empty message, tab 0, no task started, window open, empty selections laid out as asked |
| `Commit.CommitWindow.EditMessage` | Editor/Commit.cs:28 | the message is what was typed, in the open window (the buttons and lists likewise require it open, Commit.cs:35) |
| `Commit.CommitWindow.ClickCommit` | Editor/Commit.cs:29-36 | while no task runs, every module commits with the message in quotes, each slot holds its command, and the window closes. No blank-message or staged-file check applies, and the message is kept. Otherwise nothing changes |
| `Commit.CommitWindow.SelectTab` | Editor/Commit.cs:39 | the chosen tab, or tab 0 when there is only one module |
| `Commit.CommitWindow.SelectPath` | Editor/Commit.cs:42-43 | a clicked path is added to the tab's list selection. With a pair per tab, the other tabs' selections are unchanged |
| `Commit.CommitWindow.ClickStage` | Editor/Commit.cs:51-65 | when the lists are shown and the tab's task is not running: the tab's slot holds `add -f -- ` plus the space-joined unstaged selection, and that selection is cleared (on every tab with shared lists). Otherwise nothing changes |
| `Commit.CommitWindow.ClickUnstage` | Editor/Commit.cs:51-70 | the same for `reset -q -- ` and the staged selection |
| `Commit.CommitWindow.CompleteTask` | Editor/Commit.cs:29 | a finished command's slot is no longer running; the other slots are unchanged |
| `Commit.SharedSelectionCrossesModules` | Editor/Commit.cs:21-65 | with shared lists, a path selected in the first module's tab is staged in the second module after switching tabs |
| `Commit.PerTabSelectionStaysInModule` | Editor/Commit.cs:21-65 | with a pair per tab, the same steps stage nothing in the second module |

## Left out

- Rendering is not modelled. This covers the IMGUI widgets, tree view construction from depths, generic menus, reorderable lists, serialized objects, modal windows, menu-item registration, scroll positions and the float layout arithmetic. A button press is a method call, a typed text is an argument, and a toolbar choice is a tab index.
- Splitter layout is not modelled: `SplitterGUILayout.cs` only reaches internal editor types by reflection and has no rules of its own.
- Asynchrony is not modelled. A task is a status value, and its completion is a method call (`CompleteTask`, `CheckoutFinished`). The final `Task.WhenAll` awaits are left out, and so is the scheduling of the remote operations, which Save does not await. Only their issue order is modelled.
- Git processes are not run. Every `RunGit`, `RunGitAndErrorCheck` and remote operation is appended to a log. Errors of these commands, and their dialogs, are not modelled.
- `File.Delete` and `Diff.ShowDiff` are not performed: the "More" menu entries carry them as `DeleteFiles` and `ShowDiff` values.
- Dialog texts (the paths, module counts and merge summaries shown) are not modelled. Only whether an entry asks for confirmation is modelled.
- Button captions and header labels are not modelled: the "Commit n/m modules" captions and the module name with its current branch.
- `string.GetHashCode` is a parameter, and no collision-freedom is assumed. The hash of the remotes list is an argument to `Refresh`.
- `PackageShortcuts.JoinFileNames` is a parameter; its quoting rules are not part of this model.
- Only the fields the windows read are modelled for the module and status types: reference lists, current branch, remotes, and the status files with codes, path and `IsInIndex`.
- `FileStatus.IsStaged` is not part of this model. The staging window's stash and diff flag use the index-code rule that `Commit.cs` applies, where X is neither ' ' nor '?'.
- A query that is not loaded and a query that failed look the same in the windows (`None`). The exception the first poll of a failed query throws inside a window frame is modelled only in `Extensions.PollStep`.
- Module selection (`GetSelectedGitModules`, `ModuleGuidToolbar`) is not modelled. The windows receive the modules, or the selected module's remotes, as arguments.
- GitBranches.SortByName: `OrderBy` on strings uses culture-sensitive comparison; the model uses ordinal character order.
- GitBranches.BranchesToItems: it appends to the caller's list in place; the model returns the extended sequence and states that the caller's items are its prefix.
- GitBranches.BranchesWindow.BuildTree: the tree view's own handling of the items (ids, expansion) is not modelled; the item list it is given is.
- GitStaging.StagingWindow.SelectPath: `GUIShortcuts.DrawList` is not part of this model. The model takes a click on a path to append it to the list's selection; the list's own rules for clicking (toggling, ranges, clearing) are not modelled.
- Commit.TabLabel: it counts characters, where `Name.Length`, `Name[0]` and `Name[^17..]` count UTF-16 code units. For a name with characters outside the Basic Multilingual Plane, the source can split a surrogate pair and cuts at a different place; the model's label can then be longer than 20 UTF-16 units.
- Commit.CommitWindow.SelectPath: as for the staging window, `GUIShortcuts.DrawList` is not part of this model, and a click is taken to append the path.
- GitBranches.Reference: a stash's `Id` is kept as the text it prints as.
- GitSettings.SaveReachesRows: it is proved only when the rows' aliases are distinct and the newly added rows are exactly those whose alias the remotes do not have yet. Otherwise git rejects an operation, and the model does not say what remains.
- The module layer's own promise that polling never throws does not apply here. The code's `GetResultOrDefault` rethrows a failure on its first poll, and the model follows the code.

## Findings

| source | as written | input that shows it | evidently intended | confidence | as-written member | corrected member |
|---|---|---|---|---|---|---|
| Editor/Extensions.cs:23-26 | `wrapLeft + self + wrapRight ?? wrapLeft` parses as `(wrapLeft + self + wrapRight) ?? wrapLeft`. A concatenation is never null, so a missing right wrap is dropped and the default call opens a quote it never closes | `"wip".WrapUp()` gives `"wip`. The staging window then commits with `commit -m "wip` and stashes with `stash push -m "wip -- <files>`, where the open quote takes in the file list | a missing right wrap repeats the left one: `"wip"` | high; not executed | `Extensions.WrapUp`, `Extensions.WrapUpDefaultLeavesQuoteOpen`, `GitStaging.CommitCommandAsWrittenLeavesQuoteOpen`, `GitStaging.StashFilesInsideOpenQuote` (the staging window runs these commands) | `Extensions.WrapUpIntended`, `Extensions.WrapUpIntendedDefaultQuotes`, `GitStaging.CommitCommand`, `GitStaging.StashCommandClosesQuote` |
| Editor/GitStaging.cs:25 | `Enumerable.Repeat` repeats one tuple, so every tab refers to the same two selection lists | two modules: select `a.txt` in the first tab (a click taken to append the path, as under "## Left out"), switch to the second, press `>>`. The second module runs `add -f -- a.txt` | each tab keeps a selection of its own module's files | medium; not executed | `GitStaging.SharedSelectionCrossesModules` | `GitStaging.PerTabSelectionStaysInModule` |
| Editor/Commit.cs:21 | the same shared selection lists in the commit window | the same steps: the second module runs `add -f -- a.txt` | each tab keeps a selection of its own module's files | medium; not executed | `Commit.SharedSelectionCrossesModules` | `Commit.PerTabSelectionStaysInModule` |
