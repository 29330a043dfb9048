/**
 The staging window: one commit message for all selected modules, commit and
 stash buttons that start one git command per module, and per module tab two
 file lists (unstaged, staged) with buttons that stage, unstage or act on the
 selected files.
 */
module GitStaging {
  import opened Extensions
  import opened GitModel

  // ---------------------------------------------------------------------------
  // What the buttons read
  // ---------------------------------------------------------------------------

  /**
   A module counts for the commit button when its status is known and lists
   a staged file (the staged list and the staged paths have the same length,
   `StagedPathsOfStagedList`).
   */
  predicate HasStagedFiles(status: Option<GitStatus>) {
    status.Some? && StagedPaths(status.value.files) != []
  }

  /** The number of modules with staged files, shown on both buttons. */
  function StagedModuleCount(statuses: seq<Option<GitStatus>>): (n: nat)
    ensures n <= |statuses|
    ensures n == |statuses| <==> forall i :: 0 <= i < |statuses| ==> HasStagedFiles(statuses[i])
    ensures n > 0 <==> exists i :: 0 <= i < |statuses| && HasStagedFiles(statuses[i])
  {
    if statuses == [] then 0
    else
      var rest := StagedModuleCount(statuses[1..]);
      assert forall i :: 1 <= i < |statuses| ==> statuses[i] == statuses[1..][i - 1];
      (if HasStagedFiles(statuses[0]) then 1 else 0) + rest
  }

  /** The count is the number of modules that `Count` with the staged-files test keeps. */
  lemma {:induction false} StagedModuleCountFilters(statuses: seq<Option<GitStatus>>)
    ensures StagedModuleCount(statuses) == |Filter(HasStagedFiles, statuses)|
  {
    if statuses != [] {
      StagedModuleCountFilters(statuses[1..]);
    }
  }

  /**
   The count adds up over consecutive groups of modules, and one module
   counts 1 exactly when it has staged files.
   */
  lemma StagedModuleCountAppend(a: seq<Option<GitStatus>>, b: seq<Option<GitStatus>>, status: Option<GitStatus>)
    ensures StagedModuleCount(a + b) == StagedModuleCount(a) + StagedModuleCount(b)
    ensures StagedModuleCount([status]) == if HasStagedFiles(status) then 1 else 0
  {
    StagedModuleCountFilters(a + b);
    StagedModuleCountFilters(a);
    StagedModuleCountFilters(b);
    FilterAppend(HasStagedFiles, a, b);
  }

  /**
   The index of the first module whose status is not loaded yet, or the
   number of modules when every status is loaded.
   */
  function FirstUnknown(statuses: seq<Option<GitStatus>>): (k: nat)
    ensures k <= |statuses|
    ensures forall i :: 0 <= i < k ==> statuses[i].Some?
    ensures k < |statuses| ==> statuses[k].None?
  {
    if statuses == [] || statuses[0].None? then 0
    else 1 + FirstUnknown(statuses[1..])
  }

  // ---------------------------------------------------------------------------
  // Commands
  // ---------------------------------------------------------------------------

  /** The commit command with the message quoted on both sides. */
  function CommitCommand(message: string): (command: string)
    ensures command == "commit -m \"" + message + "\""
  {
    WrapUpIntendedDefaultQuotesShape(message);
    "commit -m " + WrapUpIntended(message, "\"", None)
  }

  /** The commit command as the window builds it with the default `WrapUp()`. */
  function CommitCommandAsWritten(message: string): (command: string)
    ensures command == "commit -m \"" + message
  {
    "commit -m " + WrapUp(message, "\"", None)
  }

  /**
   The stash command of one module as the window builds it: the message
   after the default `WrapUp()`, then the module's staged files after `--`.
   */
  function StashCommandAsWritten(message: string, status: GitStatus, joinFileNames: seq<string> -> string): string {
    "stash push -m " + WrapUp(message, "\"", None) + " -- " + joinFileNames(StagedPaths(status.files))
  }

  /** The stash command with the message quoted on both sides. */
  function StashCommand(message: string, status: GitStatus, joinFileNames: seq<string> -> string): string {
    "stash push -m " + WrapUpIntended(message, "\"", None) + " -- " + joinFileNames(StagedPaths(status.files))
  }

  /**
   As written, the stash command opens a quote before the message and never
   closes it; the module's staged files follow the message after ` -- `.
   */
  lemma StashCommandShape(message: string, status: GitStatus, joinFileNames: seq<string> -> string)
    ensures StashCommandAsWritten(message, status, joinFileNames)
      == "stash push -m \"" + message + " -- " + joinFileNames(StagedPaths(status.files))
  {
  }

  /** The intended stash command quotes the message on both sides before the staged files. */
  lemma StashCommandIntendedShape(message: string, status: GitStatus, joinFileNames: seq<string> -> string)
    ensures StashCommand(message, status, joinFileNames)
      == "stash push -m \"" + message + "\" -- " + joinFileNames(StagedPaths(status.files))
  {
    WrapUpIntendedDefaultQuotesShape(message);
  }

  /** The command up to the stash message holds the one quote that opens the message. */
  lemma StashPrefixQuotes()
    ensures Count("stash push -m \"", {'"'}) == 1
  {
    var head := "stash push -m \"";
    assert Count(head[..14], {'"'}) == 0 by {
      assert forall i :: 0 <= i < 14 ==> head[i] != '"';
    }
    CountAppend(head[..14], head[14..], {'"'});
    assert head[..14] + head[14..] == head;
  }

  /**
   After a head with one quote, a quote-free message and file list around
   ` -- ` add no quote, and around `" -- ` add exactly one.
   */
  lemma QuotesAfterHead(head: string, message: string, files: string)
    requires Count(head, {'"'}) == 1 && Count(message, {'"'}) == 0 && Count(files, {'"'}) == 0
    ensures Count(head + message + " -- " + files, {'"'}) == 1
    ensures Count(head + message + "\" -- " + files, {'"'}) == 2
  {
    var open := " -- ";
    var closed := "\" -- ";
    assert Count(open, {'"'}) == 0 by {
      assert forall i :: 0 <= i < |open| ==> open[i] != '"';
    }
    assert Count(closed, {'"'}) == 1 by {
      assert closed == "\"" + open;
      CountAppend("\"", open, {'"'});
    }
    CountAppend(head, message, {'"'});
    CountAppend(head + message, open, {'"'});
    CountAppend(head + message + open, files, {'"'});
    CountAppend(head + message, closed, {'"'});
    CountAppend(head + message + closed, files, {'"'});
  }

  /**
   For a message and a file list without quotes, the stash command as
   written holds a single quote, the one before the message: the message,
   the `--` and the file list all lie inside that open quote.
   */
  lemma StashFilesInsideOpenQuote(message: string, status: GitStatus, joinFileNames: seq<string> -> string)
    requires Count(message, {'"'}) == 0
    requires Count(joinFileNames(StagedPaths(status.files)), {'"'}) == 0
    ensures StashCommandAsWritten(message, status, joinFileNames)
      == "stash push -m \"" + message + " -- " + joinFileNames(StagedPaths(status.files))
    ensures Count("stash push -m \"", {'"'}) == 1
    ensures Count(StashCommandAsWritten(message, status, joinFileNames), {'"'}) == 1
  {
    StashCommandShape(message, status, joinFileNames);
    StashPrefixQuotes();
    QuotesAfterHead("stash push -m \"", message, joinFileNames(StagedPaths(status.files)));
  }

  /**
   For a message and a file list without quotes, the intended stash command
   holds two quotes: the message is closed before the files.
   */
  lemma StashCommandClosesQuote(message: string, status: GitStatus, joinFileNames: seq<string> -> string)
    requires Count(message, {'"'}) == 0
    requires Count(joinFileNames(StagedPaths(status.files)), {'"'}) == 0
    ensures Count(StashCommand(message, status, joinFileNames), {'"'}) == 2
  {
    StashCommandIntendedShape(message, status, joinFileNames);
    StashPrefixQuotes();
    QuotesAfterHead("stash push -m \"", message, joinFileNames(StagedPaths(status.files)));
  }

  /**
   The (module index, command) pairs the stash button hands out for the
   first `k` modules, all of whose statuses are loaded.
   */
  function StashRuns(message: string, statuses: seq<Option<GitStatus>>, joinFileNames: seq<string> -> string, k: nat)
    : (runs: seq<(nat, string)>)
    requires k <= |statuses|
    requires forall i :: 0 <= i < k ==> statuses[i].Some?
    ensures |runs| == k
    ensures forall i :: 0 <= i < k ==> runs[i] == (i, StashCommandAsWritten(message, statuses[i].value, joinFileNames))
  {
    if k == 0 then []
    else StashRuns(message, statuses, joinFileNames, k - 1) + [(k - 1, StashCommandAsWritten(message, statuses[k - 1].value, joinFileNames))]
  }

  lemma WrapUpIntendedDefaultQuotesShape(message: string)
    ensures WrapUpIntended(message, "\"", None) == "\"" + message + "\""
  {
  }

  /**
   For a message without quotes, the commit command as written holds one
   quote character, and so leaves the message's quote open; the intended
   command holds two.
   */
  lemma CommitCommandAsWrittenLeavesQuoteOpen(message: string)
    requires Count(message, {'"'}) == 0
    ensures Count(CommitCommandAsWritten(message), {'"'}) == 1
    ensures Count(CommitCommand(message), {'"'}) == 2
  {
    var prefix := "commit -m ";
    assert Count(prefix, {'"'}) == 0 by {
      assert forall i :: 0 <= i < |prefix| ==> prefix[i] != '"';
    }
    WrapUpDefaultLeavesQuoteOpen(message);
    CountAppend(prefix, WrapUp(message, "\"", None), {'"'});
    WrapUpIntendedDefaultQuotes(message);
    CountAppend(prefix, WrapUpIntended(message, "\"", None), {'"'});
  }

  /** `add -f -- <paths>`: stages the given paths of a module. */
  function StageCommand(paths: seq<string>, joinFileNames: seq<string> -> string): string {
    "add -f -- " + joinFileNames(paths)
  }

  /** `reset -q -- <paths>`: unstages the given paths of a module. */
  function UnstageCommand(paths: seq<string>, joinFileNames: seq<string> -> string): string {
    "reset -q -- " + joinFileNames(paths)
  }

  // ---------------------------------------------------------------------------
  // The "More" menu
  // ---------------------------------------------------------------------------

  function Paths(files: seq<FileStatus>): (paths: seq<string>)
    ensures |paths| == |files|
    ensures forall i :: 0 <= i < |files| ==> paths[i] == files[i].fullPath
  {
    seq(|files|, i requires 0 <= i < |files| => files[i].fullPath)
  }

  /** The files of the status that are selected in either list of the tab. */
  function SelectedFiles(status: GitStatus, unstagedSelection: seq<string>, stagedSelection: seq<string>): (files: seq<FileStatus>)
    ensures forall i :: 0 <= i < |files| ==>
      files[i] in status.files && (files[i].fullPath in unstagedSelection || files[i].fullPath in stagedSelection)
    ensures forall i :: 0 <= i < |status.files| ==>
      (status.files[i].fullPath in unstagedSelection || status.files[i].fullPath in stagedSelection) ==> status.files[i] in files
  {
    Filter((f: FileStatus) => f.fullPath in unstagedSelection || f.fullPath in stagedSelection, status.files)
  }

  /** What choosing a menu entry does. */
  datatype FileAction =
    | ShowDiff(path: string, staged: bool)
    | RunGit(command: string)
    | DeleteFiles(paths: seq<string>)

  /** A menu entry; `confirm` says a dialog asks before the action runs. */
  datatype FileMenuItem = FileMenuItem(caption: string, action: FileAction, confirm: bool)

  predicate AnyInIndex(files: seq<FileStatus>) {
    exists i :: 0 <= i < |files| && files[i].isInIndex
  }

  /**
   The context menu of the selected files: nothing when no file is selected;
   "Diff" of the first file and "Discrad" (checkout) when a selected file is
   in the index; "Delete" always.
   */
  function FileMenu(files: seq<FileStatus>, joinFileNames: seq<string> -> string): (menu: Option<seq<FileMenuItem>>)
    ensures menu.None? <==> files == []
    ensures menu.Some? ==> |menu.value| == (if AnyInIndex(files) then 3 else 1)
    ensures menu.Some? ==> menu.value[|menu.value| - 1] == FileMenuItem("Delete", DeleteFiles(Paths(files)), true)
    ensures menu.Some? && AnyInIndex(files) ==>
      && menu.value[0] == FileMenuItem("Diff", ShowDiff(files[0].fullPath, IsStaged(files[0])), false)
      && menu.value[1] == FileMenuItem("Discrad", RunGit("checkout -- " + joinFileNames(Paths(files))), true)
  {
    if files == [] then None
    else
      var filesList := joinFileNames(Paths(files));
      var delete := FileMenuItem("Delete", DeleteFiles(Paths(files)), true);
      if AnyInIndex(files) then
        Some([FileMenuItem("Diff", ShowDiff(files[0].fullPath, IsStaged(files[0])), false),
              FileMenuItem("Discrad", RunGit("checkout -- " + filesList), true),
              delete])
      else Some([delete])
  }

  /**
   Every path the menu of a tab can discard or delete is a file of the
   module's status that is selected in one of the tab's lists.
   */
  lemma FileMenuActsOnSelection(status: GitStatus, unstagedSelection: seq<string>, stagedSelection: seq<string>,
                                joinFileNames: seq<string> -> string, k: nat, p: nat)
    requires FileMenu(SelectedFiles(status, unstagedSelection, stagedSelection), joinFileNames).Some?
    requires k < |FileMenu(SelectedFiles(status, unstagedSelection, stagedSelection), joinFileNames).value|
    requires FileMenu(SelectedFiles(status, unstagedSelection, stagedSelection), joinFileNames).value[k].action.DeleteFiles?
    requires p < |FileMenu(SelectedFiles(status, unstagedSelection, stagedSelection), joinFileNames).value[k].action.paths|
    ensures FileMenu(SelectedFiles(status, unstagedSelection, stagedSelection), joinFileNames).value[k].action.paths[p] in unstagedSelection + stagedSelection
    ensures exists i :: (0 <= i < |status.files| &&
      status.files[i].fullPath == FileMenu(SelectedFiles(status, unstagedSelection, stagedSelection), joinFileNames).value[k].action.paths[p])
  {
    var files := SelectedFiles(status, unstagedSelection, stagedSelection);
    var menu := FileMenu(files, joinFileNames).value;
    assert k == |menu| - 1;
    assert menu[k].action.paths[p] == files[p].fullPath;
    assert files[p] in status.files;
    var i :| 0 <= i < |status.files| && status.files[i] == files[p];
  }

  // ---------------------------------------------------------------------------
  // The window
  // ---------------------------------------------------------------------------

  class StagingWindow {
    /** The number of selected modules; each has a tab. */
    const moduleCount: nat
    var commitMessage: string
    /** The git command each module ran last from this window, if any. */
    var tasks: array<TaskSlot>
    var tab: nat
    /** The selection pair each tab reads and clears. */
    var selection: seq<Selection>
    /** The commands handed to the modules, in order: (module index, command). */
    var issued: seq<(nat, string)>

    ghost predicate Valid()
      reads this
    {
      moduleCount >= 1 && tasks.Length == moduleCount && |selection| == moduleCount && tab < moduleCount
    }

    /**
     Opens the window on `moduleCount` modules (the menu entry is offered only
     when at least one module is selected).
     */
    constructor (moduleCount: nat, layout: SelectionLayout)
      requires moduleCount >= 1
      ensures this.moduleCount == moduleCount
      ensures Valid() && fresh(tasks)
      ensures commitMessage == "" && tab == 0 && issued == []
      ensures forall i :: 0 <= i < moduleCount ==> tasks[i].None?
      ensures forall t :: 0 <= t < moduleCount ==> fresh(selection[t]) && selection[t].unstaged == [] && selection[t].staged == []
      ensures layout == SharedLists ==> AllShared(selection)
      ensures layout == ListsPerTab ==> AllDistinct(selection)
    {
      var pairs := NewSelections(moduleCount, layout);
      this.moduleCount := moduleCount;
      commitMessage := "";
      tasks := new TaskSlot[moduleCount](_ => None);
      tab := 0;
      issued := [];
      selection := pairs;
    }

    /**
     Both buttons are enabled when a module has staged files, the message is
     not blank and no command started here is still running.
     */
    predicate CommitAvailable(statuses: seq<Option<GitStatus>>)
      reads this, tasks
    {
      StagedModuleCount(statuses) > 0 && !IsBlank(commitMessage) && !AnyRunning(tasks[..])
    }

    /** The file lists are shown with the repository path and status known, and usable while the tab's command is not running. */
    predicate ListsEnabled(repoPathKnown: bool, statusKnown: bool)
      reads this, tasks
      requires Valid()
    {
      repoPathKnown && statusKnown && !IsRunning(tasks[tab])
    }

    /** The commit message as typed into the text area. */
    method EditMessage(message: string)
      modifies this`commitMessage
      ensures commitMessage == message
    {
      commitMessage := message;
    }

    /**
     The commit button: when enabled, every module runs the commit command
     as written (the message after an unclosed quote), each task slot holds
     that command, and the message is cleared; when disabled, nothing
     happens.
     */
    method ClickCommit(statuses: seq<Option<GitStatus>>)
      requires Valid() && |statuses| == moduleCount
      modifies this
      ensures Valid() && selection == old(selection) && tab == old(tab)
      ensures old(CommitAvailable(statuses)) ==>
        && fresh(tasks)
        && (forall i :: 0 <= i < moduleCount ==> tasks[i] == Some(GitTask(CommitCommandAsWritten(old(commitMessage)), false)))
        && commitMessage == ""
        && issued == old(issued) + ForEachModule(moduleCount, CommitCommandAsWritten(old(commitMessage)))
      ensures !old(CommitAvailable(statuses)) ==>
        tasks == old(tasks) && commitMessage == old(commitMessage) && issued == old(issued)
    {
      if CommitAvailable(statuses) {
        var command := CommitCommandAsWritten(commitMessage);
        var started := new TaskSlot[moduleCount](_ => None);
        var i := 0;
        while i < moduleCount
          invariant 0 <= i <= moduleCount
          invariant forall j :: 0 <= j < i ==> started[j] == Some(GitTask(command, false))
          invariant issued == old(issued) + ForEachModule(i, command)
          invariant Valid() && selection == old(selection) && tab == old(tab)
        {
          started[i] := Some(GitTask(command, false));
          ForEachModuleNext(i, command);
          issued := issued + [(i, command)];
          i := i + 1;
        }
        tasks := started;
        commitMessage := "";
      }
    }

    /**
     The stash button: when enabled, module after module runs the stash
     command as written, whose unclosed quote takes in the staged files. Reading the files of a module whose status is
     not loaded throws, so the modules from the first such one on get no
     command, the task slots are not replaced and the message is kept; when
     every status is loaded, the slots hold the stash commands and the
     message is cleared.
     */
    method ClickStash(statuses: seq<Option<GitStatus>>, joinFileNames: seq<string> -> string)
      requires Valid() && |statuses| == moduleCount
      modifies this
      ensures Valid() && selection == old(selection) && tab == old(tab)
      ensures old(CommitAvailable(statuses)) ==>
        issued == old(issued) + StashRuns(old(commitMessage), statuses, joinFileNames, FirstUnknown(statuses))
      ensures old(CommitAvailable(statuses)) && FirstUnknown(statuses) == moduleCount ==>
        && fresh(tasks)
        && (forall i :: 0 <= i < moduleCount ==>
              tasks[i] == Some(GitTask(StashCommandAsWritten(old(commitMessage), statuses[i].value, joinFileNames), false)))
        && commitMessage == ""
      ensures old(CommitAvailable(statuses)) && FirstUnknown(statuses) < moduleCount ==>
        tasks == old(tasks) && commitMessage == old(commitMessage)
      ensures !old(CommitAvailable(statuses)) ==>
        tasks == old(tasks) && commitMessage == old(commitMessage) && issued == old(issued)
    {
      if CommitAvailable(statuses) {
        var started, count := IssueStash(commitMessage, statuses, joinFileNames);
        if count == moduleCount {
          tasks := started;
          commitMessage := "";
        }
      }
    }

    /**
     The commands the stash button hands out, module after module, up to the
     first module whose status is not loaded.
     */
    method IssueStash(message: string, statuses: seq<Option<GitStatus>>, joinFileNames: seq<string> -> string)
      returns (started: array<TaskSlot>, count: nat)
      requires |statuses| == moduleCount
      modifies this`issued
      ensures count == FirstUnknown(statuses)
      ensures fresh(started) && started.Length == moduleCount
      ensures issued == old(issued) + StashRuns(message, statuses, joinFileNames, count)
      ensures forall j :: 0 <= j < count ==>
        started[j] == Some(GitTask(StashCommandAsWritten(message, statuses[j].value, joinFileNames), false))
    {
      started := new TaskSlot[moduleCount](_ => None);
      count := 0;
      while count < moduleCount && statuses[count].Some?
        invariant 0 <= count <= FirstUnknown(statuses)
        invariant issued == old(issued) + StashRuns(message, statuses, joinFileNames, count)
        invariant forall j :: 0 <= j < count ==>
          started[j] == Some(GitTask(StashCommandAsWritten(message, statuses[j].value, joinFileNames), false))
      {
        var command := StashCommandAsWritten(message, statuses[count].value, joinFileNames);
        started[count] := Some(GitTask(command, false));
        issued := issued + [(count, command)];
        count := count + 1;
      }
    }

    /** The module toolbar: shown only for more than one module, otherwise the first tab. */
    method SelectTab(choice: nat)
      requires Valid() && choice < moduleCount
      modifies this`tab
      ensures Valid()
      ensures tab == if moduleCount > 1 then choice else 0
    {
      tab := if moduleCount > 1 then choice else 0;
    }

    /**
     A click on a path in one of the tab's lists adds it to that list's
     selection; the pair the tab refers to is the only object changed.
     */
    method SelectPath(inStagedList: bool, path: string)
      requires Valid()
      modifies selection[tab]
      ensures inStagedList ==>
        selection[tab].staged == old(selection[tab].staged) + [path] && selection[tab].unstaged == old(selection[tab].unstaged)
      ensures !inStagedList ==>
        selection[tab].unstaged == old(selection[tab].unstaged) + [path] && selection[tab].staged == old(selection[tab].staged)
      ensures AllDistinct(selection) ==> forall t :: 0 <= t < |selection| && t != tab ==>
        selection[t].unstaged == old(selection[t].unstaged) && selection[t].staged == old(selection[t].staged)
    {
      var pair := selection[tab];
      if inStagedList {
        pair.staged := pair.staged + [path];
      } else {
        pair.unstaged := pair.unstaged + [path];
      }
    }

    /**
     The ">>" button: when the lists are enabled, the tab's module stages the
     paths selected in its unstaged list, the tab's slot holds that command
     and the selection is cleared. With one pair shared by all tabs, every
     tab's unstaged selection is then empty; with a pair per tab, the other
     tabs keep theirs.
     */
    method ClickStage(repoPathKnown: bool, statusKnown: bool, joinFileNames: seq<string> -> string)
      requires Valid()
      modifies this`issued, tasks, selection[tab]
      ensures Valid()
      ensures old(ListsEnabled(repoPathKnown, statusKnown)) ==>
        && tasks[..] == old(tasks[..])[tab := Some(GitTask(StageCommand(old(selection[tab].unstaged), joinFileNames), false))]
        && issued == old(issued) + [(tab, StageCommand(old(selection[tab].unstaged), joinFileNames))]
        && selection[tab].unstaged == [] && selection[tab].staged == old(selection[tab].staged)
      ensures !old(ListsEnabled(repoPathKnown, statusKnown)) ==>
        tasks[..] == old(tasks[..]) && issued == old(issued) && unchanged(selection[tab])
      ensures AllShared(selection) ==> forall t :: 0 <= t < |selection| ==> selection[t].unstaged == selection[tab].unstaged
      ensures AllDistinct(selection) ==> forall t :: 0 <= t < |selection| && t != tab ==>
        selection[t].unstaged == old(selection[t].unstaged) && selection[t].staged == old(selection[t].staged)
    {
      if ListsEnabled(repoPathKnown, statusKnown) {
        var pair := selection[tab];
        var command := StageCommand(pair.unstaged, joinFileNames);
        tasks[tab] := Some(GitTask(command, false));
        issued := issued + [(tab, command)];
        pair.unstaged := [];
      }
    }

    /** The "<<" button: as ">>", for the staged list and `reset`. */
    method ClickUnstage(repoPathKnown: bool, statusKnown: bool, joinFileNames: seq<string> -> string)
      requires Valid()
      modifies this`issued, tasks, selection[tab]
      ensures Valid()
      ensures old(ListsEnabled(repoPathKnown, statusKnown)) ==>
        && tasks[..] == old(tasks[..])[tab := Some(GitTask(UnstageCommand(old(selection[tab].staged), joinFileNames), false))]
        && issued == old(issued) + [(tab, UnstageCommand(old(selection[tab].staged), joinFileNames))]
        && selection[tab].staged == [] && selection[tab].unstaged == old(selection[tab].unstaged)
      ensures !old(ListsEnabled(repoPathKnown, statusKnown)) ==>
        tasks[..] == old(tasks[..]) && issued == old(issued) && unchanged(selection[tab])
      ensures AllShared(selection) ==> forall t :: 0 <= t < |selection| ==> selection[t].staged == selection[tab].staged
      ensures AllDistinct(selection) ==> forall t :: 0 <= t < |selection| && t != tab ==>
        selection[t].unstaged == old(selection[t].unstaged) && selection[t].staged == old(selection[t].staged)
    {
      if ListsEnabled(repoPathKnown, statusKnown) {
        var pair := selection[tab];
        var command := UnstageCommand(pair.staged, joinFileNames);
        tasks[tab] := Some(GitTask(command, false));
        issued := issued + [(tab, command)];
        pair.staged := [];
      }
    }

    /**
     The "More" button: it sits with ">>" and "<<" among the enabled lists,
     and opens the menu of the files selected in the tab; there is no menu
     while the lists are disabled or when no file is selected.
     */
    function MoreMenu(repoPathKnown: bool, status: GitStatus, joinFileNames: seq<string> -> string): (menu: Option<seq<FileMenuItem>>)
      reads this, tasks, selection
      requires Valid()
      ensures menu.None? <==>
        !ListsEnabled(repoPathKnown, true) || SelectedFiles(status, selection[tab].unstaged, selection[tab].staged) == []
      ensures menu.Some? ==> |menu.value| >= 1 && menu.value[|menu.value| - 1].caption == "Delete"
    {
      if ListsEnabled(repoPathKnown, true) then
        FileMenu(SelectedFiles(status, selection[tab].unstaged, selection[tab].staged), joinFileNames)
      else None
    }

    /**
     Every path the "More" menu of the current tab can delete is a file of
     the module's status that is selected in one of the tab's lists.
     */
    lemma MoreMenuActsOnSelection(repoPathKnown: bool, status: GitStatus, joinFileNames: seq<string> -> string, k: nat, p: nat)
      requires Valid()
      requires MoreMenu(repoPathKnown, status, joinFileNames).Some?
      requires k < |MoreMenu(repoPathKnown, status, joinFileNames).value|
      requires MoreMenu(repoPathKnown, status, joinFileNames).value[k].action.DeleteFiles?
      requires p < |MoreMenu(repoPathKnown, status, joinFileNames).value[k].action.paths|
      ensures MoreMenu(repoPathKnown, status, joinFileNames).value[k].action.paths[p]
        in selection[tab].unstaged + selection[tab].staged
      ensures exists i :: (0 <= i < |status.files| &&
        status.files[i].fullPath == MoreMenu(repoPathKnown, status, joinFileNames).value[k].action.paths[p])
    {
      FileMenuActsOnSelection(status, selection[tab].unstaged, selection[tab].staged, joinFileNames, k, p);
    }

    /** A module's command finishes. */
    method CompleteTask(i: nat)
      requires Valid() && i < moduleCount && tasks[i].Some?
      modifies tasks
      ensures tasks[..] == old(tasks[..])[i := Some(old(tasks[i].value).(completed := true))]
      ensures !IsRunning(tasks[i])
    {
      tasks[i] := Some(tasks[i].value.(completed := true));
    }
  }

  // ---------------------------------------------------------------------------
  // The selection layout
  // ---------------------------------------------------------------------------

  /**
   With the selection laid out as `Enumerable.Repeat` builds it, a path
   selected in the first module's tab is staged in the second module after
   switching tabs.
   */
  method SharedSelectionCrossesModules(path: string, joinFileNames: seq<string> -> string) returns (run: (nat, string))
    ensures run == (1, StageCommand([path], joinFileNames))
  {
    var window := new StagingWindow(2, SharedLists);
    window.SelectPath(false, path);
    assert window.selection[0].unstaged == [path];
    window.SelectTab(1);
    assert window.tab == 1;
    assert window.selection[1].unstaged == [path];
    assert window.ListsEnabled(true, true);
    window.ClickStage(true, true, joinFileNames);
    run := window.issued[|window.issued| - 1];
  }

  /**
   With a selection pair per tab, the same steps stage nothing of the first
   module in the second: the second tab's selection is still empty.
   */
  method PerTabSelectionStaysInModule(path: string, joinFileNames: seq<string> -> string) returns (run: (nat, string))
    ensures run == (1, StageCommand([], joinFileNames))
  {
    var window := new StagingWindow(2, ListsPerTab);
    window.SelectPath(false, path);
    window.SelectTab(1);
    window.ClickStage(true, true, joinFileNames);
    run := window.issued[|window.issued| - 1];
  }
}
