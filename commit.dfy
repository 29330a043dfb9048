/**
 The commit window: one message for every git module of the project, a
 button that commits all of them and closes the window, and per module tab
 an unstaged and a staged list with buttons that stage or unstage the
 selected paths, passed to git separated by single spaces.
 */
module Commit {
  import opened Extensions
  import opened GitModel
  import GitStaging

  /**
   The tab label of a module: a name of more than 20 characters is shown as
   its first character, "..", and its last 17 characters.
   */
  function TabLabel(name: string): (shown: string)
    ensures |shown| <= 20
    ensures |name| <= 20 ==> shown == name
    ensures |name| > 20 ==> |shown| == 20
    ensures |name| > 20 ==> shown[0] == name[0] && shown[1..3] == ".."
    ensures |name| > 20 ==> shown[3..] == name[|name| - 17..]
  {
    if |name| > 20 then [name[0]] + ".." + name[|name| - 17..] else name
  }

  /**
   Two long names get the same label exactly when they share their first
   character and their last 17 characters.
   */
  lemma TabLabelsCollide(a: string, b: string)
    requires |a| > 20 && |b| > 20
    ensures TabLabel(a) == TabLabel(b) <==> a[0] == b[0] && a[|a| - 17..] == b[|b| - 17..]
  {
    if a[0] == b[0] && a[|a| - 17..] == b[|b| - 17..] {
      assert TabLabel(a) == [a[0]] + ".." + a[|a| - 17..];
    }
  }

  /** The commit command: the message in quotes, the same command the staging window intends. */
  function CommitCommand(message: string): (command: string)
    ensures command == GitStaging.CommitCommand(message)
  {
    "commit -m \"" + message + "\""
  }

  /** The selected paths as they follow `--`: separated by single spaces. */
  function PathArguments(paths: seq<string>): (arguments: string)
    ensures paths == [] ==> arguments == ""
    ensures |paths| == 1 ==> arguments == paths[0]
  {
    JoinChar(paths, ' ')
  }

  /** `add -f -- <paths>`. */
  function StageCommand(paths: seq<string>): string {
    "add -f -- " + PathArguments(paths)
  }

  /** `reset -q -- <paths>`. */
  function UnstageCommand(paths: seq<string>): string {
    "reset -q -- " + PathArguments(paths)
  }

  /**
   Read back as space-separated arguments, the paths after `--` are the
   selected paths, one argument each, when no path holds a space.
   */
  lemma SelectionSurvivesJoin(paths: seq<string>)
    requires |paths| >= 1
    requires forall i :: 0 <= i < |paths| ==> Count(paths[i], {' '}) == 0
    ensures SplitOn(PathArguments(paths), {' '}) == paths
  {
    SplitOnJoin(paths, ' ');
  }

  /** A selected path with a space in it reaches git as two arguments. */
  lemma PathWithSpaceIsSplit(a: string, b: string)
    requires Count(a, {' '}) == 0 && Count(b, {' '}) == 0
    ensures SplitOn(PathArguments([a + " " + b]), {' '}) == [a, b]
  {
    SplitOnAfterField(a, ' ', b, {' '});
    SplitOnNoSeparator(b, {' '});
  }

  class CommitWindow {
    /** The number of git modules; each has a tab. */
    const moduleCount: nat
    var commitMessage: string
    /** The git command each module ran last from this window, if any. */
    var tasks: array<TaskSlot>
    var tab: nat
    /** The selection pair each tab reads and clears. */
    var selection: seq<Selection>
    /** The commands handed to the modules, in order: (module index, command). */
    var issued: seq<(nat, string)>
    var closed: bool

    ghost predicate Valid()
      reads this
    {
      moduleCount >= 1 && tasks.Length == moduleCount && |selection| == moduleCount && tab < moduleCount
    }

    /** Opens the window on the project's git modules (the menu entry needs at least one). */
    constructor (moduleCount: nat, layout: SelectionLayout)
      requires moduleCount >= 1
      ensures this.moduleCount == moduleCount
      ensures Valid() && fresh(tasks)
      ensures commitMessage == "" && tab == 0 && issued == [] && !closed
      ensures forall i :: 0 <= i < moduleCount ==> tasks[i].None?
      ensures forall t :: 0 <= t < moduleCount ==> fresh(selection[t]) && selection[t].unstaged == [] && selection[t].staged == []
      ensures layout == SharedLists ==> AllShared(selection)
      ensures layout == ListsPerTab ==> AllDistinct(selection)
    {
      var pairs := NewSelections(moduleCount, layout);
      this.moduleCount := moduleCount;
      commitMessage := "";
      tasks := new TaskSlot[moduleCount](_ => None);
      tab := 0;
      issued := [];
      selection := pairs;
      closed := false;
    }

    /** The commit button is enabled while no command started here is running. */
    predicate CommitEnabled()
      reads this, tasks
    {
      !AnyRunning(tasks[..])
    }

    /** The file lists are shown with the repository path and status known, and usable while the tab's command is not running. */
    predicate ListsEnabled(repoPathKnown: bool, statusKnown: bool)
      reads this, tasks
      requires Valid()
    {
      repoPathKnown && statusKnown && !IsRunning(tasks[tab])
    }

    /** The commit message as typed into the text area. */
    method EditMessage(message: string)
      requires !closed
      modifies this`commitMessage
      ensures commitMessage == message
    {
      commitMessage := message;
    }

    /**
     The commit button: when enabled, every module commits with the message
     (there is no check for a blank message or for staged files), each task
     slot holds its command and the window closes; the message is kept.
     */
    method ClickCommit()
      requires Valid() && !closed
      modifies this
      ensures Valid() && selection == old(selection) && tab == old(tab) && commitMessage == old(commitMessage)
      ensures old(CommitEnabled()) ==>
        && fresh(tasks)
        && (forall i :: 0 <= i < moduleCount ==> tasks[i] == Some(GitTask(CommitCommand(commitMessage), false)))
        && issued == old(issued) + ForEachModule(moduleCount, CommitCommand(commitMessage))
        && closed
      ensures !old(CommitEnabled()) ==> tasks == old(tasks) && issued == old(issued) && closed == old(closed)
    {
      if CommitEnabled() {
        var command := CommitCommand(commitMessage);
        var started := new TaskSlot[moduleCount](_ => None);
        var i := 0;
        while i < moduleCount
          invariant 0 <= i <= moduleCount
          invariant forall j :: 0 <= j < i ==> started[j] == Some(GitTask(command, false))
          invariant issued == old(issued) + ForEachModule(i, command)
          invariant Valid() && selection == old(selection) && tab == old(tab) && commitMessage == old(commitMessage)
        {
          started[i] := Some(GitTask(command, false));
          ForEachModuleNext(i, command);
          issued := issued + [(i, command)];
          i := i + 1;
        }
        tasks := started;
        closed := true;
      }
    }

    /** The module toolbar: shown only for more than one module, otherwise the first tab. */
    method SelectTab(choice: nat)
      requires Valid() && !closed && choice < moduleCount
      modifies this`tab
      ensures Valid()
      ensures tab == if moduleCount > 1 then choice else 0
    {
      tab := if moduleCount > 1 then choice else 0;
    }

    /** A click on a path in one of the tab's lists adds it to that list's selection. */
    method SelectPath(inStagedList: bool, path: string)
      requires Valid() && !closed
      modifies selection[tab]
      ensures inStagedList ==>
        selection[tab].staged == old(selection[tab].staged) + [path] && selection[tab].unstaged == old(selection[tab].unstaged)
      ensures !inStagedList ==>
        selection[tab].unstaged == old(selection[tab].unstaged) + [path] && selection[tab].staged == old(selection[tab].staged)
      ensures AllDistinct(selection) ==> forall t :: 0 <= t < |selection| && t != tab ==>
        selection[t].unstaged == old(selection[t].unstaged) && selection[t].staged == old(selection[t].staged)
    {
      var pair := selection[tab];
      if inStagedList {
        pair.staged := pair.staged + [path];
      } else {
        pair.unstaged := pair.unstaged + [path];
      }
    }

    /**
     The ">>" button: when the lists are enabled, the tab's module stages the
     paths selected in its unstaged list and the selection is cleared.
     */
    method ClickStage(repoPathKnown: bool, statusKnown: bool)
      requires Valid() && !closed
      modifies this`issued, tasks, selection[tab]
      ensures Valid()
      ensures old(ListsEnabled(repoPathKnown, statusKnown)) ==>
        && tasks[..] == old(tasks[..])[tab := Some(GitTask(StageCommand(old(selection[tab].unstaged)), false))]
        && issued == old(issued) + [(tab, StageCommand(old(selection[tab].unstaged)))]
        && selection[tab].unstaged == [] && selection[tab].staged == old(selection[tab].staged)
      ensures !old(ListsEnabled(repoPathKnown, statusKnown)) ==>
        tasks[..] == old(tasks[..]) && issued == old(issued) && unchanged(selection[tab])
      ensures AllShared(selection) ==> forall t :: 0 <= t < |selection| ==> selection[t].unstaged == selection[tab].unstaged
      ensures AllDistinct(selection) ==> forall t :: 0 <= t < |selection| && t != tab ==>
        selection[t].unstaged == old(selection[t].unstaged) && selection[t].staged == old(selection[t].staged)
    {
      if ListsEnabled(repoPathKnown, statusKnown) {
        var pair := selection[tab];
        var command := StageCommand(pair.unstaged);
        tasks[tab] := Some(GitTask(command, false));
        issued := issued + [(tab, command)];
        pair.unstaged := [];
      }
    }

    /** The "<<" button: as ">>", for the staged list and `reset`. */
    method ClickUnstage(repoPathKnown: bool, statusKnown: bool)
      requires Valid() && !closed
      modifies this`issued, tasks, selection[tab]
      ensures Valid()
      ensures old(ListsEnabled(repoPathKnown, statusKnown)) ==>
        && tasks[..] == old(tasks[..])[tab := Some(GitTask(UnstageCommand(old(selection[tab].staged)), false))]
        && issued == old(issued) + [(tab, UnstageCommand(old(selection[tab].staged)))]
        && selection[tab].staged == [] && selection[tab].unstaged == old(selection[tab].unstaged)
      ensures !old(ListsEnabled(repoPathKnown, statusKnown)) ==>
        tasks[..] == old(tasks[..]) && issued == old(issued) && unchanged(selection[tab])
      ensures AllShared(selection) ==> forall t :: 0 <= t < |selection| ==> selection[t].staged == selection[tab].staged
      ensures AllDistinct(selection) ==> forall t :: 0 <= t < |selection| && t != tab ==>
        selection[t].unstaged == old(selection[t].unstaged) && selection[t].staged == old(selection[t].staged)
    {
      if ListsEnabled(repoPathKnown, statusKnown) {
        var pair := selection[tab];
        var command := UnstageCommand(pair.staged);
        tasks[tab] := Some(GitTask(command, false));
        issued := issued + [(tab, command)];
        pair.staged := [];
      }
    }

    /** A module's command finishes. */
    method CompleteTask(i: nat)
      requires Valid() && i < moduleCount && tasks[i].Some?
      modifies tasks
      ensures tasks[..] == old(tasks[..])[i := Some(old(tasks[i].value).(completed := true))]
      ensures !IsRunning(tasks[i])
    {
      tasks[i] := Some(tasks[i].value.(completed := true));
    }
  }

  /**
   With the selection laid out as `Enumerable.Repeat` builds it, a path
   selected in the first module's tab is staged in the second module after
   switching tabs.
   */
  method SharedSelectionCrossesModules(path: string) returns (run: (nat, string))
    ensures run == (1, "add -f -- " + path)
  {
    var window := new CommitWindow(2, SharedLists);
    window.SelectPath(false, path);
    assert window.selection[0].unstaged == [path];
    window.SelectTab(1);
    assert window.tab == 1;
    assert window.selection[1].unstaged == [path];
    assert window.ListsEnabled(true, true);
    window.ClickStage(true, true);
    run := window.issued[|window.issued| - 1];
  }

  /**
   With a selection pair per tab, the same steps stage nothing of the first
   module in the second: the second tab's selection is still empty.
   */
  method PerTabSelectionStaysInModule(path: string) returns (run: (nat, string))
    ensures run == (1, "add -f -- ")
  {
    var window := new CommitWindow(2, ListsPerTab);
    window.SelectPath(false, path);
    window.SelectTab(1);
    assert window.selection[1].unstaged == [];
    assert window.ListsEnabled(true, true);
    window.ClickStage(true, true);
    run := window.issued[|window.issued| - 1];
    assert StageCommand([]) == "add -f -- " + "" == "add -f -- ";
  }
}
