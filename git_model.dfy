/**
 The parts of the git module objects that the staging and commit windows
 read: a file's porcelain status codes, the status of a working tree, and a
 slot holding the git command a window started last.
 */
module GitModel {
  import opened Extensions

  /**
   One line of `git status --porcelain`: `x` is the index (staged) code and
   `y` the worktree code; `isInIndex` is reported by the module as is.
   */
  datatype FileStatus = FileStatus(fullPath: string, x: char, y: char, isInIndex: bool)

  datatype GitStatus = GitStatus(files: seq<FileStatus>)

  /** A file has staged changes when its index code is neither ' ' nor '?'. */
  predicate IsStaged(f: FileStatus) {
    f.x != ' ' && f.x != '?'
  }

  /** A file has unstaged changes when its worktree code is not ' '. */
  predicate IsUnstaged(f: FileStatus) {
    f.y != ' '
  }

  /** The staged list: the files with an index code other than ' ' and '?'. */
  function Staged(files: seq<FileStatus>): (r: seq<FileStatus>)
    ensures forall i :: 0 <= i < |r| ==> r[i] in files && r[i].x != ' ' && r[i].x != '?'
    ensures forall i :: 0 <= i < |files| && files[i].x != ' ' && files[i].x != '?' ==> files[i] in r
  {
    Filter(IsStaged, files)
  }

  /** The unstaged list: the files with a worktree code other than ' '. */
  function Unstaged(files: seq<FileStatus>): (r: seq<FileStatus>)
    ensures forall i :: 0 <= i < |r| ==> r[i] in files && r[i].y != ' '
    ensures forall i :: 0 <= i < |files| && files[i].y != ' ' ==> files[i] in r
  {
    Filter(IsUnstaged, files)
  }

  /** The paths of the staged files, in status order. */
  function StagedPaths(files: seq<FileStatus>): (paths: seq<string>)
    ensures |paths| <= |files|
  {
    if files == [] then []
    else (if IsStaged(files[0]) then [files[0].fullPath] else []) + StagedPaths(files[1..])
  }

  /** The staged paths are the paths of the staged list, one for one and in order. */
  lemma {:induction false} StagedPathsOfStagedList(files: seq<FileStatus>)
    ensures |StagedPaths(files)| == |Staged(files)|
    ensures forall i :: 0 <= i < |StagedPaths(files)| ==> StagedPaths(files)[i] == Staged(files)[i].fullPath
  {
    if files != [] {
      StagedPathsOfStagedList(files[1..]);
      assert Staged(files) == (if IsStaged(files[0]) then [files[0]] else []) + Staged(files[1..]);
    }
  }

  /** In any status, an untracked file ("??") is listed as unstaged and never as staged. */
  lemma UntrackedIsUnstagedOnly(files: seq<FileStatus>)
    ensures forall i :: 0 <= i < |files| && files[i].x == '?' && files[i].y == '?' ==>
      files[i] in Unstaged(files) && files[i] !in Staged(files)
  {
  }

  /**
   In any status, an index code 'M' puts a file in the staged list, a
   worktree code 'M' in the unstaged list, and a blank code keeps it out of
   that list: "M " is staged only, " M" unstaged only, "MM" in both.
   */
  lemma ModifiedCodes(files: seq<FileStatus>)
    ensures forall i :: 0 <= i < |files| && files[i].x == 'M' ==> files[i] in Staged(files)
    ensures forall i :: 0 <= i < |files| && files[i].y == 'M' ==> files[i] in Unstaged(files)
    ensures forall i :: 0 <= i < |files| && files[i].x == ' ' ==> files[i] !in Staged(files)
    ensures forall i :: 0 <= i < |files| && files[i].y == ' ' ==> files[i] !in Unstaged(files)
  {
  }

  /** A git command started by a window, and whether it has completed. */
  datatype GitTask = GitTask(command: string, completed: bool)

  /** A slot of a window's task array: null until a command is started. */
  type TaskSlot = Option<GitTask>

  predicate IsRunning(slot: TaskSlot) {
    slot.Some? && !slot.value.completed
  }

  predicate AnyRunning(slots: seq<TaskSlot>) {
    exists i :: 0 <= i < |slots| && IsRunning(slots[i])
  }

  /** One (module index, command) pair per module, in module order. */
  function ForEachModule(count: nat, command: string): (runs: seq<(nat, string)>)
    ensures |runs| == count
    ensures forall i :: 0 <= i < count ==> runs[i] == (i, command)
  {
    seq(count, i requires 0 <= i < count => (i, command))
  }

  lemma ForEachModuleNext(count: nat, command: string)
    ensures ForEachModule(count + 1, command) == ForEachModule(count, command) + [(count, command)]
  {
  }

  /**
   The pair of path lists a tab's two file lists select into (a tuple of
   two lists in the windows).
   */
  class Selection {
    var unstaged: seq<string>
    var staged: seq<string>

    constructor ()
      ensures unstaged == [] && staged == []
    {
      unstaged := [];
      staged := [];
    }
  }

  /**
   How the per-tab selections are laid out: `SharedLists` is what
   `Enumerable.Repeat` of one tuple builds (every tab refers to the same two
   lists); `ListsPerTab` gives each tab lists of its own.
   */
  datatype SelectionLayout = SharedLists | ListsPerTab

  ghost predicate AllShared(s: seq<Selection>) {
    forall t :: 0 <= t < |s| ==> s[t] == s[0]
  }

  ghost predicate AllDistinct(s: seq<Selection>) {
    forall t, u :: 0 <= t < u < |s| ==> s[t] != s[u]
  }

  /** The selections of a new window: empty, fresh, laid out as `layout` says. */
  method NewSelections(count: nat, layout: SelectionLayout) returns (s: seq<Selection>)
    ensures |s| == count
    ensures forall t :: 0 <= t < count ==> fresh(s[t]) && s[t].unstaged == [] && s[t].staged == []
    ensures layout == SharedLists ==> AllShared(s)
    ensures layout == ListsPerTab ==> AllDistinct(s)
  {
    if layout == SharedLists {
      var pair := new Selection();
      s := seq(count, _ => pair);
    } else {
      s := [];
      while |s| < count
        invariant |s| <= count
        invariant forall t :: 0 <= t < |s| ==> fresh(s[t]) && s[t].unstaged == [] && s[t].staged == []
        invariant AllDistinct(s)
      {
        var pair := new Selection();
        s := s + [pair];
      }
    }
  }

  /** `char.IsWhiteSpace`: the Unicode white-space characters. */
  predicate IsWhiteSpace(c: char) {
    ('\t' <= c <= '\r') || c == ' ' || c == '\U{0085}' || c == '\U{00A0}' || c == '\U{1680}'
    || ('\U{2000}' <= c <= '\U{200A}') || c == '\U{2028}' || c == '\U{2029}' || c == '\U{202F}'
    || c == '\U{205F}' || c == '\U{3000}'
  }

  /** `string.IsNullOrWhiteSpace` for a string that is never null. */
  predicate IsBlank(s: string) {
    forall i :: 0 <= i < |s| ==> IsWhiteSpace(s[i])
  }
}
