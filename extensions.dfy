/**
 The helper library every window of the git front end relies on: string
 helpers, a dictionary get-or-insert, and the "report each failed task once"
 rule applied whenever a window polls an asynchronous git query.
 */
module Extensions {

  /** A reference that may be null in the source. */
  datatype Option<T> = None | Some(value: T)

  // ---------------------------------------------------------------------------
  // Sequences and strings
  // ---------------------------------------------------------------------------

  /** `Where`: the elements of `s` that satisfy `p`, in their original order. */
  function Filter<T>(p: T -> bool, s: seq<T>): (r: seq<T>)
    ensures |r| <= |s|
    ensures forall x :: x in r ==> x in s && p(x)
    ensures forall x :: x in s && p(x) ==> x in r
    ensures multiset(r) <= multiset(s)
  {
    if s == [] then []
    else
      assert s == [s[0]] + s[1..];
      (if p(s[0]) then [s[0]] else []) + Filter(p, s[1..])
  }

  /** `Where` keeps the order: filtering a concatenation filters each part in turn. */
  lemma {:induction false} FilterAppend<T>(p: T -> bool, a: seq<T>, b: seq<T>)
    ensures Filter(p, a + b) == Filter(p, a) + Filter(p, b)
  {
    if a == [] {
      assert a + b == b;
    } else {
      assert (a + b)[0] == a[0] && (a + b)[1..] == a[1..] + b;
      FilterAppend(p, a[1..], b);
    }
  }

  /**
   `Where` keeps every occurrence of a kept element and drops every other
   one; on a single element it keeps it exactly when the predicate holds.
   */
  lemma {:induction false} FilterCount<T>(p: T -> bool, s: seq<T>, x: T)
    ensures multiset(Filter(p, s))[x] == if p(x) then multiset(s)[x] else 0
    ensures Filter(p, [x]) == if p(x) then [x] else []
  {
    if s != [] {
      assert s == [s[0]] + s[1..];
      FilterCount(p, s[1..], x);
    }
  }

  /** Number of characters of `s` that belong to `cs`. */
  function Count(s: string, cs: set<char>): (n: nat)
    ensures n <= |s|
    ensures n == 0 <==> forall i :: 0 <= i < |s| ==> s[i] !in cs
  {
    if s == [] then 0
    else (if s[0] in cs then 1 else 0) + Count(s[1..], cs)
  }

  lemma {:induction false} CountAppend(a: string, b: string, cs: set<char>)
    ensures Count(a + b, cs) == Count(a, cs) + Count(b, cs)
  {
    if a == [] {
      assert a + b == b;
    } else {
      assert (a + b)[1..] == a[1..] + b;
      CountAppend(a[1..], b, cs);
    }
  }

  /** `string.Join(separator, values)`. */
  function Join(values: seq<string>, separator: string): (r: string)
    ensures values == [] ==> r == []
    ensures |values| == 1 ==> r == values[0]
  {
    if values == [] then ""
    else if |values| == 1 then values[0]
    else values[0] + separator + Join(values[1..], separator)
  }

  /** `Join(values)`: the values concatenated with no separator. */
  function Concat(values: seq<string>): (r: string)
    ensures |values| == 1 ==> r == values[0]
  {
    Join(values, "")
  }

  /** Concatenation takes the first value, then the rest. */
  lemma ConcatCons(values: seq<string>)
    requires |values| >= 1
    ensures Concat(values) == values[0] + Concat(values[1..])
  {
    if |values| == 1 {
      assert values[0] + Concat(values[1..]) == values[0] + "";
    } else {
      assert values[0] + "" == values[0];
    }
  }

  /** `Join(values, char separator)`. */
  function JoinChar(values: seq<string>, separator: char): (r: string)
    ensures |values| == 1 ==> r == values[0]
  {
    Join(values, [separator])
  }

  /** Joining a list of strings of which one is non-empty never yields "". */
  lemma {:induction false} JoinNonEmpty(values: seq<string>, separator: string, k: nat)
    requires k < |values| && values[k] != ""
    ensures Join(values, separator) != ""
    ensures |Join(values, separator)| >= |values[k]|
  {
    if |values| > 1 {
      if k == 0 {
      } else {
        JoinNonEmpty(values[1..], separator, k - 1);
      }
    }
  }

  /** Length of a join: every value plus one separator between neighbours. */
  lemma {:induction false} JoinLength(values: seq<string>, separator: string, total: nat)
    requires |values| >= 1
    requires total == SumLengths(values)
    ensures |Join(values, separator)| == total + (|values| - 1) * |separator|
  {
    if |values| > 1 {
      JoinLength(values[1..], separator, SumLengths(values[1..]));
    }
  }

  function SumLengths(values: seq<string>): nat {
    if values == [] then 0 else |values[0]| + SumLengths(values[1..])
  }

  // ---------------------------------------------------------------------------
  // WrapUp
  // ---------------------------------------------------------------------------

  /**
   `self.WrapUp(wrapLeft, wrapRight)` as written. C# reads
   `wrapLeft + self + wrapRight ?? wrapLeft` as
   `(wrapLeft + self + wrapRight) ?? wrapLeft`; a concatenation treats a null
   operand as empty and is never null, so the fallback never applies and a
   missing right wrap is simply dropped. `None` stands for null.
   */
  function WrapUp(self: string, wrapLeft: string, wrapRight: Option<string>): (r: string)
    ensures |r| >= |wrapLeft| + |self|
    ensures r[..|wrapLeft|] == wrapLeft
    ensures r[|wrapLeft|..|wrapLeft| + |self|] == self
    ensures wrapRight.None? ==> |r| == |wrapLeft| + |self|
    ensures wrapRight.Some? ==> r[|wrapLeft| + |self|..] == wrapRight.value
  {
    var concatenated := wrapLeft + self + (match wrapRight case Some(w) => w case None => "");
    concatenated
  }

  /** `WrapUp` as evidently intended: a missing right wrap repeats the left one. */
  function WrapUpIntended(self: string, wrapLeft: string, wrapRight: Option<string>): (r: string)
    ensures |r| >= |wrapLeft| + |self|
    ensures r[..|wrapLeft|] == wrapLeft
    ensures r[|wrapLeft|..|wrapLeft| + |self|] == self
    ensures r[|wrapLeft| + |self|..] == (match wrapRight case Some(w) => w case None => wrapLeft)
  {
    wrapLeft + self + (match wrapRight case Some(w) => w case None => wrapLeft)
  }

  /** With both wraps given, the two definitions agree. */
  lemma WrapUpAgreesWhenRightGiven(self: string, wrapLeft: string, wrapRight: string)
    ensures WrapUp(self, wrapLeft, Some(wrapRight)) == WrapUpIntended(self, wrapLeft, Some(wrapRight))
    ensures WrapUp(self, wrapLeft, Some(wrapRight)) == wrapLeft + self + wrapRight
  {
  }

  /**
   The default call `s.WrapUp()` opens a quote it never closes: for a text
   without quotes the result holds exactly one quote character.
   */
  lemma WrapUpDefaultLeavesQuoteOpen(s: string)
    requires Count(s, {'"'}) == 0
    ensures WrapUp(s, "\"", None) == "\"" + s
    ensures Count(WrapUp(s, "\"", None), {'"'}) == 1
  {
    CountAppend("\"", s, {'"'});
  }

  /** The intended default call quotes on both sides: two quote characters. */
  lemma WrapUpIntendedDefaultQuotes(s: string)
    requires Count(s, {'"'}) == 0
    ensures WrapUpIntended(s, "\"", None) == "\"" + s + "\""
    ensures Count(WrapUpIntended(s, "\"", None), {'"'}) == 2
  {
    CountAppend("\"", s, {'"'});
    CountAppend("\"" + s, "\"", {'"'});
  }

  // ---------------------------------------------------------------------------
  // Splitting
  // ---------------------------------------------------------------------------

  /**
   `string.Split(separators)` without options: the fields between separator
   characters, empty fields included (so there is always at least one).
   */
  function SplitOn(s: string, separators: set<char>): (fields: seq<string>)
    ensures |fields| == Count(s, separators) + 1
    ensures forall i :: 0 <= i < |fields| ==> Count(fields[i], separators) == 0
    decreases |s|
  {
    if s == [] then [""]
    else
      var rest := SplitOn(s[1..], separators);
      if s[0] in separators then [""] + rest
      else
        assert Count([s[0]] + rest[0], separators) == 0 by {
          CountAppend([s[0]], rest[0], separators);
        }
        [[s[0]] + rest[0]] + rest[1..]
  }

  /** The characters of `s` outside `separators`, in order. */
  function Strip(s: string, separators: set<char>): (r: string)
    ensures Count(r, separators) == 0
  {
    if s == [] then ""
    else if s[0] in separators then Strip(s[1..], separators)
    else [s[0]] + Strip(s[1..], separators)
  }

  /** Gluing the fields back together loses exactly the separators. */
  lemma {:induction false} ConcatSplitOn(s: string, separators: set<char>)
    ensures Concat(SplitOn(s, separators)) == Strip(s, separators)
  {
    if s != [] {
      var rest := SplitOn(s[1..], separators);
      ConcatSplitOn(s[1..], separators);
      var fields := SplitOn(s, separators);
      if s[0] in separators {
        assert fields == [""] + rest;
        ConcatCons(fields);
        assert fields[1..] == rest;
      } else {
        assert fields == [[s[0]] + rest[0]] + rest[1..];
        ConcatCons(fields);
        ConcatCons(rest);
        assert fields[1..] == rest[1..];
      }
    }
  }

  /** A string with no separator is a single field. */
  lemma {:induction false} SplitOnNoSeparator(s: string, separators: set<char>)
    requires Count(s, separators) == 0
    ensures SplitOn(s, separators) == [s]
  {
    if s != [] {
      assert s[0] !in separators;
      SplitOnNoSeparator(s[1..], separators);
      assert [s[0]] + s[1..] == s;
    }
  }

  /** Splitting `a + [c] + b` at a separator `c` that `a` does not contain. */
  lemma {:induction false} SplitOnAfterField(a: string, c: char, b: string, separators: set<char>)
    requires c in separators && Count(a, separators) == 0
    ensures SplitOn(a + [c] + b, separators) == [a] + SplitOn(b, separators)
  {
    if a == [] {
      assert a + [c] + b == [c] + b;
      assert ([c] + b)[1..] == b;
    } else {
      assert (a + [c] + b)[1..] == a[1..] + [c] + b;
      SplitOnAfterField(a[1..], c, b, separators);
      assert a == [a[0]] + a[1..];
    }
  }

  /** Splitting undoes joining with a separator none of the values contains. */
  lemma {:induction false} SplitOnJoin(values: seq<string>, c: char)
    requires |values| >= 1
    requires forall i :: 0 <= i < |values| ==> Count(values[i], {c}) == 0
    ensures SplitOn(Join(values, [c]), {c}) == values
  {
    if |values| == 1 {
      SplitOnNoSeparator(values[0], {c});
    } else {
      SplitOnJoin(values[1..], c);
      SplitOnAfterField(values[0], c, Join(values[1..], [c]), {c});
      assert values[0] + [c] + Join(values[1..], [c]) == Join(values, [c]);
    }
  }

  /** Joining the fields with the (single) separator rebuilds the string. */
  lemma {:induction false} JoinSplitOn(s: string, c: char)
    ensures Join(SplitOn(s, {c}), [c]) == s
  {
    if s != [] {
      var rest := SplitOn(s[1..], {c});
      JoinSplitOn(s[1..], c);
      var fields := SplitOn(s, {c});
      if s[0] == c {
        assert fields == [""] + rest;
        assert fields[1..] == rest && |fields| >= 2;
        assert Join(fields, [c]) == "" + [c] + Join(rest, [c]);
        assert s == [c] + s[1..];
      } else {
        assert fields == [[s[0]] + rest[0]] + rest[1..];
        if |rest| > 1 {
          assert Join(rest, [c]) == rest[0] + [c] + Join(rest[1..], [c]);
          assert fields[1..] == rest[1..];
          assert Join(fields, [c]) == ([s[0]] + rest[0]) + [c] + Join(rest[1..], [c]);
        }
        assert s == [s[0]] + s[1..];
      }
    }
  }

  /** `RemoveEmptyEntries`: drop the empty fields. */
  function RemoveEmpty(values: seq<string>): (r: seq<string>)
    ensures |r| <= |values|
  {
    if values == [] then []
    else (if values[0] != "" then [values[0]] else []) + RemoveEmpty(values[1..])
  }

  /** The fields kept are exactly the non-empty ones. */
  lemma {:induction false} RemoveEmptyMember(values: seq<string>, x: string)
    ensures x in RemoveEmpty(values) <==> x in values && x != ""
  {
    if values != [] {
      RemoveEmptyMember(values[1..], x);
      assert values == [values[0]] + values[1..];
    }
  }

  lemma {:induction false} ConcatRemoveEmpty(values: seq<string>)
    ensures Concat(RemoveEmpty(values)) == Concat(values)
  {
    if values != [] {
      ConcatRemoveEmpty(values[1..]);
      var tail := RemoveEmpty(values[1..]);
      var kept := RemoveEmpty(values);
      ConcatCons(values);
      if values[0] != "" {
        ConcatCons(kept);
        assert kept[1..] == tail;
      } else {
        assert kept == tail;
        assert values[0] + Concat(values[1..]) == Concat(values[1..]);
      }
    }
  }

  lemma {:induction false} RemoveEmptyKeepsNonEmpty(values: seq<string>)
    requires forall i :: 0 <= i < |values| ==> values[i] != ""
    ensures RemoveEmpty(values) == values
  {
    if values != [] {
      RemoveEmptyKeepsNonEmpty(values[1..]);
      assert values == [values[0]] + values[1..];
    }
  }

  const LineBreaks: set<char> := {'\n', '\r'}

  /** `SplitLines`: split on '\n' and '\r', dropping empty entries. */
  function SplitLines(s: string): (lines: seq<string>)
    ensures forall i :: 0 <= i < |lines| ==> lines[i] != "" && Count(lines[i], LineBreaks) == 0
  {
    var fields := SplitOn(s, LineBreaks);
    var lines := RemoveEmpty(fields);
    assert forall i :: 0 <= i < |lines| ==> lines[i] != "" && Count(lines[i], LineBreaks) == 0 by {
      forall i | 0 <= i < |lines| ensures lines[i] != "" && Count(lines[i], LineBreaks) == 0 {
        RemoveEmptyMember(fields, lines[i]);
        var j :| 0 <= j < |fields| && fields[j] == lines[i];
      }
    }
    lines
  }

  /** The lines concatenated give the input with every line break removed. */
  lemma SplitLinesConcat(s: string)
    ensures Concat(SplitLines(s)) == Strip(s, LineBreaks)
  {
    ConcatRemoveEmpty(SplitOn(s, LineBreaks));
    ConcatSplitOn(s, LineBreaks);
  }

  /** Non-empty lines joined with '\n' split back into the same lines. */
  lemma SplitLinesJoin(lines: seq<string>)
    requires |lines| >= 1
    requires forall i :: 0 <= i < |lines| ==> lines[i] != "" && Count(lines[i], LineBreaks) == 0
    ensures SplitLines(Join(lines, "\n")) == lines
  {
    forall i | 0 <= i < |lines| ensures Count(lines[i], {'\n'}) == 0 {
      CountSubset(lines[i], {'\n'}, LineBreaks);
    }
    SplitOnJoin(lines, '\n');
    SplitOnLineBreaksOfNewlineJoin(lines);
    RemoveEmptyKeepsNonEmpty(lines);
  }

  lemma {:induction false} CountSubset(s: string, small: set<char>, large: set<char>)
    requires small <= large
    ensures Count(s, small) <= Count(s, large)
  {
    if s != [] {
      CountSubset(s[1..], small, large);
    }
  }

  /** Without '\r' in the values, splitting on both breaks equals splitting on '\n'. */
  lemma SplitOnLineBreaksOfNewlineJoin(lines: seq<string>)
    requires |lines| >= 1
    requires forall i :: 0 <= i < |lines| ==> Count(lines[i], LineBreaks) == 0
    ensures SplitOn(Join(lines, "\n"), LineBreaks) == SplitOn(Join(lines, "\n"), {'\n'})
  {
    NoCarriageReturnInJoin(lines);
    SplitOnSameSeparators(Join(lines, "\n"), LineBreaks, {'\n'});
  }

  lemma {:induction false} NoCarriageReturnInJoin(lines: seq<string>)
    requires |lines| >= 1
    requires forall i :: 0 <= i < |lines| ==> Count(lines[i], LineBreaks) == 0
    ensures Count(Join(lines, "\n"), {'\r'}) == 0
  {
    CountSubset(lines[0], {'\r'}, LineBreaks);
    if |lines| > 1 {
      NoCarriageReturnInJoin(lines[1..]);
      CountAppend(lines[0], "\n", {'\r'});
      CountAppend(lines[0] + "\n", Join(lines[1..], "\n"), {'\r'});
    }
  }

  /** Separators that never occur make no difference to a split. */
  lemma {:induction false} SplitOnSameSeparators(s: string, large: set<char>, small: set<char>)
    requires small <= large
    requires Count(s, large - small) == 0
    ensures SplitOn(s, large) == SplitOn(s, small)
  {
    if s != [] {
      SplitOnSameSeparators(s[1..], large, small);
    }
  }

  // ---------------------------------------------------------------------------
  // AfterLast, NormalizeSlashes, When
  // ---------------------------------------------------------------------------

  /** `string.LastIndexOf(char)`: -1 when absent, else the last position. */
  function LastIndexOf(s: string, c: char): (i: int)
    ensures -1 <= i < |s|
    ensures i == -1 <==> c !in s
    ensures i >= 0 ==> s[i] == c && c !in s[i + 1..]
  {
    if s == [] then -1
    else if s[|s| - 1] == c then |s| - 1
    else
      var i := LastIndexOf(s[..|s| - 1], c);
      assert s == s[..|s| - 1] + [s[|s| - 1]];
      i
  }

  /** `AfterLast`: what follows the last separator, or all of `s` without one. */
  function AfterLast(s: string, separator: char): (r: string)
    ensures separator !in r
    ensures separator !in s ==> r == s
    ensures separator in s ==>
      |r| < |s| && s[|s| - |r| - 1] == separator && s == s[..|s| - |r|] + r
  {
    var index := LastIndexOf(s, separator);
    if index == -1 then s else s[index + 1..]
  }

  /** `NormalizeSlashes`: every backslash becomes a forward slash. */
  function NormalizeSlashes(s: string): (r: string)
    ensures |r| == |s|
    ensures '\\' !in r
    ensures forall i :: 0 <= i < |s| && s[i] == '\\' ==> r[i] == '/'
    ensures forall i :: 0 <= i < |s| && s[i] != '\\' ==> r[i] == s[i]
  {
    seq(|s|, i requires 0 <= i < |s| => if s[i] == '\\' then '/' else s[i])
  }

  lemma NormalizeSlashesIdempotent(s: string)
    ensures NormalizeSlashes(NormalizeSlashes(s)) == NormalizeSlashes(s)
  {
  }

  /** `Replace(old, new)` for single characters. */
  function ReplaceChar(s: string, from: char, to: char): (r: string)
    ensures |r| == |s|
    ensures forall i :: 0 <= i < |s| ==> r[i] == if s[i] == from then to else s[i]
  {
    seq(|s|, i requires 0 <= i < |s| => if s[i] == from then to else s[i])
  }

  /** `self.When(condition)`: `self` if the condition holds, null otherwise. */
  function When<T>(self: Option<T>, condition: bool): (r: Option<T>)
    ensures r.Some? ==> condition && r == self
    ensures condition ==> r == self
  {
    if condition then self else None
  }

  /** String interpolation prints a null string as nothing. */
  function Interpolate(s: Option<string>): string {
    match s
    case Some(v) => v
    case None => ""
  }

  // ---------------------------------------------------------------------------
  // GetOrCreate
  // ---------------------------------------------------------------------------

  /** A dictionary updated in place. */
  class Dictionary<K(==), V> {
    var entries: map<K, V>

    constructor ()
      ensures entries == map[]
    {
      entries := map[];
    }

    /** `GetOrCreate`: the stored value, or a new one stored under `key`. */
    method GetOrCreate(key: K, createNew: () -> V) returns (value: V)
      modifies this
      ensures key in entries && entries[key] == value
      ensures key in old(entries) ==> value == old(entries)[key] && entries == old(entries)
      ensures key !in old(entries) ==> value == createNew() && entries == old(entries)[key := value]
    {
      if key in entries {
        value := entries[key];
      } else {
        value := createNew();
        entries := entries[key := value];
      }
    }
  }

  // ---------------------------------------------------------------------------
  // GetResultOrDefault and the shown-exceptions list
  // ---------------------------------------------------------------------------

  /** Tasks are compared by identity; the id stands for the object reference. */
  type TaskId = nat

  /** What a poll can observe of a task. */
  datatype TaskStatus<T> = Pending | Succeeded(result: T) | Faulted(error: string) | Canceled

  datatype Task<T> = Task(id: TaskId, status: TaskStatus<T>)

  /** A poll either returns a value or throws the task's exception. */
  datatype Poll<T> = Returned(value: T) | Threw(error: string)

  /**
   One call of `GetResultOrDefault` against the list of tasks already shown:
   the outcome and the list afterwards.
   */
  function PollStep<T>(shown: seq<TaskId>, task: Task<T>, defaultValue: T): (r: (Poll<T>, seq<TaskId>))
    ensures r.0.Threw? <==> task.status.Faulted? && task.id !in shown
    ensures r.0.Threw? ==> r.0.error == task.status.error && r.1 == shown + [task.id]
    ensures r.0.Returned? ==> r.1 == shown
    ensures r.0.Returned? && task.status.Succeeded? ==> r.0.value == task.status.result
    ensures r.0.Returned? && !task.status.Succeeded? ==> r.0.value == defaultValue
  {
    match task.status
    case Succeeded(v) => (Returned(v), shown)
    case Faulted(e) =>
      if task.id !in shown then (Threw(e), shown + [task.id]) else (Returned(defaultValue), shown)
    case _ => (Returned(defaultValue), shown)
  }

  /** Polling a sequence of tasks, one call each, in order. */
  function PollAll<T>(shown: seq<TaskId>, tasks: seq<Task<T>>, defaultValue: T): (r: (seq<Poll<T>>, seq<TaskId>))
    ensures |r.0| == |tasks|
    decreases |tasks|
  {
    if tasks == [] then ([], shown)
    else
      var step := PollStep(shown, tasks[0], defaultValue);
      var rest := PollAll(step.1, tasks[1..], defaultValue);
      ([step.0] + rest.0, rest.1)
  }

  /** Once a task is in the shown list no later poll of it throws. */
  lemma {:induction false} PollAllNeverRethrows<T>(shown: seq<TaskId>, tasks: seq<Task<T>>, defaultValue: T, id: TaskId)
    requires id in shown
    ensures id in PollAll(shown, tasks, defaultValue).1
    ensures forall i :: 0 <= i < |tasks| && tasks[i].id == id ==> PollAll(shown, tasks, defaultValue).0[i].Returned?
    decreases |tasks|
  {
    if tasks != [] {
      var step := PollStep(shown, tasks[0], defaultValue);
      PollAllNeverRethrows(step.1, tasks[1..], defaultValue, id);
      var outs := PollAll(shown, tasks, defaultValue).0;
      forall i | 0 <= i < |tasks| && tasks[i].id == id ensures outs[i].Returned? {
        if i > 0 {
          assert outs[i] == PollAll(step.1, tasks[1..], defaultValue).0[i - 1];
          assert tasks[1..][i - 1] == tasks[i];
        }
      }
    }
  }

  /** Each failure surfaces at most once, however often it is polled. */
  lemma {:induction false} PollAllThrowsAtMostOnce<T>(shown: seq<TaskId>, tasks: seq<Task<T>>, defaultValue: T, i: nat, j: nat)
    requires i < j < |tasks| && tasks[i].id == tasks[j].id
    ensures !(PollAll(shown, tasks, defaultValue).0[i].Threw? && PollAll(shown, tasks, defaultValue).0[j].Threw?)
    decreases |tasks|
  {
    var step := PollStep(shown, tasks[0], defaultValue);
    var outs := PollAll(shown, tasks, defaultValue).0;
    var rest := PollAll(step.1, tasks[1..], defaultValue).0;
    assert outs[j] == rest[j - 1] && tasks[1..][j - 1] == tasks[j];
    if i == 0 {
      if step.0.Threw? {
        PollAllNeverRethrows(step.1, tasks[1..], defaultValue, tasks[0].id);
      }
    } else {
      assert outs[i] == rest[i - 1] && tasks[1..][i - 1] == tasks[i];
      PollAllThrowsAtMostOnce(step.1, tasks[1..], defaultValue, i - 1, j - 1);
    }
  }

  /**
   A failure not yet shown surfaces at the first poll that sees the task
   faulted.
   */
  lemma {:induction false} PollAllThrowsAtFirstFault<T>(shown: seq<TaskId>, tasks: seq<Task<T>>, defaultValue: T, i: nat)
    requires i < |tasks| && tasks[i].status.Faulted? && tasks[i].id !in shown
    requires forall k :: 0 <= k < i && tasks[k].id == tasks[i].id ==> !tasks[k].status.Faulted?
    ensures PollAll(shown, tasks, defaultValue).0[i] == Threw(tasks[i].status.error)
    decreases |tasks|
  {
    if i > 0 {
      var step := PollStep(shown, tasks[0], defaultValue);
      assert tasks[i].id !in step.1;
      forall k | 0 <= k < i - 1 && tasks[1..][k].id == tasks[1..][i - 1].id
        ensures !tasks[1..][k].status.Faulted?
      {
        assert tasks[1..][k] == tasks[k + 1];
      }
      PollAllThrowsAtFirstFault(step.1, tasks[1..], defaultValue, i - 1);
    }
  }

  /** The process-wide list of tasks whose exception was already shown. */
  class ShownExceptions {
    var shown: seq<TaskId>

    constructor ()
      ensures shown == []
    {
      shown := [];
    }

    /**
     `task.GetResultOrDefault(defaultValue)`: the result of a task that
     completed successfully; the exception of a faulted task the first time it
     is seen (after recording the task); the default otherwise.
     */
    method GetResultOrDefault<T>(task: Task<T>, defaultValue: T) returns (outcome: Poll<T>)
      modifies this
      ensures (outcome, shown) == PollStep(old(shown), task, defaultValue)
    {
      if task.status.Succeeded? {
        return Returned(task.status.result);
      }
      if task.status.Faulted? && task.id !in shown {
        shown := shown + [task.id];
        return Threw(task.status.error);
      }
      return Returned(defaultValue);
    }
  }
}
