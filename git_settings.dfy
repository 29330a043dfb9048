/**
 The settings window: it loads the remotes of a module into editable rows,
 lets rows be added, removed and edited, and on "Save" turns the rows into
 `git remote` operations.
 */
module GitSettings {
  /** A configured remote: its alias and URL. */
  datatype Remote = Remote(alias: string, url: string)

  /** One row of the remotes list. */
  class EditableRecord {
    var alias: string
    var url: string
    /** Only rows added in the window may change their alias. */
    var newlyAdded: bool

    /** A row added with the list's "+" button. */
    constructor New()
      ensures alias == "" && url == "" && newlyAdded
    {
      alias := "";
      url := "";
      newlyAdded := true;
    }

    /** A row loaded from an existing remote. */
    constructor FromRemote(alias: string, url: string)
      ensures this.alias == alias && this.url == url && !newlyAdded
    {
      this.alias := alias;
      this.url := url;
      newlyAdded := false;
    }
  }

  /** The contents of a row at one moment. */
  datatype RecordView = RecordView(alias: string, url: string, newlyAdded: bool)

  function Views(records: seq<EditableRecord>): (rows: seq<RecordView>)
    reads records
    ensures |rows| == |records|
    ensures forall i :: 0 <= i < |records| ==>
      rows[i] == RecordView(records[i].alias, records[i].url, records[i].newlyAdded)
  {
    if records == [] then []
    else
      var rest := Views(records[1..]);
      assert forall i :: 1 <= i < |records| ==> records[i] == records[1..][i - 1];
      [RecordView(records[0].alias, records[0].url, records[0].newlyAdded)] + rest
  }

  /** The rows freshly loaded from `remotes`. */
  function Loaded(remotes: seq<Remote>): (rows: seq<RecordView>)
    ensures |rows| == |remotes|
    ensures forall i :: 0 <= i < |remotes| ==> rows[i] == RecordView(remotes[i].alias, remotes[i].url, false)
  {
    seq(|remotes|, i requires 0 <= i < |remotes| => RecordView(remotes[i].alias, remotes[i].url, false))
  }

  // ---------------------------------------------------------------------------
  // What "Save" asks git to do
  // ---------------------------------------------------------------------------

  datatype RemoteOp =
    | RemoveRemote(alias: string)
    | AddRemote(alias: string, url: string)
    | SetRemoteUrl(alias: string, url: string)

  predicate HasAlias(rows: seq<RecordView>, alias: string) {
    exists i :: 0 <= i < |rows| && rows[i].alias == alias
  }

  predicate IsRemoteAlias(remotes: seq<Remote>, alias: string) {
    exists j :: 0 <= j < |remotes| && remotes[j].alias == alias
  }

  /** The first loop of "Save": remove each remote no row carries the alias of. */
  function Removals(remotes: seq<Remote>, rows: seq<RecordView>): (ops: seq<RemoteOp>)
    ensures |ops| <= |remotes|
  {
    if remotes == [] then []
    else
      var last := remotes[|remotes| - 1];
      Removals(remotes[..|remotes| - 1], rows) + (if HasAlias(rows, last.alias) then [] else [RemoveRemote(last.alias)])
  }

  /**
   Every removal is of an existing remote that no row carries the alias of,
   and every such remote is removed.
   */
  lemma {:induction false} RemovalsExact(remotes: seq<Remote>, rows: seq<RecordView>)
    ensures forall op :: op in Removals(remotes, rows) ==> op.RemoveRemote?
    ensures forall a :: RemoveRemote(a) in Removals(remotes, rows) <==> IsRemoteAlias(remotes, a) && !HasAlias(rows, a)
    decreases |remotes|
  {
    if remotes != [] {
      var init := remotes[..|remotes| - 1];
      var last := remotes[|remotes| - 1];
      var tail := if HasAlias(rows, last.alias) then [] else [RemoveRemote(last.alias)];
      var ops := Removals(remotes, rows);
      var front := Removals(init, rows);
      RemovalsExact(init, rows);
      assert ops == front + tail;
      assert forall a :: IsRemoteAlias(remotes, a) <==> IsRemoteAlias(init, a) || a == last.alias by {
        forall a | IsRemoteAlias(remotes, a) ensures IsRemoteAlias(init, a) || a == last.alias {
          var j :| 0 <= j < |remotes| && remotes[j].alias == a;
          if j < |init| {
            assert init[j] == remotes[j];
          }
        }
        forall a | IsRemoteAlias(init, a) ensures IsRemoteAlias(remotes, a) {
          var j :| 0 <= j < |init| && init[j].alias == a;
          assert remotes[j] == init[j];
        }
      }
    }
  }

  /** The second loop of "Save": add the new rows, set the URL of the others. */
  function RecordOp(row: RecordView): RemoteOp {
    if row.newlyAdded then AddRemote(row.alias, row.url) else SetRemoteUrl(row.alias, row.url)
  }

  function Updates(rows: seq<RecordView>): (ops: seq<RemoteOp>)
    ensures |ops| == |rows|
    ensures forall i :: 0 <= i < |rows| ==> ops[i] == RecordOp(rows[i])
  {
    seq(|rows|, i requires 0 <= i < |rows| => RecordOp(rows[i]))
  }

  function SaveOps(remotes: seq<Remote>, rows: seq<RecordView>): seq<RemoteOp> {
    Removals(remotes, rows) + Updates(rows)
  }

  /**
   The operations of one "Save": first a removal exactly for each remote
   whose alias no row carries, then one operation per row, in row order,
   adding the row's remote when the row is new and setting its URL otherwise.
   */
  lemma SaveOpsShape(remotes: seq<Remote>, rows: seq<RecordView>)
    ensures var ops := SaveOps(remotes, rows);
      && |ops| == |Removals(remotes, rows)| + |rows|
      && (forall a :: RemoveRemote(a) in ops <==> IsRemoteAlias(remotes, a) && !HasAlias(rows, a))
      && (forall i :: 0 <= i < |rows| ==> ops[|Removals(remotes, rows)| + i] == RecordOp(rows[i]))
      && (forall i :: 0 <= i < |rows| ==> (ops[|Removals(remotes, rows)| + i].AddRemote? <==> rows[i].newlyAdded))
  {
    var removals := Removals(remotes, rows);
    var ops := SaveOps(remotes, rows);
    var updates := Updates(rows);
    assert ops == removals + updates;
    RemovalsExact(remotes, rows);
    assert forall x :: x in updates ==> !x.RemoveRemote? by {
      forall x | x in updates ensures !x.RemoveRemote? {
        var k :| 0 <= k < |updates| && updates[k] == x;
        assert x == RecordOp(rows[k]);
      }
    }
    forall i | 0 <= i < |rows| ensures ops[|removals| + i] == RecordOp(rows[i]) {
      assert ops[|removals| + i] == updates[i];
    }
  }

  // ---------------------------------------------------------------------------
  // The effect of the operations on the repository's remotes
  // ---------------------------------------------------------------------------

  /** The remotes a repository has: alias to URL. */
  type Config = map<string, string>

  /** `git remote remove/add/set-url`; a command git refuses changes nothing. */
  function ApplyOp(config: Config, op: RemoteOp): Config {
    match op
    case RemoveRemote(a) => config - {a}
    case AddRemote(a, u) => if a in config then config else config[a := u]
    case SetRemoteUrl(a, u) => if a in config then config[a := u] else config
  }

  function ApplyAll(config: Config, ops: seq<RemoteOp>): Config
    decreases |ops|
  {
    if ops == [] then config else ApplyAll(ApplyOp(config, ops[0]), ops[1..])
  }

  function ConfigOf(remotes: seq<Remote>): (config: Config)
    ensures forall a :: a in config <==> IsRemoteAlias(remotes, a)
  {
    if remotes == [] then map[]
    else
      var rest := ConfigOf(remotes[1..]);
      assert forall j :: 1 <= j < |remotes| ==> remotes[j] == remotes[1..][j - 1];
      map[remotes[0].alias := remotes[0].url] + rest
  }

  /** The remotes the rows describe. */
  function RowsConfig(rows: seq<RecordView>): (config: Config)
    ensures forall a :: a in config <==> HasAlias(rows, a)
  {
    if rows == [] then map[]
    else
      var rest := RowsConfig(rows[1..]);
      assert forall j :: 1 <= j < |rows| ==> rows[j] == rows[1..][j - 1];
      map[rows[0].alias := rows[0].url] + rest
  }

  predicate DistinctAliases(rows: seq<RecordView>) {
    forall i, j :: 0 <= i < j < |rows| ==> rows[i].alias != rows[j].alias
  }

  lemma {:induction false} ApplyAllAppend(config: Config, a: seq<RemoteOp>, b: seq<RemoteOp>)
    ensures ApplyAll(config, a + b) == ApplyAll(ApplyAll(config, a), b)
    decreases |a|
  {
    if a == [] {
      assert a + b == b;
    } else {
      assert (a + b)[0] == a[0];
      assert (a + b)[1..] == a[1..] + b;
      ApplyAllAppend(ApplyOp(config, a[0]), a[1..], b);
    }
  }

  /** The removals drop exactly the remotes no row carries the alias of. */
  lemma {:induction false} RemovalsEffect(config: Config, remotes: seq<Remote>, rows: seq<RecordView>)
    ensures var after := ApplyAll(config, Removals(remotes, rows));
      && (forall a :: a in after <==> a in config && (HasAlias(rows, a) || !IsRemoteAlias(remotes, a)))
      && (forall a :: a in after ==> after[a] == config[a])
    decreases |remotes|
  {
    if remotes != [] {
      var init := remotes[..|remotes| - 1];
      var last := remotes[|remotes| - 1];
      var tail := if HasAlias(rows, last.alias) then [] else [RemoveRemote(last.alias)];
      RemovalsEffect(config, init, rows);
      ApplyAllAppend(config, Removals(init, rows), tail);
      assert forall a :: IsRemoteAlias(remotes, a) <==> IsRemoteAlias(init, a) || a == last.alias by {
        forall a | IsRemoteAlias(remotes, a) ensures IsRemoteAlias(init, a) || a == last.alias {
          var j :| 0 <= j < |remotes| && remotes[j].alias == a;
          if j < |init| {
            assert init[j] == remotes[j];
          }
        }
        forall a | IsRemoteAlias(init, a) ensures IsRemoteAlias(remotes, a) {
          var j :| 0 <= j < |init| && init[j].alias == a;
          assert remotes[j] == init[j];
        }
      }
      if tail != [] {
        assert tail[1..] == [];
      }
    }
  }

  lemma UnionShift(config: Config, key: string, value: string, rest: Config)
    ensures config[key := value] + rest == config + (map[key := value] + rest)
  {
  }

  /** Applying the row operations to a configuration that agrees with the rows' flags. */
  lemma {:induction false} UpdatesEffect(config: Config, rows: seq<RecordView>)
    requires DistinctAliases(rows)
    requires forall i :: 0 <= i < |rows| ==> (rows[i].alias in config <==> !rows[i].newlyAdded)
    ensures ApplyAll(config, Updates(rows)) == config + RowsConfig(rows)
    decreases |rows|
  {
    var ops := Updates(rows);
    if rows == [] {
      assert config + RowsConfig(rows) == config;
    } else {
      var r := rows[0];
      var config' := config[r.alias := r.url];
      assert ops[0] == RecordOp(r);
      assert ApplyOp(config, ops[0]) == config';
      assert ops[1..] == Updates(rows[1..]);
      forall i | 0 <= i < |rows[1..]| ensures rows[1..][i].alias in config' <==> !rows[1..][i].newlyAdded {
        assert rows[1..][i] == rows[i + 1];
        assert rows[i + 1].alias != r.alias;
      }
      assert DistinctAliases(rows[1..]) by {
        forall i, j | 0 <= i < j < |rows[1..]| ensures rows[1..][i].alias != rows[1..][j].alias {
          assert rows[1..][i] == rows[i + 1] && rows[1..][j] == rows[j + 1];
        }
      }
      UpdatesEffect(config', rows[1..]);
      assert ApplyAll(config, ops) == config' + RowsConfig(rows[1..]);
      UnionShift(config, r.alias, r.url, RowsConfig(rows[1..]));
    }
  }

  /**
   "Save" makes the repository's remotes exactly the rows, provided the rows
   carry distinct aliases, every loaded row's alias is a remote and no new
   row's alias is.
   */
  lemma SaveReachesRows(remotes: seq<Remote>, rows: seq<RecordView>)
    requires DistinctAliases(rows)
    requires forall i :: 0 <= i < |rows| ==> (IsRemoteAlias(remotes, rows[i].alias) <==> !rows[i].newlyAdded)
    ensures ApplyAll(ConfigOf(remotes), SaveOps(remotes, rows)) == RowsConfig(rows)
  {
    var kept := ApplyAll(ConfigOf(remotes), Removals(remotes, rows));
    ApplyAllAppend(ConfigOf(remotes), Removals(remotes, rows), Updates(rows));
    KeptByRemovals(remotes, rows);
    UpdatesEffect(kept, rows);
    UnionAbsorbed(kept, RowsConfig(rows));
  }

  /** After the removals, exactly the loaded rows' aliases remain. */
  lemma KeptByRemovals(remotes: seq<Remote>, rows: seq<RecordView>)
    requires forall i :: 0 <= i < |rows| ==> (IsRemoteAlias(remotes, rows[i].alias) <==> !rows[i].newlyAdded)
    ensures var kept := ApplyAll(ConfigOf(remotes), Removals(remotes, rows));
      && (forall i :: 0 <= i < |rows| ==> (rows[i].alias in kept <==> !rows[i].newlyAdded))
      && (forall a :: a in kept ==> a in RowsConfig(rows))
  {
    var kept := ApplyAll(ConfigOf(remotes), Removals(remotes, rows));
    RemovalsEffect(ConfigOf(remotes), remotes, rows);
    forall i | 0 <= i < |rows| ensures rows[i].alias in kept <==> !rows[i].newlyAdded {
      assert HasAlias(rows, rows[i].alias);
    }
  }

  lemma UnionAbsorbed(small: Config, large: Config)
    requires forall a :: a in small ==> a in large
    ensures small + large == large
  {
  }

  // ---------------------------------------------------------------------------
  // The window
  // ---------------------------------------------------------------------------

  class SettingsWindow {
    /** Hash of the remotes list the rows were loaded from. */
    var lastHash: int
    /** Whether the reorderable list has been created. */
    var hasList: bool
    var editableRemotes: seq<EditableRecord>

    /** Every row is its own object. */
    ghost predicate Valid()
      reads this
    {
      forall i, j :: 0 <= i < j < |editableRemotes| ==> editableRemotes[i] != editableRemotes[j]
    }

    function Snapshot(): (rows: seq<RecordView>)
      reads this, editableRemotes
      ensures |rows| == |editableRemotes|
    {
      Views(editableRemotes)
    }

    /** A new window: no list yet, and the serialised rows start empty. */
    constructor ()
      ensures lastHash == 0 && !hasList && editableRemotes == []
      ensures Valid()
    {
      lastHash := 0;
      hasList := false;
      editableRemotes := [];
    }

    /**
     A frame with the module's remotes available: when their hash differs
     from the last one the rows are reloaded from the remotes, as fresh
     non-new rows, and the list is (re)created; otherwise nothing changes.
     */
    method Refresh(remotes: seq<Remote>, remotesHash: int)
      requires Valid()
      modifies this
      ensures Valid()
      ensures remotesHash != old(lastHash) ==>
        && lastHash == remotesHash && hasList
        && (forall i :: 0 <= i < |editableRemotes| ==> fresh(editableRemotes[i]))
        && Snapshot() == Loaded(remotes)
      ensures remotesHash == old(lastHash) ==>
        lastHash == old(lastHash) && hasList == old(hasList) && editableRemotes == old(editableRemotes)
    {
      if lastHash != remotesHash {
        var records: seq<EditableRecord> := [];
        var i := 0;
        while i < |remotes|
          invariant 0 <= i <= |remotes| && |records| == i
          invariant forall j :: 0 <= j < i ==>
            fresh(records[j]) && records[j].alias == remotes[j].alias && records[j].url == remotes[j].url && !records[j].newlyAdded
          invariant forall j, k :: 0 <= j < k < i ==> records[j] != records[k]
        {
          var record := new EditableRecord.FromRemote(remotes[i].alias, remotes[i].url);
          records := records + [record];
          i := i + 1;
        }
        editableRemotes := records;
        hasList := true;
        lastHash := remotesHash;
      }
    }

    /** The list's "+" button: a new empty row at the end. */
    method Add()
      requires Valid() && hasList
      modifies this
      ensures Valid()
      ensures |editableRemotes| == |old(editableRemotes)| + 1
      ensures editableRemotes[..|old(editableRemotes)|] == old(editableRemotes)
      ensures fresh(editableRemotes[|old(editableRemotes)|])
      ensures Snapshot() == old(Snapshot()) + [RecordView("", "", true)]
      ensures lastHash == old(lastHash) && hasList == old(hasList)
    {
      var record := new EditableRecord.New();
      editableRemotes := editableRemotes + [record];
      assert editableRemotes[..|old(editableRemotes)|] == old(editableRemotes);
    }

    /** The list's "-" button on the selected row. */
    method Remove(index: nat)
      requires Valid() && hasList && index < |editableRemotes|
      modifies this
      ensures Valid()
      ensures editableRemotes == old(editableRemotes[..index] + editableRemotes[index + 1..])
      ensures Snapshot() == old(Snapshot()[..index] + Snapshot()[index + 1..])
      ensures lastHash == old(lastHash) && hasList == old(hasList)
    {
      editableRemotes := editableRemotes[..index] + editableRemotes[index + 1..];
      assert forall i :: 0 <= i < |editableRemotes| ==>
        editableRemotes[i] == old(editableRemotes)[if i < index then i else i + 1];
    }

    /**
     Drawing row `index` with the text typed into its fields: the URL always
     takes the input, the alias only on a new row.
     */
    method EditRow(index: nat, aliasInput: string, urlInput: string)
      requires Valid() && index < |editableRemotes|
      modifies editableRemotes[index]
      ensures Valid()
      ensures var row := old(Snapshot())[index];
        Snapshot() == old(Snapshot())[index := row.(alias := if row.newlyAdded then aliasInput else row.alias, url := urlInput)]
    {
      var remote := editableRemotes[index];
      if remote.newlyAdded {
        remote.alias := aliasInput;
      }
      remote.url := urlInput;
    }

    /** "Save": the `git remote` operations, in the order they are issued. */
    method Save(remotes: seq<Remote>) returns (ops: seq<RemoteOp>)
      ensures ops == SaveOps(remotes, Snapshot())
    {
      var rows := Snapshot();
      ops := [];
      var i := 0;
      while i < |remotes|
        invariant 0 <= i <= |remotes|
        invariant ops == Removals(remotes[..i], rows)
      {
        assert remotes[..i + 1][..i] == remotes[..i];
        var remote := remotes[i];
        if !HasAlias(rows, remote.alias) {
          ops := ops + [RemoveRemote(remote.alias)];
        }
        i := i + 1;
      }
      assert remotes[..i] == remotes;
      var j := 0;
      while j < |editableRemotes|
        invariant 0 <= j <= |editableRemotes|
        invariant ops == Removals(remotes, rows) + Updates(rows[..j])
      {
        var remote := editableRemotes[j];
        if remote.newlyAdded {
          ops := ops + [AddRemote(remote.alias, remote.url)];
        } else {
          ops := ops + [SetRemoteUrl(remote.alias, remote.url)];
        }
        assert Updates(rows[..j + 1]) == Updates(rows[..j]) + [RecordOp(rows[j])];
        j := j + 1;
      }
      assert rows[..j] == rows;
    }
  }

  lemma {:induction false} LoadedConfig(remotes: seq<Remote>)
    ensures RowsConfig(Loaded(remotes)) == ConfigOf(remotes)
    decreases |remotes|
  {
    if remotes != [] {
      assert Loaded(remotes)[1..] == Loaded(remotes[1..]);
      LoadedConfig(remotes[1..]);
    }
  }

  /**
   Saving the rows just loaded, without edits, leaves the remotes as they
   were (when the remotes' aliases are distinct, as git's are).
   */
  lemma SaveWithoutEditsKeepsRemotes(remotes: seq<Remote>)
    requires forall i, j :: 0 <= i < j < |remotes| ==> remotes[i].alias != remotes[j].alias
    ensures ApplyAll(ConfigOf(remotes), SaveOps(remotes, Loaded(remotes))) == ConfigOf(remotes)
  {
    var rows := Loaded(remotes);
    forall i | 0 <= i < |rows| ensures IsRemoteAlias(remotes, rows[i].alias) <==> !rows[i].newlyAdded {
      assert remotes[i].alias == rows[i].alias;
    }
    SaveReachesRows(remotes, rows);
    LoadedConfig(remotes);
  }
}
