/** `Sworkstyle::update_workspace_name` and `Sworkstyle::update_workspaces`:
    the label of every workspace of a tree snapshot and the rename commands
    that bring the compositor's names up to date. The compositor connection
    is replaced by the tree it would return and the commands it would be
    sent. */
module Workstyle {
  import opened Base
  import opened Text
  import opened Tree
  import opened Label

  /** The configuration store, seen through its icon lookup: given an exact
      application name and an optional title it always returns an icon. */
  datatype Config = Config(fetchIcon: (string, Option<string>) -> string)

  /** The fields of the daemon that label synthesis reads. */
  datatype Sworkstyle = Sworkstyle(config: Config, deduplicate: bool)

  /** The two ways `update_workspace_name` fails before renaming anything. */
  datatype SynthError =
    | MissingName(id: int)        // "Could not get name for workspace with id: {id}"
    | MissingIndex(name: string)  // "Could not fetch index for: {name}"

  // =====================================================================
  // One workspace
  // =====================================================================

  /** The icons a workspace shows: one per window (or per distinct pair when
      deduplicating), in window order (or ascending pair order), with
      repeated neighbours removed when deduplicating. */
  function WorkspaceIcons(s: Sworkstyle, workspace: Node): (icons: seq<string>)
    ensures forall i :: 0 <= i < |icons| ==> |icons[i]| > 0
    ensures !s.deduplicate ==> |icons| == |Windows(workspace)|
    ensures s.deduplicate ==> NoAdjacentDuplicates(icons)
  {
    var names := WindowNames(Windows(workspace));
    var names' := if s.deduplicate then SortedSet(names) else names;
    var icons := Icons(s.config.fetchIcon, names');
    if s.deduplicate then
      var kept := DedupAdjacent(icons);
      DedupAdjacentDistinct(icons);
      assert forall i :: 0 <= i < |kept| ==> kept[i] in icons;
      kept
    else icons
  }

  /** Where the shown icons come from: each is the icon of some window of
      the workspace, and every window's icon is shown. Without deduplication
      the i-th icon is that of the i-th window. */
  lemma WorkspaceIconsFromWindows(s: Sworkstyle, workspace: Node)
    ensures forall icon :: icon in WorkspaceIcons(s, workspace) <==>
      exists x :: x in Windows(workspace) && icon == WindowIcon(s.config.fetchIcon, x)
    ensures !s.deduplicate ==> forall i :: 0 <= i < |WorkspaceIcons(s, workspace)| ==>
      WorkspaceIcons(s, workspace)[i] == WindowIcon(s.config.fetchIcon, Windows(workspace)[i])
  {
    var f := s.config.fetchIcon;
    var windows := Windows(workspace);
    var names := WindowNames(windows);
    if s.deduplicate {
      var sorted := SortedSet(names);
      IconsOfWindowPairs(f, windows, sorted);
      var icons := Icons(f, sorted);
      DedupAdjacentKeeps(icons);
      assert WorkspaceIcons(s, workspace) == DedupAdjacent(icons);
    } else {
      IconsOfWindowPairs(f, windows, names);
      assert WorkspaceIcons(s, workspace) == Icons(f, names);
    }
  }

  /** The label a workspace with number `index` should carry. */
  function CandidateLabel(s: Sworkstyle, workspace: Node, index: int): string
  {
    FormatLabel(index, WorkspaceIcons(s, workspace))
  }

  /** The outcome of `update_workspace_name` for one workspace: an error, no
      command (the name already is the label) or the one rename command. */
  function WorkspaceUpdate(s: Sworkstyle, workspace: Node): (r: Result<Option<string>, SynthError>)
  {
    match workspace.name
    case None => Err(MissingName(workspace.id))
    case Some(name) =>
      match workspace.num
      case None => Err(MissingIndex(name))
      case Some(index) =>
        var newName := CandidateLabel(s, workspace, index);
        if name != newName then Ok(Some(RenameCommand(name, newName))) else Ok(None)
  }

  /** `update_workspace_name`, step by step as src/lib.rs does it. The
      `" "` branch is the Rust code's fallback for a missing number; it cannot
      be taken, since a missing number has already returned an error. */
  method UpdateWorkspaceName(s: Sworkstyle, workspace: Node) returns (r: Result<Option<string>, SynthError>)
    ensures r == WorkspaceUpdate(s, workspace)
  {
    var windows := GetWindows(workspace, []);
    assert windows == Windows(workspace);
    var windowNames := WindowNames(windows);
    if s.deduplicate {
      windowNames := SortedSet(windowNames);
    }
    var icons := Icons(s.config.fetchIcon, windowNames);
    if workspace.name.None? {
      return Err(MissingName(workspace.id));
    }
    var name := workspace.name.value;
    if workspace.num.None? {
      return Err(MissingIndex(name));
    }
    var index := workspace.num.value;
    if s.deduplicate {
      icons := DedupAdjacent(icons);
    }
    assert icons == WorkspaceIcons(s, workspace);
    var joined := Join(icons, " ");
    if |joined| > 0 {
      joined := joined + " ";
    }
    var newName :=
      if |joined| > 0 then IntToDecimal(index) + ": " + joined
      else if workspace.num.Some? then IntToDecimal(workspace.num.value)
      else " ";
    assert newName == CandidateLabel(s, workspace, index);
    if name != newName {
      return Ok(Some(RenameCommand(name, newName)));
    }
    return Ok(None);
  }

  /** A workspace without a name, or without a number, fails and yields no
      command; otherwise the update succeeds. */
  lemma ErrorConditions(s: Sworkstyle, workspace: Node)
    ensures workspace.name.None? ==> WorkspaceUpdate(s, workspace) == Err(MissingName(workspace.id))
    ensures workspace.name.Some? && workspace.num.None? ==>
      WorkspaceUpdate(s, workspace) == Err(MissingIndex(workspace.name.value))
    ensures WorkspaceUpdate(s, workspace).Ok? <==> workspace.name.Some? && workspace.num.Some?
  {
  }

  /** A rename is issued exactly when the current name differs from the
      label, and it names the current name and a label that starts with the
      workspace number; the single-space fallback is never produced. */
  lemma RenameDecision(s: Sworkstyle, workspace: Node)
    requires workspace.name.Some? && workspace.num.Some?
    ensures var newName := CandidateLabel(s, workspace, workspace.num.value);
      && LabelIndex(newName) == Some(workspace.num.value)
      && newName != " "
      && (WorkspaceUpdate(s, workspace) == Ok(None) <==> workspace.name.value == newName)
      && (workspace.name.value != newName ==>
            WorkspaceUpdate(s, workspace) == Ok(Some(RenameCommand(workspace.name.value, newName))))
  {
    LabelIndexRoundTrip(workspace.num.value, WorkspaceIcons(s, workspace));
  }

  /** Renaming is idempotent: the label does not depend on the workspace's own
      name, so once the workspace carries its label, synthesis asks for no
      further rename. */
  lemma RenameIdempotent(s: Sworkstyle, workspace: Node)
    requires workspace.nodeType == Workspace && workspace.name.Some? && workspace.num.Some?
    ensures var index := workspace.num.value;
      var renamed := workspace.(name := Some(CandidateLabel(s, workspace, index)));
      && CandidateLabel(s, renamed, index) == CandidateLabel(s, workspace, index)
      && WorkspaceUpdate(s, renamed) == Ok(None)
  {
    var renamed := workspace.(name := Some(CandidateLabel(s, workspace, workspace.num.value)));
    assert Windows(renamed) == Windows(workspace);
  }

  // =====================================================================
  // The whole tree
  // =====================================================================

  /** How one workspace's update ended. */
  type Outcome = Result<Option<string>, SynthError>

  /** The outcome of each workspace of the list, in list order. */
  function Outcomes(s: Sworkstyle, workspaces: seq<Node>): (rs: seq<Outcome>)
    ensures |rs| == |workspaces|
  {
    if workspaces == [] then []
    else [WorkspaceUpdate(s, workspaces[0])] + Outcomes(s, workspaces[1..])
  }

  lemma {:induction false} OutcomesAt(s: Sworkstyle, workspaces: seq<Node>, i: nat)
    requires i < |workspaces|
    ensures Outcomes(s, workspaces)[i] == WorkspaceUpdate(s, workspaces[i])
    decreases i
  {
    if i > 0 {
      OutcomesAt(s, workspaces[1..], i - 1);
    }
  }

  /** The command one workspace contributes, if any. */
  function Emitted(r: Outcome): seq<string>
  {
    if r.Ok? && r.value.Some? then [r.value.value] else []
  }

  /** What one `update_workspaces` call amounts to: the commands sent, in
      order, and whether it ended in an error. */
  datatype Run = Run(commands: seq<string>, status: Result<(), SynthError>)

  /** Going through the outcomes in turn, ending at the first error; the
      commands of earlier workspaces have already been sent by then. */
  function Sequence(rs: seq<Outcome>): Run
  {
    if rs == [] then Run([], Ok(()))
    else match rs[0]
      case Err(e) => Run([], Err(e))
      case Ok(c) =>
        var rest := Sequence(rs[1..]);
        Run(Emitted(Ok(c)) + rest.commands, rest.status)
  }

  /** The loop of `update_workspaces` over a list of workspaces. */
  function UpdateAll(s: Sworkstyle, workspaces: seq<Node>): Run
  {
    Sequence(Outcomes(s, workspaces))
  }

  /** `update_workspaces` on a tree snapshot. */
  function UpdateTree(s: Sworkstyle, tree: Node): Run
  {
    UpdateAll(s, Workspaces(tree))
  }

  /** The position of the first failed outcome, or the length of the list
      when none failed. */
  function FirstFailure(rs: seq<Outcome>): (k: nat)
    ensures k <= |rs|
    ensures forall j :: 0 <= j < k ==> rs[j].Ok?
    ensures k < |rs| ==> rs[k].Err?
  {
    if rs == [] then 0
    else if rs[0].Err? then 0
    else 1 + FirstFailure(rs[1..])
  }

  /** The commands of a list of outcomes, in order, regardless of errors. */
  function CommandsOf(rs: seq<Outcome>): seq<string>
  {
    if rs == [] then []
    else CommandsOf(rs[..|rs| - 1]) + Emitted(rs[|rs| - 1])
  }

  lemma {:induction false} CommandsOfCons(x: Outcome, t: seq<Outcome>)
    ensures CommandsOf([x] + t) == Emitted(x) + CommandsOf(t)
    decreases |t|
  {
    if t == [] {
      assert [x] + t == [x];
      assert [x][..0] == [];
    } else {
      var xt := [x] + t;
      var init := t[..|t| - 1];
      assert xt[..|xt| - 1] == [x] + init;
      assert xt[|xt| - 1] == t[|t| - 1];
      CommandsOfCons(x, init);
      AppendAssoc(Emitted(x), CommandsOf(init), Emitted(t[|t| - 1]));
    }
  }

  /** The run sends the commands of the outcomes before the first failed
      one, in order, and reports that failure; without a failure it sends
      the commands of all of them. */
  lemma {:induction false} SequenceStopsAtFirstError(rs: seq<Outcome>)
    ensures var k := FirstFailure(rs);
      && Sequence(rs).commands == CommandsOf(rs[..k])
      && Sequence(rs).status == if k == |rs| then Ok(()) else Err(rs[k].error)
    decreases |rs|
  {
    if rs != [] && rs[0].Ok? {
      var t := rs[1..];
      SequenceStopsAtFirstError(t);
      var k := FirstFailure(t);
      assert rs[..k + 1] == [rs[0]] + t[..k];
      CommandsOfCons(rs[0], t[..k]);
    }
  }

  /** `update_workspaces` sends the commands of the workspaces before the
      first failing one, in walker order, and reports that failure; without
      a failure it sends the commands of all of them. */
  lemma UpdateAllStopsAtFirstError(s: Sworkstyle, workspaces: seq<Node>)
    ensures var rs := Outcomes(s, workspaces); var k := FirstFailure(rs);
      && (forall j :: 0 <= j < k ==> WorkspaceUpdate(s, workspaces[j]).Ok?)
      && (k < |workspaces| ==> WorkspaceUpdate(s, workspaces[k]).Err?)
      && UpdateAll(s, workspaces).commands == CommandsOf(rs[..k])
      && UpdateAll(s, workspaces).status ==
           if k == |workspaces| then Ok(()) else Err(WorkspaceUpdate(s, workspaces[k]).error)
  {
    var rs := Outcomes(s, workspaces);
    SequenceStopsAtFirstError(rs);
    forall j | 0 <= j < |workspaces| {
      OutcomesAt(s, workspaces, j);
    }
  }

  /** Every command sent is the command of one of the outcomes. */
  lemma {:induction false} SequenceCommandsFromOutcomes(rs: seq<Outcome>)
    ensures forall c :: c in Sequence(rs).commands ==> Ok(Some(c)) in rs
    decreases |rs|
  {
    if rs != [] && rs[0].Ok? {
      SequenceCommandsFromOutcomes(rs[1..]);
      forall c | c in Sequence(rs).commands
        ensures Ok(Some(c)) in rs
      {
        if c !in Emitted(rs[0]) {
          assert Ok(Some(c)) in rs[1..];
        }
      }
    }
  }

  /** Every command sent renames some workspace of the list, from its
      current name to its label. */
  lemma UpdateAllCommandsFromWorkspaces(s: Sworkstyle, workspaces: seq<Node>)
    ensures forall c :: c in UpdateAll(s, workspaces).commands ==>
      exists w :: w in workspaces && WorkspaceUpdate(s, w) == Ok(Some(c))
  {
    var rs := Outcomes(s, workspaces);
    SequenceCommandsFromOutcomes(rs);
    forall c | c in UpdateAll(s, workspaces).commands
      ensures exists w :: w in workspaces && WorkspaceUpdate(s, w) == Ok(Some(c))
    {
      var i :| 0 <= i < |rs| && rs[i] == Ok(Some(c));
      OutcomesAt(s, workspaces, i);
      assert workspaces[i] in workspaces;
    }
  }

  /** Only collected workspaces are renamed, never the scratchpad, and each
      from its current name to its label. */
  lemma UpdateTreeRenamesWorkspaces(s: Sworkstyle, tree: Node, c: string)
    requires c in UpdateTree(s, tree).commands
    ensures exists w :: (w in Workspaces(tree)
      && w.nodeType == Workspace && w.name != Some(Scratchpad)
      && w.name.Some? && w.num.Some?
      && c == RenameCommand(w.name.value, CandidateLabel(s, w, w.num.value)))
  {
    UpdateAllCommandsFromWorkspaces(s, Workspaces(tree));
    WorkspacesAreWorkspaces(tree);
    var w :| w in Workspaces(tree) && WorkspaceUpdate(s, w) == Ok(Some(c));
    assert w.name.Some? && w.num.Some?;
  }

  lemma {:induction false} CommandsOfSettled(rs: seq<Outcome>)
    requires forall j :: 0 <= j < |rs| ==> rs[j] == Ok(None)
    ensures CommandsOf(rs) == []
    decreases |rs|
  {
    if rs != [] {
      CommandsOfSettled(rs[..|rs| - 1]);
    }
  }

  /** When every workspace already carries its label, an update sends
      nothing and succeeds. */
  lemma SettledTreeIsQuiet(s: Sworkstyle, tree: Node)
    requires forall w :: w in Workspaces(tree) ==>
      w.num.Some? && w.name == Some(CandidateLabel(s, w, w.num.value))
    ensures UpdateTree(s, tree) == Run([], Ok(()))
  {
    var ws := Workspaces(tree);
    var rs := Outcomes(s, ws);
    assert forall j :: 0 <= j < |rs| ==> rs[j] == Ok(None) by {
      forall j | 0 <= j < |rs| ensures rs[j] == Ok(None) {
        assert ws[j] in ws;
        RenameDecision(s, ws[j]);
        OutcomesAt(s, ws, j);
      }
    }
    SequenceStopsAtFirstError(rs);
    assert rs[..FirstFailure(rs)] == rs;
    CommandsOfSettled(rs);
  }

  /** One more outcome before the first failure adds its command. */
  lemma CommandsOfStep(rs: seq<Outcome>, i: nat)
    requires i < |rs|
    ensures CommandsOf(rs[..i + 1]) == CommandsOf(rs[..i]) + Emitted(rs[i])
  {
    assert rs[..i + 1][..i] == rs[..i];
  }

  /** The run of outcomes whose first failure is at `i`. */
  lemma SequenceAt(rs: seq<Outcome>, i: nat)
    requires i <= |rs| && i == FirstFailure(rs)
    ensures Sequence(rs) == Run(CommandsOf(rs[..i]), if i == |rs| then Ok(()) else Err(rs[i].error))
  {
    SequenceStopsAtFirstError(rs);
  }

  lemma FirstFailureAt(rs: seq<Outcome>, i: nat)
    requires i <= FirstFailure(rs) && i < |rs|
    ensures rs[i].Err? <==> FirstFailure(rs) == i
  {
  }

  /** The loop of `update_workspaces`: update the workspaces one after
      another, returning at the first error. */
  method UpdateInOrder(s: Sworkstyle, workspaces: seq<Node>) returns (run: Run)
    ensures run == UpdateAll(s, workspaces)
  {
    ghost var rs := Outcomes(s, workspaces);
    var commands: seq<string> := [];
    for i := 0 to |workspaces|
      invariant i <= FirstFailure(rs)
      invariant commands == CommandsOf(rs[..i])
    {
      var r := UpdateWorkspaceName(s, workspaces[i]);
      OutcomesAt(s, workspaces, i);
      FirstFailureAt(rs, i);
      if r.Err? {
        SequenceAt(rs, i);
        return Run(commands, Err(r.error));
      }
      CommandsOfStep(rs, i);
      commands := commands + Emitted(r);
    }
    SequenceAt(rs, |rs|);
    assert rs[..|rs|] == rs;
    run := Run(commands, Ok(()));
  }

  /** `update_workspaces`: walk the tree for its workspaces, then update
      them in walker order. */
  method UpdateWorkspaces(s: Sworkstyle, tree: Node) returns (run: Run)
    ensures run == UpdateTree(s, tree)
  {
    var workspaces := GetWorkspacesRecurse(tree, []);
    assert workspaces == Workspaces(tree);
    run := UpdateInOrder(s, workspaces);
  }
}
