/** Concrete cases of the synthesis on small trees. */
module Scenarios {
  import opened Base
  import opened Tree
  import opened Label
  import opened Workstyle

  function Container(t: NodeType, title: Option<string>, appId: Option<string>): Node
  {
    Node(t, 10, title, None, appId, None, [], [])
  }

  function WorkspaceNode(name: Option<string>, num: Option<int>, windows: seq<Node>): Node
  {
    Node(Workspace, 1, name, num, None, None, windows, [])
  }

  /** Icons for "firefox" and "code", a question mark for anything else. */
  function SampleIcons(exact: string, title: Option<string>): string
  {
    if exact == "firefox" then "F" else if exact == "code" then "C" else "?"
  }

  /** A workspace with no windows is labelled with its bare number. */
  lemma EmptyWorkspaceIsBareNumber()
    ensures WorkspaceUpdate(Sworkstyle(Config(SampleIcons), false), WorkspaceNode(Some("3: x"), Some(3), []))
      == Ok(Some("rename workspace \"3: x\" to \"3\""))
  {
    var w := WorkspaceNode(Some("3: x"), Some(3), []);
    var s := Sworkstyle(Config(SampleIcons), false);
    assert Windows(w) == [];
    assert WorkspaceIcons(s, w) == [];
    assert Text.IntToDecimal(3) == "3";
    assert CandidateLabel(s, w, 3) == "3";
    assert "3: x" != "3";
    assert WorkspaceUpdate(s, w) == Ok(Some(RenameCommand("3: x", "3")));
    assert RenameCommand("3: x", "3") == "rename workspace \"3: x\" to \"3\"";
  }

  /** The icons of workspace 1 with one Firefox window: the one wrapped icon. */
  lemma SingleWindowIcons(firefox: Node, w: Node)
    requires firefox == Container(Con, Some("Mozilla Firefox"), Some("firefox"))
    requires w == WorkspaceNode(Some("1"), Some(1), [firefox])
    ensures WorkspaceIcons(Sworkstyle(Config(SampleIcons), false), w) == [[LRO] + "F" + [PDF]]
  {
    assert Windows(firefox) == [firefox];
    assert Windows(w) == [firefox] by {
      assert WindowsIn(w.nodes, 1) == WindowsIn(w.nodes, 0) + Windows(firefox);
    }
    assert WindowNames([firefox]) == [WindowName(Some("firefox"), Some("Mozilla Firefox"))];
    assert IconOf(SampleIcons, WindowName(Some("firefox"), Some("Mozilla Firefox"))) == [LRO] + "F" + [PDF];
  }

  /** Workspace 1 with one icon is labelled with the number, a colon, the
      icon and one trailing space. */
  lemma SingleIconLabel(icon: string)
    requires |icon| > 0
    ensures FormatLabel(1, [icon]) == "1: " + icon + " "
  {
    assert Text.Join([icon], " ") == icon;
    assert Text.IntToDecimal(1) == "1";
  }

  /** One Firefox window under workspace 1. */
  lemma SingleWindow()
    ensures WorkspaceUpdate(Sworkstyle(Config(SampleIcons), false),
        WorkspaceNode(Some("1"), Some(1), [Container(Con, Some("Mozilla Firefox"), Some("firefox"))]))
      == Ok(Some(RenameCommand("1", "1: " + [LRO] + "F" + [PDF] + " ")))
  {
    var firefox := Container(Con, Some("Mozilla Firefox"), Some("firefox"));
    var w := WorkspaceNode(Some("1"), Some(1), [firefox]);
    var s := Sworkstyle(Config(SampleIcons), false);
    var icon := [LRO] + "F" + [PDF];
    var expected := "1: " + [LRO] + "F" + [PDF] + " ";
    SingleWindowIcons(firefox, w);
    SingleIconLabel(icon);
    assert expected == "1: " + icon + " ";
    assert CandidateLabel(s, w, 1) == expected;
    assert |expected| > 1;
    assert WorkspaceUpdate(s, w) == Ok(Some(RenameCommand("1", expected)));
  }

  /** Two windows with the same identity and title show one icon when
      deduplicating and two otherwise. */
  lemma DeduplicationCollapsesEqualPairs()
    ensures var code := Container(Con, Some("untitled"), Some("code"));
      var w := WorkspaceNode(Some("2"), Some(2), [code, code]);
      && |WorkspaceIcons(Sworkstyle(Config(SampleIcons), true), w)| == 1
      && |WorkspaceIcons(Sworkstyle(Config(SampleIcons), false), w)| == 2
  {
    var code := Container(Con, Some("untitled"), Some("code"));
    var w := WorkspaceNode(Some("2"), Some(2), [code, code]);
    assert Windows(code) == [code];
    assert Windows(w) == [code, code] by {
      assert WindowsIn(w.nodes, 1) == [code];
      assert WindowsIn(w.nodes, 2) == WindowsIn(w.nodes, 1) + Windows(code);
    }
    var pair := WindowName(Some("code"), Some("untitled"));
    assert WindowNames([code, code]) == [pair, pair];
    assert SortedSet([pair, pair]) == [pair] by {
      assert [pair, pair][..1] == [pair];
      assert SortedSet([pair]) == [pair] by {
        assert [pair][..0] == [];
      }
    }
  }

  /** A workspace without a number fails instead of taking the one-space
      label. */
  lemma MissingNumberFails()
    ensures WorkspaceUpdate(Sworkstyle(Config(SampleIcons), false), WorkspaceNode(Some("misc"), None, []))
      == Err(MissingIndex("misc"))
  {
  }

  /** The scratchpad is skipped; a workspace beside it is collected. */
  lemma ScratchpadSkipped()
    ensures var scratch := WorkspaceNode(Some(Scratchpad), None, []);
      var one := WorkspaceNode(Some("1"), Some(1), []);
      Workspaces(Node(Root, 0, Some("root"), None, None, None, [scratch, one], [])) == [one]
  {
    var scratch := WorkspaceNode(Some(Scratchpad), None, []);
    var one := WorkspaceNode(Some("1"), Some(1), []);
    var root := Node(Root, 0, Some("root"), None, None, None, [scratch, one], []);
    assert Workspaces(scratch) == [];
    assert WorkspacesIn(root.nodes, 1) == [] by {
      assert WorkspacesIn(root.nodes, 1) == WorkspacesIn(root.nodes, 0) + Workspaces(scratch);
    }
    assert "1" != Scratchpad;
    assert Workspaces(one) == [one];
    assert WorkspacesIn(root.nodes, 2) == WorkspacesIn(root.nodes, 1) + Workspaces(one);
  }

  /** A container whose title is present but empty is still listed, and a
      floating window comes after the tiled ones. */
  lemma EmptyTitleIsListed()
    ensures var blank := Container(Con, Some(""), Some("term"));
      var unnamed := Container(Con, None, None);
      var floating := Container(FloatingCon, Some("dialog"), Some("app"));
      var w := Node(Workspace, 1, Some("4"), Some(4), None, None, [unnamed, blank], [floating]);
      Windows(w) == [blank, floating]
  {
    var blank := Container(Con, Some(""), Some("term"));
    var unnamed := Container(Con, None, None);
    var floating := Container(FloatingCon, Some("dialog"), Some("app"));
    var w := Node(Workspace, 1, Some("4"), Some(4), None, None, [unnamed, blank], [floating]);
    assert Windows(unnamed) == [];
    assert Windows(blank) == [blank];
    assert Windows(floating) == [floating];
    assert WindowsIn(w.nodes, 2) == [blank] by {
      assert WindowsIn(w.nodes, 1) == [];
    }
    assert WindowsIn(w.floatingNodes, 1) == [floating];
  }
}
