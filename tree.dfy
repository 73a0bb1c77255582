/** The compositor's layout tree and the two walkers over it:
    `get_workspaces_recurse` collects the workspaces to label and
    `get_windows` collects the windows of one workspace. Both push into a
    vector the caller owns; here the vector is passed in and the extended
    vector handed back. */
module Tree {
  import opened Base

  datatype NodeType = Root | Output | Con | FloatingCon | Workspace | Dockarea

  /** The X11 properties of a window; only the class is read. */
  datatype WindowProperties = WindowProperties(windowClass: Option<string>)

  /** One node of a layout-tree snapshot. `nodes` are the tiled children,
      `floatingNodes` the floating ones. */
  datatype Node = Node(
    nodeType: NodeType,
    id: int,
    name: Option<string>,
    num: Option<int>,
    appId: Option<string>,
    windowProperties: Option<WindowProperties>,
    nodes: seq<Node>,
    floatingNodes: seq<Node>)

  /** The reserved name of the scratchpad pseudo-workspace. */
  const Scratchpad: string := "__i3_scratch"

  /** A node the workspace walker collects (and stops at). */
  predicate IsCollectedWorkspace(n: Node)
  {
    n.nodeType == Workspace && n.name != Some(Scratchpad)
  }

  // =====================================================================
  // get_workspaces_recurse
  // =====================================================================

  /** What `get_workspaces_recurse(n, v)` appends to `v`. */
  function Workspaces(n: Node): seq<Node>
    decreases n
  {
    if IsCollectedWorkspace(n) then [n] else WorkspacesIn(n.nodes, |n.nodes|)
  }

  /** What the walker appends for the first `k` nodes of `ns`, in order. */
  function WorkspacesIn(ns: seq<Node>, k: nat): seq<Node>
    requires k <= |ns|
    decreases ns, k
  {
    if k == 0 then [] else WorkspacesIn(ns, k - 1) + Workspaces(ns[k - 1])
  }

  /** `get_workspaces_recurse`: a collected workspace is pushed and not
      descended into; any other node (the scratchpad included) has its tiled
      children walked in order. */
  method GetWorkspacesRecurse(node: Node, workspaces: seq<Node>) returns (workspaces': seq<Node>)
    ensures workspaces' == workspaces + Workspaces(node)
    decreases node
  {
    if node.nodeType == Workspace && node.name != Some(Scratchpad) {
      workspaces' := workspaces + [node];
      return;
    }
    workspaces' := workspaces;
    for i := 0 to |node.nodes|
      invariant workspaces' == workspaces + WorkspacesIn(node.nodes, i)
    {
      workspaces' := GetWorkspacesRecurse(node.nodes[i], workspaces');
    }
  }

  /** Every collected node is a workspace other than the scratchpad. */
  lemma {:induction false} WorkspacesAreWorkspaces(n: Node)
    ensures forall w :: w in Workspaces(n) ==> w.nodeType == Workspace && w.name != Some(Scratchpad)
    decreases n
  {
    if !IsCollectedWorkspace(n) {
      WorkspacesInAreWorkspaces(n.nodes, |n.nodes|);
    }
  }

  lemma {:induction false} WorkspacesInAreWorkspaces(ns: seq<Node>, k: nat)
    requires k <= |ns|
    ensures forall w :: w in WorkspacesIn(ns, k) ==> w.nodeType == Workspace && w.name != Some(Scratchpad)
    decreases ns, k
  {
    if k > 0 {
      WorkspacesInAreWorkspaces(ns, k - 1);
      WorkspacesAreWorkspaces(ns[k - 1]);
    }
  }

  // ---------------------------------------------------------------------
  // Positions. A node is identified by its path of indices into `nodes`
  // from the root; the walker never looks at `floatingNodes`.
  // ---------------------------------------------------------------------

  /** The node reached from `n` by following the tiled children named in `p`. */
  function At(n: Node, p: seq<nat>): Option<Node>
    decreases |p|
  {
    if p == [] then Some(n)
    else if p[0] < |n.nodes| then At(n.nodes[p[0]], p[1..])
    else None
  }

  /** The node reached from the forest `ns` by following `p`. */
  function AtIn(ns: seq<Node>, p: seq<nat>): Option<Node>
  {
    if p != [] && p[0] < |ns| then At(ns[p[0]], p[1..]) else None
  }

  /** Reference definition of where a workspace is collected: the tiled path
      `p` leads from `n` to a collected workspace, and no node strictly above
      it on the path is a collected workspace. */
  predicate FirstWorkspaceAt(n: Node, p: seq<nat>)
    decreases |p|
  {
    if p == [] then IsCollectedWorkspace(n)
    else !IsCollectedWorkspace(n) && p[0] < |n.nodes| && FirstWorkspaceAt(n.nodes[p[0]], p[1..])
  }

  function Prefixed(i: nat, ps: seq<seq<nat>>): (r: seq<seq<nat>>)
    ensures |r| == |ps|
    ensures forall j :: 0 <= j < |ps| ==> r[j] == [i] + ps[j]
  {
    seq(|ps|, j requires 0 <= j < |ps| => [i] + ps[j])
  }

  /** The paths of the nodes in `Workspaces(n)`, element by element. */
  ghost function WorkspacePaths(n: Node): seq<seq<nat>>
    decreases n
  {
    if IsCollectedWorkspace(n) then [[]] else WorkspacePathsIn(n.nodes, |n.nodes|)
  }

  ghost function WorkspacePathsIn(ns: seq<Node>, k: nat): seq<seq<nat>>
    requires k <= |ns|
    decreases ns, k
  {
    if k == 0 then [] else WorkspacePathsIn(ns, k - 1) + Prefixed(k - 1, WorkspacePaths(ns[k - 1]))
  }

  lemma PrefixedMember(i: nat, ps: seq<seq<nat>>, p: seq<nat>)
    ensures p in Prefixed(i, ps) <==> p != [] && p[0] == i && p[1..] in ps
  {
    if p != [] && p[0] == i && p[1..] in ps {
      var j :| 0 <= j < |ps| && ps[j] == p[1..];
      assert Prefixed(i, ps)[j] == p;
    }
    if p in Prefixed(i, ps) {
      var j :| 0 <= j < |ps| && Prefixed(i, ps)[j] == p;
      assert p[1..] == ps[j];
    }
  }

  /** The k-th path locates the k-th collected workspace. */
  lemma {:induction false} WorkspacePathsLocate(n: Node)
    ensures |WorkspacePaths(n)| == |Workspaces(n)|
    ensures forall k :: 0 <= k < |Workspaces(n)| ==> At(n, WorkspacePaths(n)[k]) == Some(Workspaces(n)[k])
    decreases n
  {
    if !IsCollectedWorkspace(n) {
      WorkspacePathsInLocate(n.nodes, |n.nodes|);
      forall k | 0 <= k < |Workspaces(n)|
        ensures At(n, WorkspacePaths(n)[k]) == Some(Workspaces(n)[k])
      {
        assert AtIn(n.nodes, WorkspacePaths(n)[k]) == Some(Workspaces(n)[k]);
      }
    }
  }

  lemma {:induction false} WorkspacePathsInLocate(ns: seq<Node>, k: nat)
    requires k <= |ns|
    ensures |WorkspacePathsIn(ns, k)| == |WorkspacesIn(ns, k)|
    ensures forall j :: 0 <= j < |WorkspacesIn(ns, k)| ==>
      AtIn(ns, WorkspacePathsIn(ns, k)[j]) == Some(WorkspacesIn(ns, k)[j])
    decreases ns, k
  {
    if k > 0 {
      WorkspacePathsInLocate(ns, k - 1);
      WorkspacePathsLocate(ns[k - 1]);
      var left := |WorkspacesIn(ns, k - 1)|;
      forall j | 0 <= j < |WorkspacesIn(ns, k)|
        ensures AtIn(ns, WorkspacePathsIn(ns, k)[j]) == Some(WorkspacesIn(ns, k)[j])
      {
        if j >= left {
          var q := WorkspacePaths(ns[k - 1])[j - left];
          assert WorkspacePathsIn(ns, k)[j] == [k - 1] + q;
          assert ([k - 1] + q)[1..] == q;
        }
      }
    }
  }

  /** The paths of the collected workspaces are exactly the paths the
      reference definition names: the walker collects every workspace above
      which there is none, and nothing else. */
  lemma {:induction false} WorkspacePathsExact(n: Node, p: seq<nat>)
    ensures p in WorkspacePaths(n) <==> FirstWorkspaceAt(n, p)
    decreases n
  {
    if !IsCollectedWorkspace(n) {
      WorkspacePathsInExact(n.nodes, |n.nodes|, p);
    }
  }

  lemma {:induction false} WorkspacePathsInExact(ns: seq<Node>, k: nat, p: seq<nat>)
    requires k <= |ns|
    ensures p in WorkspacePathsIn(ns, k) <==> p != [] && p[0] < k && FirstWorkspaceAt(ns[p[0]], p[1..])
    decreases ns, k
  {
    if k > 0 {
      WorkspacePathsInExact(ns, k - 1, p);
      PrefixedMember(k - 1, WorkspacePaths(ns[k - 1]), p);
      if p != [] && p[0] == k - 1 {
        WorkspacePathsExact(ns[k - 1], p[1..]);
      }
    }
  }

  lemma {:induction false} FirstWorkspaceUnique(n: Node, p: seq<nat>, q: seq<nat>)
    requires FirstWorkspaceAt(n, p) && FirstWorkspaceAt(n, q)
    requires |q| <= |p| && p[..|q|] == q
    ensures p == q
    decreases |q|
  {
    if q != [] {
      assert p[0] == q[0];
      assert p[1..][..|q| - 1] == q[1..];
      FirstWorkspaceUnique(n.nodes[p[0]], p[1..], q[1..]);
      assert p == [p[0]] + p[1..];
      assert q == [q[0]] + q[1..];
    }
  }

  /** No collected workspace lies below another collected workspace: the
      position of one is never a proper prefix of the position of another. */
  lemma WorkspacesNotNested(n: Node, p: seq<nat>, q: seq<nat>)
    requires p in WorkspacePaths(n) && q in WorkspacePaths(n)
    requires |q| <= |p| && p[..|q|] == q
    ensures p == q
  {
    WorkspacePathsExact(n, p);
    WorkspacePathsExact(n, q);
    FirstWorkspaceUnique(n, p, q);
  }

  /** Lexicographic order on paths, i.e. the order of a pre-order walk. */
  predicate PathLess(a: seq<nat>, b: seq<nat>)
  {
    if |a| == 0 then |b| > 0
    else if |b| == 0 then false
    else if a[0] != b[0] then a[0] < b[0]
    else PathLess(a[1..], b[1..])
  }

  /** The walker collects in pre-order: the positions are strictly increasing. */
  lemma {:induction false} WorkspacesInPreorder(n: Node)
    ensures forall i, j :: 0 <= i < j < |WorkspacePaths(n)| ==> PathLess(WorkspacePaths(n)[i], WorkspacePaths(n)[j])
    decreases n
  {
    if !IsCollectedWorkspace(n) {
      WorkspacesInPreorderIn(n.nodes, |n.nodes|);
    }
  }

  lemma {:induction false} WorkspacesInPreorderIn(ns: seq<Node>, k: nat)
    requires k <= |ns|
    ensures forall p :: p in WorkspacePathsIn(ns, k) ==> p != [] && p[0] < k
    ensures forall i, j :: 0 <= i < j < |WorkspacePathsIn(ns, k)| ==>
      PathLess(WorkspacePathsIn(ns, k)[i], WorkspacePathsIn(ns, k)[j])
    decreases ns, k
  {
    if k > 0 {
      WorkspacesInPreorderIn(ns, k - 1);
      WorkspacesInPreorder(ns[k - 1]);
      var left := WorkspacePathsIn(ns, k - 1);
      var sub := WorkspacePaths(ns[k - 1]);
      var all := WorkspacePathsIn(ns, k);
      assert all == left + Prefixed(k - 1, sub);
      forall p | p in all ensures p != [] && p[0] < k {
        PrefixedMember(k - 1, sub, p);
      }
      forall i, j | 0 <= i < j < |all| ensures PathLess(all[i], all[j]) {
        if j >= |left| {
          assert all[j] == [k - 1] + sub[j - |left|];
          if i >= |left| {
            assert all[i] == [k - 1] + sub[i - |left|];
            assert all[i][1..] == sub[i - |left|];
            assert all[j][1..] == sub[j - |left|];
          } else {
            assert all[i] in left;
          }
        }
      }
    }
  }

  // =====================================================================
  // get_windows
  // =====================================================================

  /** A node `get_windows` lists: a tiled or floating container whose name
      is present (an empty name still counts). */
  predicate IsWindow(n: Node)
  {
    (n.nodeType == FloatingCon || n.nodeType == Con) && n.name.Some?
  }

  /** What `get_windows(n, v)` appends to `v`: `n` itself if it is a window,
      then the windows below each tiled child, then those below each
      floating child. */
  function Windows(n: Node): seq<Node>
    decreases n
  {
    (if IsWindow(n) then [n] else [])
      + WindowsIn(n.nodes, |n.nodes|)
      + WindowsIn(n.floatingNodes, |n.floatingNodes|)
  }

  function WindowsIn(ns: seq<Node>, k: nat): seq<Node>
    requires k <= |ns|
    decreases ns, k
  {
    if k == 0 then [] else WindowsIn(ns, k - 1) + Windows(ns[k - 1])
  }

  /** Concatenation is associative. */
  lemma AppendAssoc<T>(a: seq<T>, b: seq<T>, c: seq<T>)
    ensures a + b + c == a + (b + c)
  {
  }

  /** `get_windows`. The Rust code walks `nodes` chained with `floatingNodes` in
      one loop; here the chain is two consecutive loops. */
  method GetWindows(node: Node, windows: seq<Node>) returns (windows': seq<Node>)
    ensures windows' == windows + Windows(node)
    decreases node
  {
    windows' := windows;
    if node.nodeType == FloatingCon || node.nodeType == Con {
      if node.name.Some? {
        windows' := windows' + [node];
      }
    }
    ghost var self: seq<Node> := if IsWindow(node) then [node] else [];
    ghost var own := windows';
    for i := 0 to |node.nodes|
      invariant windows' == own + WindowsIn(node.nodes, i)
    {
      AppendAssoc(own, WindowsIn(node.nodes, i), Windows(node.nodes[i]));
      windows' := GetWindows(node.nodes[i], windows');
    }
    ghost var tiled := windows';
    for i := 0 to |node.floatingNodes|
      invariant windows' == tiled + WindowsIn(node.floatingNodes, i)
    {
      AppendAssoc(tiled, WindowsIn(node.floatingNodes, i), Windows(node.floatingNodes[i]));
      windows' := GetWindows(node.floatingNodes[i], windows');
    }
    ghost var below := WindowsIn(node.nodes, |node.nodes|);
    ghost var floating := WindowsIn(node.floatingNodes, |node.floatingNodes|);
    AppendAssoc(windows + self, below, floating);
    AppendAssoc(windows, self, below + floating);
    AppendAssoc(self, below, floating);
  }

  /** `x` is `n` or lies below it, through tiled or floating children. */
  predicate InSubtree(x: Node, n: Node)
    decreases n
  {
    x == n
    || (exists i :: 0 <= i < |n.nodes| && InSubtree(x, n.nodes[i]))
    || (exists i :: 0 <= i < |n.floatingNodes| && InSubtree(x, n.floatingNodes[i]))
  }

  /** `get_windows` lists exactly the named containers of the subtree. */
  lemma {:induction false} WindowsExact(n: Node, x: Node)
    ensures x in Windows(n) <==> IsWindow(x) && InSubtree(x, n)
    decreases n
  {
    WindowsInExact(n.nodes, |n.nodes|, x);
    WindowsInExact(n.floatingNodes, |n.floatingNodes|, x);
  }

  lemma {:induction false} WindowsInExact(ns: seq<Node>, k: nat, x: Node)
    requires k <= |ns|
    ensures x in WindowsIn(ns, k) <==> IsWindow(x) && exists i :: 0 <= i < k && InSubtree(x, ns[i])
    decreases ns, k
  {
    if k > 0 {
      WindowsInExact(ns, k - 1, x);
      WindowsExact(ns[k - 1], x);
      if IsWindow(x) && InSubtree(x, ns[k - 1]) {
        assert exists i :: 0 <= i < k && InSubtree(x, ns[i]);
      }
      if exists i :: 0 <= i < k && InSubtree(x, ns[i]) {
        var i :| 0 <= i < k && InSubtree(x, ns[i]);
        if i < k - 1 {
          assert exists i' :: 0 <= i' < k - 1 && InSubtree(x, ns[i']);
        }
      }
    }
  }

  // ---------------------------------------------------------------------
  // Order: the windows are the named containers of a pre-order walk
  // ---------------------------------------------------------------------

  /** Every node of the subtree in pre-order, tiled children before floating
      children at each level. */
  function PreOrder(n: Node): seq<Node>
    decreases n
  {
    [n] + PreOrderIn(n.nodes, |n.nodes|) + PreOrderIn(n.floatingNodes, |n.floatingNodes|)
  }

  function PreOrderIn(ns: seq<Node>, k: nat): seq<Node>
    requires k <= |ns|
    decreases ns, k
  {
    if k == 0 then [] else PreOrderIn(ns, k - 1) + PreOrder(ns[k - 1])
  }

  /** The nodes of `s` that are windows, in their order. */
  function FilterWindows(s: seq<Node>): seq<Node>
  {
    if s == [] then [] else (if IsWindow(s[0]) then [s[0]] else []) + FilterWindows(s[1..])
  }

  lemma {:induction false} FilterWindowsConcat(a: seq<Node>, b: seq<Node>)
    ensures FilterWindows(a + b) == FilterWindows(a) + FilterWindows(b)
  {
    if a == [] {
      assert a + b == b;
    } else {
      assert (a + b)[1..] == a[1..] + b;
      FilterWindowsConcat(a[1..], b);
    }
  }

  /** `get_windows` is the pre-order walk filtered to windows. */
  lemma {:induction false} WindowsArePreOrderFiltered(n: Node)
    ensures Windows(n) == FilterWindows(PreOrder(n))
    decreases n
  {
    WindowsInArePreOrderFiltered(n.nodes, |n.nodes|);
    WindowsInArePreOrderFiltered(n.floatingNodes, |n.floatingNodes|);
    var t := PreOrderIn(n.nodes, |n.nodes|);
    var f := PreOrderIn(n.floatingNodes, |n.floatingNodes|);
    assert PreOrder(n) == [n] + (t + f);
    FilterWindowsConcat([n], t + f);
    FilterWindowsConcat(t, f);
    assert FilterWindows([n]) == if IsWindow(n) then [n] else [];
  }

  lemma {:induction false} WindowsInArePreOrderFiltered(ns: seq<Node>, k: nat)
    requires k <= |ns|
    ensures WindowsIn(ns, k) == FilterWindows(PreOrderIn(ns, k))
    decreases ns, k
  {
    if k > 0 {
      WindowsInArePreOrderFiltered(ns, k - 1);
      WindowsArePreOrderFiltered(ns[k - 1]);
      FilterWindowsConcat(PreOrderIn(ns, k - 1), PreOrder(ns[k - 1]));
    }
  }
}
