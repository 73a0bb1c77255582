# Workspace-label synthesis of swayest_workstyle, in Dafny

swayest_workstyle is a daemon for the sway/i3 compositor. It renames every
workspace to its number followed by one icon per window in it. With
`deduplicate` set, it shows one icon per distinct (application, title)
pair instead, and drops an icon equal to its left neighbour. On each
window event it fetches the layout tree and collects the workspaces,
skipping the scratchpad `__i3_scratch`. It collects the windows of each
workspace and turns them into icons through the configuration. When the
label has changed, it sends `rename workspace "<old>" to "<new>"`.

This project models that pipeline from `src/lib.rs`:

- `base.dfy`: module `Base`, with `Option` and `Result`.
- `text.dfy`: module `Text`. It has decimal rendering of the workspace
  number with its inverse, `join`, and the lexicographic order of Rust
  strings.
- `tree.dfy`: module `Tree`. It has the layout `Node`, the two walkers
  `get_workspaces_recurse` and `get_windows` as methods that extend the
  caller's vector, their reference definitions, and lemmas about which
  nodes they collect and in what order.
- `label.dfy`: module `Label`. It has the stages of
  `update_workspace_name`: identity resolution, the `BTreeSet`
  deduplication of `(exact name, title)` pairs, icon lookup and wrapping in
  U+202D/U+202C, `Vec::dedup`, the label format and the rename command.
- `workstyle.dfy`: module `Workstyle`. It has one workspace's update, step
  by step, and the loop of `update_workspaces`.
- `scenarios.dfy`: module `Scenarios`, concrete cases on small trees.

Strings are sequences of Unicode scalar values. Comparing them by code
point gives the same order as comparing their UTF-8 bytes, which is the
order `Ord for String` uses. The configuration store is a parameter:
`fetchIcon`, a total function from an exact name and an optional title to
an icon. The compositor connection is not modelled. The tree that
`get_tree` would return is the input, and the commands that `run_command`
would receive are the output.

Where the documented design and the code disagree, the model follows the
code:

- A window is listed when its name is present, even if it is empty
  (src/lib.rs:228).
- A workspace without a number is an error before any rename
  (src/lib.rs:180-183), so the `" "` label (src/lib.rs:196-201) is never
  produced.
- The first failing workspace ends `update_workspaces` (src/lib.rs:107).
  Renames already sent for earlier workspaces stay sent, so one update is
  modelled as a `Run`: the commands sent plus how the update ended.
- The workspace walker does not stop at the scratchpad workspace. It walks
  the scratchpad's tiled children like those of any other node
  (src/lib.rs:215-222).

## Model

| member | source | states |
|---|---|---|
| `Tree.GetWorkspacesRecurse` | src/lib.rs:214-223 | appends exactly `Workspaces(node)`, in walk order, after the caller's elements, which are unchanged |
| `Tree.WorkspacesAreWorkspaces` | src/lib.rs:215-216 | every collected node has type Workspace and a name other than `Some("__i3_scratch")` |
| `Tree.WorkspacePathsLocate` | src/lib.rs:220-222 | the k-th collected node is the node at the k-th position, a path through tiled `nodes` only, never `floating_nodes` |
| `Tree.WorkspacePathsExact` | src/lib.rs:214-223 | a position is collected iff the node there is a non-scratchpad workspace and no node above it on the path is one |
| `Tree.WorkspacesNotNested` | src/lib.rs:216-217 | no collected position is a proper prefix of another, so nothing below a collected workspace is collected |
| `Tree.WorkspacesInPreorder` | src/lib.rs:220-222 | the collected positions are strictly increasing in lexicographic order, which is pre-order |
| `Tree.GetWindows` | src/lib.rs:226-236 | appends exactly `Windows(node)` after the caller's elements, which are unchanged |
| `Tree.WindowsExact` | src/lib.rs:227-230 | a node is listed iff it is a Con or FloatingCon with a present name and lies in the subtree, through tiled or floating children, the starting node included |
| `Tree.WindowsArePreOrderFiltered` | src/lib.rs:233-235 | the list is the pre-order walk (tiled children before floating children at each level) keeping only the windows |
| `Label.ExactName` | src/lib.rs:124-136 | the X11 class when present, else the Wayland `app_id` when present, else none |
| `Label.WindowNames` | src/lib.rs:121-140 | one pair per window in window order: its exact name and its name unchanged as title |
| `Label.SortedSet` | src/lib.rs:142-148 | the result is strictly ascending (None first, exact name before title) and has the same elements as the input |
| `Label.SortedSetCanonical` | src/lib.rs:142-148 | the set pass yields the unique strictly ascending listing of the input's distinct pairs |
| `Label.NameLessTotal` | src/lib.rs:145 | any two different pairs are ordered one way or the other |
| `Label.NameLessTransitive` | src/lib.rs:145 | the pair order is transitive |
| `Label.IconOf` | src/lib.rs:152-168 | the icon is U+202D, then `fetch_icon(exact or "", title)`, then U+202C |
| `Label.Icons` | src/lib.rs:150-169 | one non-empty icon per pair, in pair order |
| `Label.DedupAdjacentDistinct` | src/lib.rs:185-187 | after `dedup` no two neighbouring icons are equal |
| `Label.DedupAdjacentRuns` | src/lib.rs:185-187 | `dedup` removes only repeats of a neighbour: the input is the output with each element repeated one or more times in place |
| `Label.DedupAdjacentKeeps` | src/lib.rs:185-187 | `dedup` drops no value altogether: every input element is still present |
| `Label.IconsOfWindowPairs` | src/lib.rs:121-169 | icons built from any listing of the windows' pairs, such as the set pass, are exactly the windows' own icons |
| `Label.DedupAdjacentIdempotent` | src/lib.rs:185-187 | deduplicating twice is deduplicating once |
| `Label.FormatLabel` | src/lib.rs:189-201 | the label starts with the decimal number and is never the single-space fallback |
| `Label.LabelShape` | src/lib.rs:189-197 | no icons gives the bare number; otherwise number, `": "`, the icons joined by single spaces, and one space after the last icon |
| `Label.LabelIndexRoundTrip` | src/lib.rs:194-197 | the workspace number can be read back from the label |
| `Label.RenameRoundTrip` | src/lib.rs:206 | when the current name has no double quote, the command determines both names |
| `Label.RenameAmbiguousWithQuotes` | src/lib.rs:206 | names are not escaped, so two different renames can give the same command text |
| `Text.IntToDecimalRoundTrip` | src/lib.rs:195-197 | the decimal rendering of the number reads back to the same number |
| `Text.JoinNonEmpty` | src/lib.rs:189-192 | with non-empty elements, `join` is empty iff the list is, and it ends with the last element |
| `Text.StrLessTotal` | src/lib.rs:145 | any two different strings are ordered one way or the other |
| `Workstyle.WorkspaceIcons` | src/lib.rs:121-187 | every icon is non-empty; without deduplication there is one per window; with it no two neighbours are equal |
| `Workstyle.WorkspaceIconsFromWindows` | src/lib.rs:118-187 | every shown icon is the icon of some window of the workspace and every window's icon is shown; without deduplication the i-th icon is the i-th window's |
| `Workstyle.UpdateWorkspaceName` | src/lib.rs:113-211 | the step-by-step update gives exactly the error, the absence of a command, or the command of `WorkspaceUpdate` |
| `Workstyle.ErrorConditions` | src/lib.rs:171-183 | a missing name gives `MissingName(id)`; a missing number gives `MissingIndex(name)`; otherwise the update succeeds |
| `Workstyle.RenameDecision` | src/lib.rs:194-208 | no command iff the name equals the label; otherwise exactly `rename workspace "<name>" to "<label>"`; the label reads back to the number and is never `" "` |
| `Workstyle.RenameIdempotent` | src/lib.rs:203-208 | a workspace renamed to its label gets the same label again, and no command |
| `Workstyle.FirstFailure` | src/lib.rs:106-108 | every outcome before the returned position succeeds, and the one at it, if any, fails |
| `Workstyle.OutcomesAt` | src/lib.rs:106-107 | the k-th outcome of the loop is the update of the k-th workspace |
| `Workstyle.SequenceStopsAtFirstError` | src/lib.rs:106-110 | `?` in the loop: the commands are those of the outcomes before the first failure, and the run ends with that failure, or succeeds when there is none |
| `Workstyle.UpdateAllStopsAtFirstError` | src/lib.rs:100-111 | all workspaces before the first failing one succeed; the commands sent are theirs, in walker order; the run ends with that workspace's error, or succeeds when none fails |
| `Workstyle.UpdateAllCommandsFromWorkspaces` | src/lib.rs:106-108 | every command sent is the rename that some workspace of the list asked for |
| `Workstyle.UpdateTreeRenamesWorkspaces` | src/lib.rs:100-108 | every command renames a collected workspace, never the scratchpad, from its name to its label |
| `Workstyle.SettledTreeIsQuiet` | src/lib.rs:100-111 | when every collected workspace has a number and its name already is its label, an update sends nothing and succeeds |
| `Workstyle.UpdateInOrder` | src/lib.rs:106-110 | the loop with early return gives exactly `UpdateAll` of the workspaces |
| `Workstyle.UpdateWorkspaces` | src/lib.rs:100-111 | walking the tree and then looping gives exactly `UpdateTree` of the snapshot |
| `Scenarios.EmptyWorkspaceIsBareNumber` | src/lib.rs:194-197 | workspace 3 with no windows is renamed to `"3"` |
| `Scenarios.SingleWindow` | src/lib.rs:150-197 | workspace 1 with one Firefox window is renamed to `"1: \u{202D}F\u{202C} "`, the icon wrapped in the override marks |
| `Scenarios.DeduplicationCollapsesEqualPairs` | src/lib.rs:142-148 | two windows with equal identity and title show one icon with deduplication and two without |
| `Scenarios.MissingNumberFails` | src/lib.rs:180-183 | a workspace without a number fails with `MissingIndex` |
| `Scenarios.ScratchpadSkipped` | src/lib.rs:215 | the scratchpad is skipped and the workspace beside it collected |
| `Scenarios.EmptyTitleIsListed` | src/lib.rs:227-235 | a container with an empty but present title is listed, an unnamed one is not, and floating windows follow tiled ones |

## Left out

- `Sworkstyle::run` (src/lib.rs:56-98) is left out. It polls the event stream, reloads the configuration on an inotify event and sleeps. This is event and file-system I/O.
- `Sworkstyle::new` (src/lib.rs:31-54) is left out. It sets up inotify and checks that files exist.
- The config module is not part of this model. `Config::new` is left out, and `fetch_icon` is an arbitrary total function given as a parameter.
- `get_tree` and `run_command` are foreign calls to the compositor, and their connection errors are not modelled. The tree is an input. Every rename command is taken to be accepted.
- Logging (`debug!`, `error!`) has no effect on the results and is left out.
- Nodes are copied values, not references into one snapshot. The workspace walker's positions are paths of child indices, which stand in for node identity.
- `Node.num` is an `i32` in the compositor's protocol. The model uses an unbounded integer. Decimal rendering agrees on every `i32` value.
- `get_windows` walks `nodes.iter().chain(floating_nodes.iter())` in one loop. The model uses two consecutive loops, which visit the children in the same order.
- `Vec::dedup` works in place. The model computes the deduplicated list as a value.
- `BTreeSet` is modelled as a strictly ascending sequence, built by ordered insertion.
- Renaming a workspace inside the compositor is not modelled. Idempotence is proved for a workspace whose name has been replaced by its label (`Workstyle.RenameIdempotent`) and for a tree in which every collected workspace has a number and already carries its label (`Workstyle.SettledTreeIsQuiet`).
