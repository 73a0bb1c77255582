/** The stages of `update_workspace_name` that turn a workspace's windows
    into its label: identity resolution, the optional set-based
    deduplication of identity pairs, icon lookup and wrapping, the optional
    removal of repeated icons, the label format and the rename command. */
module Label {
  import opened Base
  import opened Text
  import opened Tree

  // =====================================================================
  // Identity resolution
  // =====================================================================

  /** The pair a window contributes: its exact application name and its
      title (the "generic" name used as a fallback by the icon lookup). */
  datatype WindowName = WindowName(exact: Option<string>, generic: Option<string>)

  predicate HasClass(n: Node)
  {
    n.windowProperties.Some? && n.windowProperties.value.windowClass.Some?
  }

  /** The exact name: start from the Wayland `app_id`, then let the X11
      class overwrite it when there is one. */
  function ExactName(n: Node): (r: Option<string>)
    ensures HasClass(n) ==> r == n.windowProperties.value.windowClass
    ensures !HasClass(n) ==> r == n.appId
    ensures r.Some? <==> HasClass(n) || n.appId.Some?
  {
    var fromAppId := if n.appId.Some? then n.appId else None;
    if n.windowProperties.Some? && n.windowProperties.value.windowClass.Some?
    then n.windowProperties.value.windowClass
    else fromAppId
  }

  /** One pair per window, in window order; the title is the window's name as it is. */
  function WindowNames(windows: seq<Node>): (r: seq<WindowName>)
    ensures |r| == |windows|
    ensures forall i :: 0 <= i < |r| ==> r[i].exact == ExactName(windows[i]) && r[i].generic == windows[i].name
  {
    seq(|windows|, i requires 0 <= i < |windows| => WindowName(ExactName(windows[i]), windows[i].name))
  }

  // =====================================================================
  // The order of `(Option<&String>, Option<String>)` and the BTreeSet pass
  // =====================================================================

  /** `Option`'s derived order: `None` first, then the strings in order. */
  predicate OptLess(a: Option<string>, b: Option<string>)
  {
    match (a, b)
    case (None, Some(_)) => true
    case (Some(x), Some(y)) => StrLess(x, y)
    case _ => false
  }

  /** The tuple's derived order: exact name first, then title. */
  predicate NameLess(a: WindowName, b: WindowName)
  {
    OptLess(a.exact, b.exact) || (a.exact == b.exact && OptLess(a.generic, b.generic))
  }

  lemma OptLessIrreflexive(a: Option<string>)
    ensures !OptLess(a, a)
  {
    if a.Some? { StrLessIrreflexive(a.value); }
  }

  lemma OptLessTransitive(a: Option<string>, b: Option<string>, c: Option<string>)
    requires OptLess(a, b) && OptLess(b, c)
    ensures OptLess(a, c)
  {
    if a.Some? { StrLessTransitive(a.value, b.value, c.value); }
  }

  lemma OptLessTotal(a: Option<string>, b: Option<string>)
    ensures a == b || OptLess(a, b) || OptLess(b, a)
  {
    if a.Some? && b.Some? { StrLessTotal(a.value, b.value); }
  }

  /** `NameLess` is a strict total order. */
  lemma NameLessIrreflexive(a: WindowName)
    ensures !NameLess(a, a)
  {
    OptLessIrreflexive(a.exact);
    OptLessIrreflexive(a.generic);
  }

  lemma NameLessTransitive(a: WindowName, b: WindowName, c: WindowName)
    requires NameLess(a, b) && NameLess(b, c)
    ensures NameLess(a, c)
  {
    if OptLess(a.exact, b.exact) && OptLess(b.exact, c.exact) {
      OptLessTransitive(a.exact, b.exact, c.exact);
    } else if a.exact == b.exact == c.exact {
      OptLessTransitive(a.generic, b.generic, c.generic);
    }
  }

  lemma NameLessTotal(a: WindowName, b: WindowName)
    ensures a == b || NameLess(a, b) || NameLess(b, a)
  {
    OptLessTotal(a.exact, b.exact);
    OptLessTotal(a.generic, b.generic);
  }

  predicate StrictlyAscending(s: seq<WindowName>)
  {
    forall i, j :: 0 <= i < j < |s| ==> NameLess(s[i], s[j])
  }

  /** `BTreeSet::insert` on the ascending listing of a set. */
  function Insert(s: seq<WindowName>, x: WindowName): (r: seq<WindowName>)
    requires StrictlyAscending(s)
    ensures StrictlyAscending(r)
    ensures forall e :: e in r <==> e in s || e == x
  {
    if s == [] then [x]
    else if x == s[0] then s
    else if NameLess(x, s[0]) then
      assert forall j :: 0 < j < |s| ==> NameLess(s[0], s[j]);
      forall j | 0 < j < |s| ensures NameLess(x, s[j]) { NameLessTransitive(x, s[0], s[j]); }
      [x] + s
    else
      NameLessTotal(x, s[0]);
      var t := Insert(s[1..], x);
      assert forall e :: e in t ==> NameLess(s[0], e);
      [s[0]] + t
  }

  /** Collecting into a `BTreeSet` and back: the distinct pairs, ascending. */
  function SortedSet(s: seq<WindowName>): (r: seq<WindowName>)
    ensures StrictlyAscending(r)
    ensures forall e :: e in r <==> e in s
  {
    if s == [] then [] else Insert(SortedSet(s[..|s| - 1]), s[|s| - 1])
  }

  lemma {:induction false} AscendingUnique(a: seq<WindowName>, b: seq<WindowName>)
    requires StrictlyAscending(a) && StrictlyAscending(b)
    requires forall e :: e in a <==> e in b
    ensures a == b
    decreases |a|
  {
    assert a != [] ==> a[0] in b;
    assert b != [] ==> b[0] in a;
    if a != [] && b != [] {
      assert a[0] in b && b[0] in a;
      if a[0] != b[0] {
        var i :| 0 <= i < |b| && b[i] == a[0];
        var j :| 0 <= j < |a| && a[j] == b[0];
        assert NameLess(b[0], a[0]) && NameLess(a[0], b[0]);
        NameLessTransitive(a[0], b[0], a[0]);
        NameLessIrreflexive(a[0]);
      }
      forall e ensures e in a[1..] <==> e in b[1..] {
        if e in a[1..] {
          var k :| 1 <= k < |a| && a[k] == e;
          assert NameLess(a[0], a[k]);
          NameLessIrreflexive(e);
          assert e in a && e in b;
          var m :| 0 <= m < |b| && b[m] == e;
          assert m != 0;
          assert b[1..][m - 1] == e;
        }
        if e in b[1..] {
          var k :| 1 <= k < |b| && b[k] == e;
          assert NameLess(b[0], b[k]);
          NameLessIrreflexive(e);
          assert e in b && e in a;
          var m :| 0 <= m < |a| && a[m] == e;
          assert m != 0;
          assert a[1..][m - 1] == e;
        }
      }
      AscendingUnique(a[1..], b[1..]);
      assert a == [a[0]] + a[1..] && b == [b[0]] + b[1..];
    }
  }

  /** The set pass yields the one ascending listing of the distinct pairs:
      whatever the order and repetitions of its input. */
  lemma SortedSetCanonical(s: seq<WindowName>, t: seq<WindowName>)
    requires StrictlyAscending(t) && forall e :: e in t <==> e in s
    ensures SortedSet(s) == t
  {
    AscendingUnique(SortedSet(s), t);
  }

  // =====================================================================
  // Icons
  // =====================================================================

  /** U+202D LEFT-TO-RIGHT OVERRIDE, an explicit directional override of the
      Unicode Bidirectional Algorithm (UAX #9, section 2.2), and U+202C POP
      DIRECTIONAL FORMATTING, which terminates it (UAX #9, section 2.3). */
  const LRO: char := '\U{202D}'
  const PDF: char := '\U{202C}'

  /** The icon of one pair, looked up with the empty string when there is no
      exact name, and wrapped in the override marks. */
  function IconOf(fetchIcon: (string, Option<string>) -> string, w: WindowName): (icon: string)
    ensures |icon| >= 2 && icon[0] == LRO && icon[|icon| - 1] == PDF
    ensures icon[1..|icon| - 1] == fetchIcon(if w.exact.Some? then w.exact.value else "", w.generic)
  {
    var looked := if w.exact.Some? then fetchIcon(w.exact.value, w.generic) else fetchIcon("", w.generic);
    [LRO] + looked + [PDF]
  }

  /** One icon per pair, in the pairs' order. */
  function Icons(fetchIcon: (string, Option<string>) -> string, names: seq<WindowName>): (icons: seq<string>)
    ensures |icons| == |names|
    ensures forall i :: 0 <= i < |icons| ==> icons[i] == IconOf(fetchIcon, names[i])
    ensures forall i :: 0 <= i < |icons| ==> |icons[i]| > 0
  {
    seq(|names|, i requires 0 <= i < |names| => IconOf(fetchIcon, names[i]))
  }

  /** The icon one window would show on its own. */
  function WindowIcon(fetchIcon: (string, Option<string>) -> string, x: Node): string
  {
    IconOf(fetchIcon, WindowName(ExactName(x), x.name))
  }

  /** The pairs are exactly those of the windows. */
  lemma WindowNamesMembers(windows: seq<Node>)
    ensures forall n :: n in WindowNames(windows) <==>
      exists x :: x in windows && n == WindowName(ExactName(x), x.name)
  {
    var r := WindowNames(windows);
    forall n | n in r ensures exists x :: x in windows && n == WindowName(ExactName(x), x.name) {
      var i :| 0 <= i < |r| && r[i] == n;
      assert windows[i] in windows;
    }
    forall x | x in windows ensures WindowName(ExactName(x), x.name) in r {
      var i :| 0 <= i < |windows| && windows[i] == x;
      assert r[i] == WindowName(ExactName(x), x.name);
    }
  }

  /** The icons are exactly the icons of the pairs. */
  lemma IconsMembers(fetchIcon: (string, Option<string>) -> string, names: seq<WindowName>)
    ensures forall icon :: icon in Icons(fetchIcon, names) <==>
      exists n :: n in names && icon == IconOf(fetchIcon, n)
  {
    var icons := Icons(fetchIcon, names);
    forall icon | icon in icons ensures exists n :: n in names && icon == IconOf(fetchIcon, n) {
      var i :| 0 <= i < |icons| && icons[i] == icon;
      assert names[i] in names;
    }
    forall n | n in names ensures IconOf(fetchIcon, n) in icons {
      var i :| 0 <= i < |names| && names[i] == n;
      assert icons[i] == IconOf(fetchIcon, n);
    }
  }

  /** Icons built from any listing with the windows' pairs as its elements
      are exactly the windows' own icons. */
  lemma IconsOfWindowPairs(fetchIcon: (string, Option<string>) -> string, windows: seq<Node>, names: seq<WindowName>)
    requires forall n :: n in names <==> n in WindowNames(windows)
    ensures forall icon :: icon in Icons(fetchIcon, names) <==>
      exists x :: x in windows && icon == WindowIcon(fetchIcon, x)
  {
    IconsMembers(fetchIcon, names);
    WindowNamesMembers(windows);
    forall icon | icon in Icons(fetchIcon, names)
      ensures exists x :: x in windows && icon == WindowIcon(fetchIcon, x)
    {
      var n :| n in names && icon == IconOf(fetchIcon, n);
      var x :| x in windows && n == WindowName(ExactName(x), x.name);
      assert icon == WindowIcon(fetchIcon, x);
    }
    forall x | x in windows ensures WindowIcon(fetchIcon, x) in Icons(fetchIcon, names) {
      assert WindowName(ExactName(x), x.name) in names;
    }
  }

  // =====================================================================
  // Vec::dedup
  // =====================================================================

  /** `Vec::dedup`: every element equal to its predecessor is dropped, so the
      first element of each run of equal elements is kept. */
  function DedupAdjacent(s: seq<string>): (r: seq<string>)
    ensures |r| <= |s|
    ensures forall e :: e in r ==> e in s
    ensures s != [] ==> r != [] && r[0] == s[0] && r[|r| - 1] == s[|s| - 1]
  {
    if |s| <= 1 then s
    else if s[|s| - 1] == s[|s| - 2] then DedupAdjacent(s[..|s| - 1])
    else DedupAdjacent(s[..|s| - 1]) + [s[|s| - 1]]
  }

  predicate NoAdjacentDuplicates(s: seq<string>)
  {
    forall i :: 0 < i < |s| ==> s[i] != s[i - 1]
  }

  function Repeat(x: string, n: nat): (r: seq<string>)
    ensures |r| == n && forall i :: 0 <= i < n ==> r[i] == x
  {
    if n == 0 then [] else Repeat(x, n - 1) + [x]
  }

  /** Each element of `r` repeated as often as `counts` says. */
  function Expand(r: seq<string>, counts: seq<nat>): seq<string>
    requires |counts| == |r|
  {
    if r == [] then [] else Expand(r[..|r| - 1], counts[..|r| - 1]) + Repeat(r[|r| - 1], counts[|r| - 1])
  }

  /** After dedup no two neighbours are equal. */
  lemma {:induction false} DedupAdjacentDistinct(s: seq<string>)
    ensures NoAdjacentDuplicates(DedupAdjacent(s))
    decreases |s|
  {
    if |s| > 1 {
      DedupAdjacentDistinct(s[..|s| - 1]);
    }
  }

  lemma ExpandSnoc(r: seq<string>, counts: seq<nat>, x: string, c: nat)
    requires |counts| == |r|
    ensures Expand(r + [x], counts + [c]) == Expand(r, counts) + Repeat(x, c)
  {
    var r' := r + [x];
    assert r'[..|r'| - 1] == r;
    assert (counts + [c])[..|r'| - 1] == counts;
  }

  /** Dedup removes only repeats of a neighbour: the input is the output with
      each element repeated one or more times in place. */
  lemma {:induction false} DedupAdjacentRuns(s: seq<string>) returns (counts: seq<nat>)
    ensures |counts| == |DedupAdjacent(s)|
    ensures forall i :: 0 <= i < |counts| ==> counts[i] >= 1
    ensures Expand(DedupAdjacent(s), counts) == s
    decreases |s|
  {
    if s == [] {
      counts := [];
    } else if |s| == 1 {
      counts := [1];
      ExpandSnoc([], [], s[0], 1);
      assert [] + [s[0]] == s;
    } else {
      var init := s[..|s| - 1];
      var x := s[|s| - 1];
      var r0 := DedupAdjacent(init);
      var c0 := DedupAdjacentRuns(init);
      if x == s[|s| - 2] {
        assert DedupAdjacent(s) == r0;
        counts := RunsBump(r0, c0, x);
      } else {
        assert DedupAdjacent(s) == r0 + [x];
        counts := c0 + [1];
        ExpandSnoc(r0, c0, x, 1);
      }
      assert s == init + [x];
    }
  }

  /** One more copy of the last element is one more in its count. */
  lemma RunsBump(r: seq<string>, c: seq<nat>, x: string) returns (c': seq<nat>)
    requires |c| == |r| && r != [] && r[|r| - 1] == x
    requires forall i :: 0 <= i < |c| ==> c[i] >= 1
    ensures |c'| == |r| && forall i :: 0 <= i < |c'| ==> c'[i] >= 1
    ensures Expand(r, c') == Expand(r, c) + [x]
  {
    var m := |r| - 1;
    c' := c[..m] + [c[m] + 1];
    assert r == r[..m] + [x];
    assert c == c[..m] + [c[m]];
    ExpandSnoc(r[..m], c[..m], x, c[m]);
    ExpandSnoc(r[..m], c[..m], x, c[m] + 1);
    assert Repeat(x, c[m] + 1) == Repeat(x, c[m]) + [x];
  }

  /** Dedup changes nothing once no neighbours repeat, so applying it twice
      is applying it once. */
  lemma {:induction false} DedupAdjacentIdentity(s: seq<string>)
    requires NoAdjacentDuplicates(s)
    ensures DedupAdjacent(s) == s
    decreases |s|
  {
    if |s| > 1 {
      DedupAdjacentIdentity(s[..|s| - 1]);
      assert s[..|s| - 1] + [s[|s| - 1]] == s;
    }
  }

  /** Dedup drops no value altogether: every element of the input is still
      shown. */
  lemma {:induction false} DedupAdjacentKeeps(s: seq<string>)
    ensures forall e :: e in s ==> e in DedupAdjacent(s)
    decreases |s|
  {
    if |s| > 1 {
      var init := s[..|s| - 1];
      DedupAdjacentKeeps(init);
      assert s == init + [s[|s| - 1]];
      assert s[|s| - 1] == s[|s| - 2] ==> s[|s| - 1] in init;
    }
  }

  lemma DedupAdjacentIdempotent(s: seq<string>)
    ensures DedupAdjacent(DedupAdjacent(s)) == DedupAdjacent(s)
  {
    DedupAdjacentDistinct(s);
    DedupAdjacentIdentity(DedupAdjacent(s));
  }

  // =====================================================================
  // Label format
  // =====================================================================

  /** `icons.join(" ")`, one space appended when that is non-empty, then
      `"{index}: {icons}"` or, with nothing to show, `"{index}"`. */
  function FormatLabel(index: int, icons: seq<string>): (newName: string)
    ensures |newName| >= |IntToDecimal(index)| && newName[..|IntToDecimal(index)|] == IntToDecimal(index)
    ensures newName != " "
  {
    var joined := Join(icons, " ");
    var padded := if |joined| > 0 then joined + " " else joined;
    if |padded| > 0 then IntToDecimal(index) + ": " + padded else IntToDecimal(index)
  }

  /** With non-empty icons (as wrapped icons always are) the label is the
      bare number exactly when there are no icons, and otherwise the number,
      a colon, the icons separated by single spaces, and one trailing space
      right after the last icon. */
  lemma LabelShape(index: int, icons: seq<string>)
    requires forall i :: 0 <= i < |icons| ==> |icons[i]| > 0
    ensures icons == [] ==> FormatLabel(index, icons) == IntToDecimal(index)
    ensures icons != [] ==> FormatLabel(index, icons) == IntToDecimal(index) + ": " + Join(icons, " ") + " "
    ensures icons != [] ==> EndsWith(FormatLabel(index, icons), icons[|icons| - 1] + " ")
  {
    JoinNonEmpty(icons, " ");
    if icons != [] {
      var j := Join(icons, " ");
      var last := icons[|icons| - 1];
      assert EndsWith(j, last);
      EndsWithAppend(j, last, " ");
      EndsWithPrepend(IntToDecimal(index) + ": ", j + " ", last + " ");
    }
  }

  predicate EndsWith(s: string, suffix: string)
  {
    |suffix| <= |s| && s[|s| - |suffix|..] == suffix
  }

  lemma EndsWithAppend(s: string, suffix: string, t: string)
    requires EndsWith(s, suffix)
    ensures EndsWith(s + t, suffix + t)
  {
    assert (s + t)[|s + t| - |suffix + t|..] == s[|s| - |suffix|..] + t;
  }

  lemma EndsWithPrepend(p: string, s: string, suffix: string)
    requires EndsWith(s, suffix)
    ensures EndsWith(p + s, suffix)
  {
    assert (p + s)[|p + s| - |suffix|..] == s[|s| - |suffix|..];
  }

  /** The text before the first colon. */
  function BeforeColon(s: string): (r: string)
    ensures |r| <= |s| && r == s[..|r|]
  {
    if s == [] || s[0] == ':' then [] else [s[0]] + BeforeColon(s[1..])
  }

  /** Reads the workspace number back from a label. */
  function LabelIndex(newName: string): Option<int>
  {
    ParseInt(BeforeColon(newName))
  }

  lemma {:induction false} BeforeColonPrefix(a: string, b: string)
    requires forall i :: 0 <= i < |a| ==> a[i] != ':'
    requires b == [] || b[0] == ':'
    ensures BeforeColon(a + b) == a
    decreases |a|
  {
    if a == [] {
      assert a + b == b;
    } else {
      assert (a + b)[1..] == a[1..] + b;
      BeforeColonPrefix(a[1..], b);
    }
  }

  /** The number a label was made from can be read back from it. */
  lemma LabelIndexRoundTrip(index: int, icons: seq<string>)
    ensures LabelIndex(FormatLabel(index, icons)) == Some(index)
  {
    var d := IntToDecimal(index);
    var newName := FormatLabel(index, icons);
    var rest := newName[|d|..];
    assert newName == d + rest;
    assert rest == [] || rest[0] == ':';
    BeforeColonPrefix(d, rest);
    IntToDecimalRoundTrip(index);
  }

  // =====================================================================
  // The rename command
  // =====================================================================

  const RenamePrefix: string := "rename workspace \""
  const RenameMiddle: string := "\" to \""

  /** `rename workspace "<current>" to "<next>"`, with no quoting or escaping
      of either name. */
  function RenameCommand(current: string, next: string): (cmd: string)
    ensures cmd == RenamePrefix + current + RenameMiddle + next + "\""
  {
    "rename workspace \"" + current + "\" to \"" + next + "\""
  }

  /** Index of the first double quote, or the length when there is none. */
  function FirstQuote(s: string): (k: nat)
    ensures k <= |s|
  {
    if s == [] || s[0] == '"' then 0 else 1 + FirstQuote(s[1..])
  }

  lemma {:induction false} FirstQuoteAfter(a: string, b: string)
    requires forall i :: 0 <= i < |a| ==> a[i] != '"'
    requires b != [] && b[0] == '"'
    ensures FirstQuote(a + b) == |a|
    decreases |a|
  {
    if a == [] {
      assert a + b == b;
    } else {
      assert (a + b)[1..] == a[1..] + b;
      FirstQuoteAfter(a[1..], b);
    }
  }

  /** Reads a rename command: the current name runs to the first quote after
      the prefix, the new name to the final quote. */
  function ParseRename(cmd: string): Option<(string, string)>
  {
    if |cmd| < |RenamePrefix| || cmd[..|RenamePrefix|] != RenamePrefix then None
    else
      var rest := cmd[|RenamePrefix|..];
      var q := FirstQuote(rest);
      var after := rest[q..];
      if |after| < |RenameMiddle| + 1 || after[..|RenameMiddle|] != RenameMiddle || after[|after| - 1] != '"' then None
      else Some((rest[..q], after[|RenameMiddle|..|after| - 1]))
  }

  /** When the current name holds no double quote, the command determines
      both names. */
  lemma RenameRoundTrip(current: string, next: string)
    requires forall i :: 0 <= i < |current| ==> current[i] != '"'
    ensures ParseRename(RenameCommand(current, next)) == Some((current, next))
  {
    var cmd := RenameCommand(current, next);
    var rest := current + (RenameMiddle + next + "\"");
    assert cmd == RenamePrefix + rest;
    assert cmd[|RenamePrefix|..] == rest;
    FirstQuoteAfter(current, RenameMiddle + next + "\"");
    var after := rest[|current|..];
    assert after == RenameMiddle + next + "\"";
    assert after[|RenameMiddle|..|after| - 1] == next;
  }

  /** Names are not escaped, so a quote in a name makes the command
      ambiguous: two different renames read the same. */
  lemma RenameAmbiguousWithQuotes()
    ensures RenameCommand("a\" to \"b", "c") == RenameCommand("a", "b\" to \"c")
  {
  }
}
