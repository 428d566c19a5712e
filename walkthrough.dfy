/**
 * Sessions over the tree `build_menu` ships: what a user typing a given script of lines sees and runs.
 * Each lemma takes the shipped table as a parameter `t`, known to be `MenuTable()`.
 */
module Walkthrough {
  import opened Wrappers
  import opened Text
  import opened MenuTree
  import opened Navigation
  import opened Catalog
  import Shell

  /** `name` selects the `j`-th submenu of `n`. */
  lemma Picks(t: Tree, n: nat, name: string, j: nat)
    requires Valid(t) && n < |t| && j < |t[n].submenus|
    requires t[t[n].submenus[j]].name == name
    requires forall i :: 0 <= i < j ==> t[t[n].submenus[i]].name != name
    ensures Child(t, n, name) == Some(t[n].submenus[j])
  {
    assert ChildrenLinked(t);
    FirstNamedIs(t, t[n].submenus, name, j);
  }

  lemma ClusterEnterResolves(t: Tree)
    requires Valid(t) && MainEntry(t) && ClusterEntries(t) && MaintenanceEntries(t)
    ensures Resolve(t, Root, ["cluster", "maintenance-mode", "enter"]) == Some(3)
  {
    var p := ["cluster", "maintenance-mode", "enter"];
    Picks(t, 0, "cluster", 0);
    Picks(t, 1, "maintenance-mode", 0);
    Picks(t, 2, "enter", 0);
    ResolveStep(t, 0, p, 1);
    ResolveStep(t, 1, p[1..], 2);
    ResolveStep(t, 2, p[2..], 3);
    assert Resolve(t, 3, []) == Some(3);
  }

  /** A three-component path renders as its components joined by `" > "` after `Main`. */
  lemma RenderedThree(a: string, b: string, c: string)
    ensures RootName + Rendered([a, b, c]) == RootName + " > " + a + " > " + b + " > " + c
  {
    var p := [a, b, c];
    assert p[1..] == [b, c] && p[1..][1..] == [c] && p[1..][1..][1..] == [];
    assert Rendered([c]) == " > " + c;
    assert Rendered([b, c]) == " > " + b + (" > " + c);
    assert Rendered(p) == " > " + a + (" > " + b + (" > " + c));
  }

  /** The full path shown for the deepest cluster entry. */
  lemma ClusterEnterPath(t: Tree)
    requires t == MenuTable()
    ensures Valid(t) && FullPath(t, 3) == "Main" + " > " + "cluster" + " > " + "maintenance-mode" + " > " + "enter"
  {
    MenuTableValid(t);
    ShippedEntries(t);
    ClusterEnterResolves(t);
    FullPathOfPath(t, ["cluster", "maintenance-mode", "enter"]);
    RenderedThree("cluster", "maintenance-mode", "enter");
  }

  lemma NodeTwoChildren(t: Tree)
    requires Valid(t) && MainEntry(t) && ClusterEntries(t) && NodeEntries(t)
    ensures Child(t, 0, "node") == Some(7) && Child(t, 7, "power-off") == Some(8) && Child(t, 8, "node2") == Some(10)
  {
    Picks(t, 0, "node", 1);
    Picks(t, 7, "power-off", 0);
    Picks(t, 8, "node2", 1);
  }

  lemma NodeTwoResolves(t: Tree)
    requires Valid(t) && MainEntry(t) && ClusterEntries(t) && NodeEntries(t)
    ensures Resolve(t, Root, ["node", "power-off", "node2"]) == Some(10)
  {
    var p := ["node", "power-off", "node2"];
    NodeTwoChildren(t);
    ResolveStep(t, 0, p, 7);
    ResolveStep(t, 7, p[1..], 8);
    ResolveStep(t, 8, p[2..], 10);
    assert Resolve(t, 10, []) == Some(10);
  }

  /** The full path of a dynamic entry ends in its own name. */
  lemma NodeTwoPath(t: Tree)
    requires t == MenuTable()
    ensures Valid(t) && FullPath(t, 10) == "Main" + " > " + "node" + " > " + "power-off" + " > " + "node2"
  {
    MenuTableValid(t);
    ShippedEntries(t);
    NodeTwoResolves(t);
    FullPathOfPath(t, ["node", "power-off", "node2"]);
    RenderedThree("node", "power-off", "node2");
  }

  /** The numbers the scenarios type, as `int()` reads them. */
  lemma SmallNumbers()
    ensures ParseInt("1") == Some(1) && ParseInt("2") == Some(2) && ParseInt("3") == Some(3)
  {
    ParseIntRoundTrip(1);
    ParseIntRoundTrip(2);
    ParseIntRoundTrip(3);
  }

  lemma LargerNumbers()
    ensures ParseInt("4") == Some(4) && ParseInt("7") == Some(7) && ParseInt("99") == Some(99)
  {
    ParseIntRoundTrip(4);
    ParseIntRoundTrip(7);
    ParseIntRoundTrip(99);
    assert IntToString(99) == "99";
  }

  /*
   * The steps below need only the entries of the table they visit, so each states just those,
   * and each takes the lines it reads as parameters, constrained by what `int()` makes of them;
   * the scenarios then instantiate them with the shipped table and concrete lines.
   */

  predicate MainEntry(t: Tree)
  {
    |t| > 7 && t[0] == Main.(submenus := [1, 7])
  }

  predicate ClusterEntries(t: Tree)
  {
    |t| > 7 && t[1] == Inner("cluster", [2, 5, 6], 0) && t[5] == Leaf("refresh", RefreshCluster, 1) &&
    t[7].name == "node"
  }

  predicate MaintenanceEntries(t: Tree)
  {
    |t| > 3 && t[2] == Inner("maintenance-mode", [3, 4], 1) && t[3] == Leaf("enter", EnterMaintenanceMode, 2)
  }

  predicate NodeEntries(t: Tree)
  {
    |t| > 10 && t[7] == Inner("node", [8, 12], 0) && t[8] == Inner("power-off", [9, 10, 11], 7) &&
    t[9] == Dynamic("node1", 8) && t[10] == Dynamic("node2", 8)
  }

  lemma ShippedEntries(t: Tree)
    requires t == MenuTable()
    ensures Closed(t) && MainEntry(t) && ClusterEntries(t) && MaintenanceEntries(t) && NodeEntries(t)
  {
    MenuTableClosed(t);
  }

  /** `3` at Main (two submenus) is Back: the session ends. */
  lemma LeaveMain(t: Tree, x: string, more: seq<string>)
    requires Closed(t) && MainEntry(t) && ParseInt(x) == Some(3)
    ensures Loop(t, 0, [x] + more) == Session([Shown(0)], more, Returned)
  {
    LoopBack(t, 0, x, more);
  }

  /** `2` at cluster runs refresh, which returns to cluster; `4` (Back, three submenus) then leaves it. */
  lemma RefreshFromCluster(t: Tree, b: string, c: string, more: seq<string>)
    requires Closed(t) && ClusterEntries(t) && ParseInt(b) == Some(2) && ParseInt(c) == Some(4)
    ensures Run(t, 1, [b] + ([c] + more)) ==
      Session([Shown(1), Invoked(5, RefreshCluster, None), Shown(1)], more, Returned)
  {
    RunAction(t, 5, [c] + more);
    LoopBack(t, 1, c, more);
    LoopDescends(t, 1, b, 2, [c] + more);
  }

  /** `1` at Main opens cluster; once cluster returns, Main reads what cluster left. */
  lemma OpenCluster(t: Tree, a: string, rest: seq<string>, more: seq<string>)
    requires Closed(t) && MainEntry(t) && ParseInt(a) == Some(1)
    requires Run(t, 1, rest) == Session([Shown(1), Invoked(5, RefreshCluster, None), Shown(1)], more, Returned)
    ensures Loop(t, 0, [a] + rest) ==
      After([Shown(0), Shown(1), Invoked(5, RefreshCluster, None), Shown(1)], Loop(t, 0, more))
  {
    LoopDescends(t, 0, a, 1, rest);
  }

  /**
   * Refreshing the cluster: `1` opens cluster, `2` runs refresh and comes back to cluster, `4`
   * goes back to Main and `3` leaves Main.
   */
  lemma RefreshSession(t: Tree, a: string, b: string, c: string, d: string)
    requires Closed(t) && MainEntry(t) && ClusterEntries(t)
    requires ParseInt(a) == Some(1) && ParseInt(b) == Some(2) && ParseInt(c) == Some(4) && ParseInt(d) == Some(3)
    ensures Run(t, Root, [a, b, c, d]) ==
      Session([Shown(0), Shown(1), Invoked(5, RefreshCluster, None), Shown(1), Shown(0)], [], Returned)
  {
    RefreshFromCluster(t, b, c, [d]);
    OpenCluster(t, a, [b] + ([c] + [d]), [d]);
    LeaveMain(t, d, []);
    assert [a, b, c, d] == [a] + ([b] + ([c] + [d]));
    assert [d] == [d] + [];
  }

  /** The same session on the shipped table, typed as the numbers it lists. */
  lemma RefreshScenario(t: Tree)
    requires t == MenuTable()
    ensures Closed(t)
    ensures Run(t, Root, ["1", "2", "4", "3"]) ==
      Session([Shown(0), Shown(1), Invoked(5, RefreshCluster, None), Shown(1), Shown(0)], [], Returned)
  {
    ShippedEntries(t);
    SmallNumbers();
    LargerNumbers();
    RefreshSession(t, "1", "2", "4", "3");
  }

  /** `2` at node/power-off runs the power-off action for node2, passing it the name `node2`. */
  lemma PowerOffNodeTwo(t: Tree, b: string, c: string, more: seq<string>)
    requires Closed(t) && NodeEntries(t) && ParseInt(b) == Some(2) && ParseInt(c) == Some(4)
    ensures Run(t, 8, [b] + ([c] + more)) ==
      Session([Shown(8), Invoked(10, NodePowerOff, Some("node2")), Shown(8)], more, Returned)
  {
    RunAction(t, 10, [c] + more);
    LoopBack(t, 8, c, more);
    LoopDescends(t, 8, b, 2, [c] + more);
  }

  /** `1` at node opens power-off; once it returns, `3` (Back, two submenus) leaves node. */
  lemma NodeMenu(t: Tree, a: string, rest: seq<string>, d: string, more: seq<string>)
    requires Closed(t) && NodeEntries(t) && ParseInt(a) == Some(1) && ParseInt(d) == Some(3)
    requires Run(t, 8, rest) ==
      Session([Shown(8), Invoked(10, NodePowerOff, Some("node2")), Shown(8)], [d] + more, Returned)
    ensures Run(t, 7, [a] + rest) ==
      Session([Shown(7), Shown(8), Invoked(10, NodePowerOff, Some("node2")), Shown(8), Shown(7)], more, Returned)
  {
    LoopBack(t, 7, d, more);
    LoopDescends(t, 7, a, 1, rest);
  }

  /** `2` at Main opens node; once node returns, Main reads what node left. */
  lemma OpenNode(t: Tree, z: string, rest: seq<string>, more: seq<string>)
    requires Closed(t) && MainEntry(t) && ParseInt(z) == Some(2)
    requires Run(t, 7, rest) ==
      Session([Shown(7), Shown(8), Invoked(10, NodePowerOff, Some("node2")), Shown(8), Shown(7)], more, Returned)
    ensures Loop(t, 0, [z] + rest) ==
      After([Shown(0), Shown(7), Shown(8), Invoked(10, NodePowerOff, Some("node2")), Shown(8), Shown(7)],
        Loop(t, 0, more))
  {
    assert t[0].submenus[1] == 7;
    LoopDescends(t, 0, z, 2, rest);
    assert [Shown(0)] + Run(t, 7, rest).trace ==
      [Shown(0), Shown(7), Shown(8), Invoked(10, NodePowerOff, Some("node2")), Shown(8), Shown(7)];
  }

  /** `1`, `2`, `4`, `3` from node: node2 is powered off and node returns with no input left. */
  lemma NodeTwoFromNode(t: Tree, a: string, b: string, c: string, d: string)
    requires Closed(t) && NodeEntries(t)
    requires ParseInt(a) == Some(1) && ParseInt(b) == Some(2) && ParseInt(c) == Some(4) && ParseInt(d) == Some(3)
    ensures Run(t, 7, [a] + ([b] + ([c] + [d]))) ==
      Session([Shown(7), Shown(8), Invoked(10, NodePowerOff, Some("node2")), Shown(8), Shown(7)], [], Returned)
  {
    PowerOffNodeTwo(t, b, c, [d]);
    assert [d] == [d] + [];
    NodeMenu(t, a, [b] + ([c] + [d]), d, []);
  }

  /** `2`, `1`, `2`, `4`, `3` from Main: node2 is powered off and the session is back at Main with no input left. */
  lemma NodeTwoFromMain(t: Tree, z: string, a: string, b: string, c: string, d: string)
    requires Closed(t) && MainEntry(t) && NodeEntries(t) && ParseInt(z) == Some(2)
    requires ParseInt(a) == Some(1) && ParseInt(b) == Some(2) && ParseInt(c) == Some(4) && ParseInt(d) == Some(3)
    ensures Loop(t, 0, [z, a, b, c, d]) ==
      After([Shown(0), Shown(7), Shown(8), Invoked(10, NodePowerOff, Some("node2")), Shown(8), Shown(7)], Loop(t, 0, []))
  {
    NodeTwoFromNode(t, a, b, c, d);
    OpenNode(t, z, [a] + ([b] + ([c] + [d])), []);
    assert [z, a, b, c, d] == [z] + ([a] + ([b] + ([c] + [d])));
  }

  /**
   * Powering off node2, then backing out to Main, where the input runs out: the session stops
   * with Main listed and no choice read.
   */
  lemma NodeTwoSession(t: Tree, z: string, a: string, b: string, c: string, d: string)
    requires Closed(t) && MainEntry(t) && NodeEntries(t) && ParseInt(z) == Some(2)
    requires ParseInt(a) == Some(1) && ParseInt(b) == Some(2) && ParseInt(c) == Some(4) && ParseInt(d) == Some(3)
    ensures Run(t, Root, [z, a, b, c, d]) ==
      Session([Shown(0), Shown(7), Shown(8), Invoked(10, NodePowerOff, Some("node2")), Shown(8), Shown(7), Shown(0)],
        [], InputClosed)
  {
    NodeTwoFromMain(t, z, a, b, c, d);
    assert Loop(t, 0, []) == Session([Shown(0)], [], InputClosed);
    assert [Shown(0), Shown(7), Shown(8), Invoked(10, NodePowerOff, Some("node2")), Shown(8), Shown(7)] + [Shown(0)] ==
      [Shown(0), Shown(7), Shown(8), Invoked(10, NodePowerOff, Some("node2")), Shown(8), Shown(7), Shown(0)];
  }

  lemma NodeTwoScenario(t: Tree)
    requires t == MenuTable()
    ensures Closed(t)
    ensures Run(t, Root, ["2", "1", "2", "4", "3"]) ==
      Session([Shown(0), Shown(7), Shown(8), Invoked(10, NodePowerOff, Some("node2")), Shown(8), Shown(7), Shown(0)],
        [], InputClosed)
  {
    ShippedEntries(t);
    SmallNumbers();
    LargerNumbers();
    NodeTwoSession(t, "2", "1", "2", "4", "3");
  }

  /** A shell session that runs one command and is left by a line that reads `exit`. */
  lemma ShellOnce(command: string, word: string, more: seq<string>)
    requires !Shell.IsExit(command) && Shell.IsExit(word)
    ensures Shell.EnterBashCommand([command] + ([word] + more)) ==
      Shell.ShellSession([Shell.Entered, Shell.Ran(command), Shell.Left], more, true)
  {
    var input := [command] + ([word] + more);
    assert input[1..] == [word] + more && input[1..][1..] == more;
    assert Shell.Commands(input[1..]) == Shell.ShellSession([Shell.Left], more, true);
  }

  /** `ls -l` is not an exit line; ` EXIT ` is one. */
  lemma ShellWords()
    ensures !Shell.IsExit("ls -l") && Shell.IsExit(" EXIT ")
  {
    StripIsIdentity("ls -l");
    LowerSpec("ls -l");
    assert Lower("ls -l")[0] == 'l';
    assert AllSpace(" ");
    Shell.ExitAccepted(" ", "EXIT", " ");
    assert " " + "EXIT" + " " == " EXIT ";
  }

  /** `99` at Main opens the shell; once it is left, Main is listed again and `3` leaves it. */
  lemma ShellFromMain(t: Tree, x: string, command: string, word: string, d: string, more: seq<string>)
    requires Closed(t) && MainEntry(t) && ParseInt(x) == Some(99) && ParseInt(d) == Some(3)
    requires !Shell.IsExit(command) && Shell.IsExit(word)
    ensures Loop(t, 0, [x] + ([command] + ([word] + ([d] + more)))) ==
      Session([Shown(0), InShell(Shell.Entered), InShell(Shell.Ran(command)), InShell(Shell.Left), Shown(0)],
        more, Returned)
  {
    ShellOnce(command, word, [d] + more);
    LoopShell(t, 0, x, [command] + ([word] + ([d] + more)));
    LeaveMain(t, d, more);
    assert ShellEvents([Shell.Entered, Shell.Ran(command), Shell.Left]) ==
      [InShell(Shell.Entered), InShell(Shell.Ran(command)), InShell(Shell.Left)];
  }

  /** `99` at Main opens the hidden shell; a line that reads `exit` leaves it, and `3` then leaves Main. */
  lemma ShellSession(t: Tree, x: string, command: string, word: string, d: string)
    requires Closed(t) && MainEntry(t) && ParseInt(x) == Some(99) && ParseInt(d) == Some(3)
    requires !Shell.IsExit(command) && Shell.IsExit(word)
    ensures Run(t, Root, [x, command, word, d]) ==
      Session([Shown(0), InShell(Shell.Entered), InShell(Shell.Ran(command)), InShell(Shell.Left), Shown(0)],
        [], Returned)
  {
    ShellFromMain(t, x, command, word, d, []);
    assert [x, command, word, d] == [x] + ([command] + ([word] + ([d] + [])));
  }

  lemma ShellScenario(t: Tree)
    requires t == MenuTable()
    ensures Closed(t)
    ensures Run(t, Root, ["99", "ls -l", " EXIT ", "3"]) ==
      Session([Shown(0), InShell(Shell.Entered), InShell(Shell.Ran("ls -l")), InShell(Shell.Left), Shown(0)], [], Returned)
  {
    ShippedEntries(t);
    SmallNumbers();
    LargerNumbers();
    ShellWords();
    ShellSession(t, "99", "ls -l", " EXIT ", "3");
  }

  /** A word and an out-of-range number at Main are each reported, and Main is listed again. */
  lemma MistakesFromMain(t: Tree, w: string, x: string, d: string, more: seq<string>)
    requires Closed(t) && MainEntry(t) && ParseInt(w).None? && ParseInt(x) == Some(7) && ParseInt(d) == Some(3)
    ensures Loop(t, 0, [w] + ([x] + ([d] + more))) ==
      Session([Shown(0), InputRejected, Shown(0), ChoiceRejected, Shown(0)], more, Returned)
  {
    LeaveMain(t, d, more);
    LoopRejectsChoice(t, 0, x, 7, [d] + more);
    LoopRejectsInput(t, 0, w, [x] + ([d] + more));
  }

  lemma MistakesSession(t: Tree, w: string, x: string, d: string)
    requires Closed(t) && MainEntry(t) && ParseInt(w).None? && ParseInt(x) == Some(7) && ParseInt(d) == Some(3)
    ensures Run(t, Root, [w, x, d]) ==
      Session([Shown(0), InputRejected, Shown(0), ChoiceRejected, Shown(0)], [], Returned)
  {
    MistakesFromMain(t, w, x, d, []);
    assert [w, x, d] == [w] + ([x] + ([d] + []));
  }

  /** `abc` and then `7` at Main are both rejected; `3` leaves Main. */
  lemma MistakesScenario(t: Tree)
    requires t == MenuTable()
    ensures Closed(t)
    ensures Run(t, Root, ["abc", "7", "3"]) ==
      Session([Shown(0), InputRejected, Shown(0), ChoiceRejected, Shown(0)], [], Returned)
  {
    ShippedEntries(t);
    SmallNumbers();
    LargerNumbers();
    LetterIsNotNumber();
    MistakesSession(t, "abc", "7", "3");
  }
}
