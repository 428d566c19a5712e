/**
 * `build_menu` (menu.py:177-196): the menu tree the tool ships with, built by six calls on a
 * fresh `MenuManager`, and what a user sees and runs in it.
 */
module Catalog {
  import opened Wrappers
  import opened MenuTree
  import Manager

  const EnterMaintenanceMode := ActionRef("enter_maintenance_mode")
  const ExitMaintenanceMode := ActionRef("exit_maintenance_mode")
  const RefreshCluster := ActionRef("refresh_cluster")
  const ClusterPowerOff := ActionRef("cluster_power_off")
  const NodePowerOff := ActionRef("node_power_off")
  const NodeDiscover := ActionRef("node_discover")

  function Inner(name: string, submenus: seq<nat>, parent: nat): MenuNode
  {
    MenuNode(name, None, false, submenus, Some(parent))
  }

  function Leaf(name: string, action: ActionRef, parent: nat): MenuNode
  {
    MenuNode(name, Some(action), false, [], Some(parent))
  }

  function Dynamic(name: string, parent: nat): MenuNode
  {
    MenuNode(name, Some(NodePowerOff), true, [], Some(parent))
  }

  const Main := MenuNode(RootName, None, false, [], None)

  /** After `add_menu(["cluster", "maintenance-mode", "enter"], ...)`. */
  function Table1(): Tree
  {
    [Main.(submenus := [1]), Inner("cluster", [2], 0), Inner("maintenance-mode", [3], 1),
     Leaf("enter", EnterMaintenanceMode, 2)]
  }

  /** After `add_menu(["cluster", "maintenance-mode", "exit"], ...)`. */
  function Table2(): Tree
  {
    [Main.(submenus := [1]), Inner("cluster", [2], 0), Inner("maintenance-mode", [3, 4], 1),
     Leaf("enter", EnterMaintenanceMode, 2), Leaf("exit", ExitMaintenanceMode, 2)]
  }

  /** After `add_menu(["cluster", "refresh"], ...)`. */
  function Table3(): Tree
  {
    [Main.(submenus := [1]), Inner("cluster", [2, 5], 0), Inner("maintenance-mode", [3, 4], 1),
     Leaf("enter", EnterMaintenanceMode, 2), Leaf("exit", ExitMaintenanceMode, 2),
     Leaf("refresh", RefreshCluster, 1)]
  }

  /** After `add_menu(["cluster", "power-off"], ...)`. */
  function Table4(): Tree
  {
    [Main.(submenus := [1]), Inner("cluster", [2, 5, 6], 0), Inner("maintenance-mode", [3, 4], 1),
     Leaf("enter", EnterMaintenanceMode, 2), Leaf("exit", ExitMaintenanceMode, 2),
     Leaf("refresh", RefreshCluster, 1), Leaf("power-off", ClusterPowerOff, 1)]
  }

  /** After `add_dynamic_submenus(["node", "power-off"], ["node1", "node2", "node3"], ...)`. */
  function Table5(): Tree
  {
    [Main.(submenus := [1, 7]), Inner("cluster", [2, 5, 6], 0), Inner("maintenance-mode", [3, 4], 1),
     Leaf("enter", EnterMaintenanceMode, 2), Leaf("exit", ExitMaintenanceMode, 2),
     Leaf("refresh", RefreshCluster, 1), Leaf("power-off", ClusterPowerOff, 1),
     Inner("node", [8], 0), Inner("power-off", [9, 10, 11], 7),
     Dynamic("node1", 8), Dynamic("node2", 8), Dynamic("node3", 8)]
  }

  /** The finished tree, after `add_menu(["node", "discover"], ...)`: thirteen menus below Main. */
  function MenuTable(): (r: Tree)
    ensures |r| == 13 && r[Root].name == RootName && r[Root].parent.None?
  {
    [Main.(submenus := [1, 7]), Inner("cluster", [2, 5, 6], 0), Inner("maintenance-mode", [3, 4], 1),
     Leaf("enter", EnterMaintenanceMode, 2), Leaf("exit", ExitMaintenanceMode, 2),
     Leaf("refresh", RefreshCluster, 1), Leaf("power-off", ClusterPowerOff, 1),
     Inner("node", [8, 12], 0), Inner("power-off", [9, 10, 11], 7),
     Dynamic("node1", 8), Dynamic("node2", 8), Dynamic("node3", 8),
     Leaf("discover", NodeDiscover, 7)]
  }

  /** A plain submenu `name` attached below `n`, as `Walk` creates it. */
  function Grow(t: Tree, n: nat, name: string): Tree
    requires n < |t|
  {
    Attach(t, n, NewMenu(name, None, false))
  }

  /** One step of `Walk` into an existing submenu. */
  lemma WalkInto(t: Tree, n: nat, path: seq<string>, c: nat)
    requires Valid(t) && n < |t| && path != [] && Child(t, n, path[0]) == Some(c)
    ensures Walk(t, n, path) == Walk(t, c, path[1..])
  {
  }

  /** One step of `Walk` that creates the missing submenu. */
  lemma WalkCreate(t: Tree, n: nat, path: seq<string>)
    requires Valid(t) && n < |t| && path != [] && Child(t, n, path[0]).None? && t[n].action.None?
    ensures Valid(Grow(t, n, path[0])) && Walk(t, n, path) == Walk(Grow(t, n, path[0]), |t|, path[1..])
  {
    AttachValid(t, n, NewMenu(path[0], None, false));
  }

  lemma Step1()
    ensures Valid(Initial())
    ensures AddMenu(Initial(), ["cluster", "maintenance-mode", "enter"], Some(EnterMaintenanceMode)) == Success(Table1())
  {
    var t0 := Initial();
    WalkCreate(t0, 0, ["cluster", "maintenance-mode", "enter"]);
    var t1 := Grow(t0, 0, "cluster");
    WalkCreate(t1, 1, ["maintenance-mode", "enter"]);
    var t2 := Grow(t1, 1, "maintenance-mode");
    WalkCreate(t2, 2, ["enter"]);
    var t3 := Grow(t2, 2, "enter");
    assert Walk(t3, 3, []) == Success((t3, 3));
    Set1();
  }

  lemma Set1()
    ensures SetAction(Grow(Grow(Grow(Initial(), 0, "cluster"), 1, "maintenance-mode"), 2, "enter"), 3,
      Some(EnterMaintenanceMode)) == Table1()
  {
    var t0 := Initial();
    assert t0[0].submenus + [1] == [1];
    var t1 := Grow(t0, 0, "cluster");
    assert t1 == [Main.(submenus := [1]), Inner("cluster", [], 0)];
    assert t1[1].submenus + [2] == [2];
    var t2 := Grow(t1, 1, "maintenance-mode");
    assert t2 == [Main.(submenus := [1]), Inner("cluster", [2], 0), Inner("maintenance-mode", [], 1)];
    assert t2[2].submenus + [3] == [3];
    var t3 := Grow(t2, 2, "enter");
    assert t3 == [Main.(submenus := [1]), Inner("cluster", [2], 0), Inner("maintenance-mode", [3], 1), Inner("enter", [], 2)];
  }

  lemma Step2()
    requires Valid(Table1())
    ensures AddMenu(Table1(), ["cluster", "maintenance-mode", "exit"], Some(ExitMaintenanceMode)) == Success(Table2())
  {
    var t := Table1();
    WalkInto(t, 0, ["cluster", "maintenance-mode", "exit"], 1);
    WalkInto(t, 1, ["maintenance-mode", "exit"], 2);
    WalkCreate(t, 2, ["exit"]);
    var u := Grow(t, 2, "exit");
    assert Walk(u, 4, []) == Success((u, 4));
    Set2();
  }

  lemma Set2()
    ensures SetAction(Grow(Table1(), 2, "exit"), 4, Some(ExitMaintenanceMode)) == Table2()
  {
    var t := Table1();
    assert t[2].submenus + [4] == [3, 4];
    assert Grow(t, 2, "exit") == [Main.(submenus := [1]), Inner("cluster", [2], 0), Inner("maintenance-mode", [3, 4], 1),
      Leaf("enter", EnterMaintenanceMode, 2), Inner("exit", [], 2)];
  }

  lemma Step3()
    requires Valid(Table2())
    ensures AddMenu(Table2(), ["cluster", "refresh"], Some(RefreshCluster)) == Success(Table3())
  {
    var t := Table2();
    WalkInto(t, 0, ["cluster", "refresh"], 1);
    WalkCreate(t, 1, ["refresh"]);
    var u := Grow(t, 1, "refresh");
    assert Walk(u, 5, []) == Success((u, 5));
    Set3();
  }

  lemma Set3()
    ensures SetAction(Grow(Table2(), 1, "refresh"), 5, Some(RefreshCluster)) == Table3()
  {
    var t := Table2();
    assert t[1].submenus + [5] == [2, 5];
    assert Grow(t, 1, "refresh") == [Main.(submenus := [1]), Inner("cluster", [2, 5], 0), Inner("maintenance-mode", [3, 4], 1),
      Leaf("enter", EnterMaintenanceMode, 2), Leaf("exit", ExitMaintenanceMode, 2), Inner("refresh", [], 1)];
  }

  lemma Lookups3()
    requires Valid(Table3())
    ensures Child(Table3(), 0, "cluster") == Some(1) && Child(Table3(), 1, "power-off").None?
  {
    var t := Table3();
    assert t[t[1].submenus[0]].name == "maintenance-mode";
    assert t[t[1].submenus[1]].name == "refresh";
  }

  lemma Step4()
    requires Valid(Table3())
    ensures AddMenu(Table3(), ["cluster", "power-off"], Some(ClusterPowerOff)) == Success(Table4())
  {
    var t := Table3();
    Lookups3();
    WalkInto(t, 0, ["cluster", "power-off"], 1);
    WalkCreate(t, 1, ["power-off"]);
    var u := Grow(t, 1, "power-off");
    assert Walk(u, 6, []) == Success((u, 6));
    Set4();
  }

  lemma Set4()
    ensures SetAction(Grow(Table3(), 1, "power-off"), 6, Some(ClusterPowerOff)) == Table4()
  {
    var t := Table3();
    assert t[1].submenus + [6] == [2, 5, 6];
    assert Grow(t, 1, "power-off") == [Main.(submenus := [1]), Inner("cluster", [2, 5, 6], 0), Inner("maintenance-mode", [3, 4], 1),
      Leaf("enter", EnterMaintenanceMode, 2), Leaf("exit", ExitMaintenanceMode, 2), Leaf("refresh", RefreshCluster, 1),
      Inner("power-off", [], 1)];
  }

  /** A dynamic submenu `name` attached below `n`, as `add_dynamic_submenus` creates it. */
  function Spawn(t: Tree, n: nat, name: string): Tree
    requires n < |t|
  {
    Attach(t, n, NewMenu(name, Some(NodePowerOff), true))
  }

  /** One step of appending dynamic submenus. */
  lemma AppendOne(t: Tree, n: nat, names: seq<string>)
    requires Valid(t) && n < |t| && names != [] && t[n].action.None?
    ensures Valid(Spawn(t, n, names[0]))
    ensures AppendDynamic(t, n, names, NodePowerOff) == AppendDynamic(Spawn(t, n, names[0]), n, names[1..], NodePowerOff)
  {
    AttachValid(t, n, NewMenu(names[0], Some(NodePowerOff), true));
  }

  lemma Lookups4()
    requires Valid(Table4())
    ensures Child(Table4(), 0, "node").None?
  {
  }

  /** The plain part of `Table5`, before the dynamic submenus are appended. */
  function Table5Walked(): Tree
  {
    Grow(Grow(Table4(), 0, "node"), 7, "power-off")
  }

  lemma Route5()
    requires Valid(Table4())
    ensures Valid(Table5Walked())
    ensures Walk(Table4(), 0, ["node", "power-off"]) == Success((Table5Walked(), 8))
  {
    var t := Table4();
    Lookups4();
    WalkCreate(t, 0, ["node", "power-off"]);
    var u1 := Grow(t, 0, "node");
    WalkCreate(u1, 7, ["power-off"]);
    var u2 := Grow(u1, 7, "power-off");
    assert Walk(u2, 8, []) == Success((u2, 8));
  }

  /** Three names appended in turn below a menu without an action. */
  lemma AppendThree(t: Tree, n: nat, names: seq<string>)
    requires Valid(t) && n < |t| && t[n].action.None? && |names| == 3
    ensures AppendDynamic(t, n, names, NodePowerOff) ==
      Success(Spawn(Spawn(Spawn(t, n, names[0]), n, names[1]), n, names[2]))
  {
    AppendOne(t, n, names);
    var v1 := Spawn(t, n, names[0]);
    assert v1[n].action.None?;
    AppendOne(v1, n, names[1..]);
    var v2 := Spawn(v1, n, names[1]);
    assert v2[n].action.None?;
    AppendOne(v2, n, names[2..]);
    var v3 := Spawn(v2, n, names[2]);
    assert AppendDynamic(v3, n, names[3..], NodePowerOff) == Success(v3);
  }

  lemma Append5()
    requires Valid(Table5Walked())
    ensures AppendDynamic(Table5Walked(), 8, ["node1", "node2", "node3"], NodePowerOff) ==
      Success(Spawn(Spawn(Spawn(Table5Walked(), 8, "node1"), 8, "node2"), 8, "node3"))
  {
    var u := Table5Walked();
    assert |u| == 9 && u[8].action.None?;
    AppendThree(u, 8, ["node1", "node2", "node3"]);
  }

  lemma Step5()
    requires Valid(Table4())
    ensures AddDynamicSubmenus(Table4(), ["node", "power-off"], ["node1", "node2", "node3"], NodePowerOff) == Success(Table5())
  {
    Route5();
    Append5();
    Set5();
  }

  lemma Set5()
    ensures Spawn(Spawn(Spawn(Grow(Grow(Table4(), 0, "node"), 7, "power-off"), 8, "node1"), 8, "node2"), 8, "node3") == Table5()
  {
    var t := Table4();
    assert t[0].submenus + [7] == [1, 7];
    var u1 := Grow(t, 0, "node");
    assert u1 == [Main.(submenus := [1, 7]), Inner("cluster", [2, 5, 6], 0), Inner("maintenance-mode", [3, 4], 1),
      Leaf("enter", EnterMaintenanceMode, 2), Leaf("exit", ExitMaintenanceMode, 2),
      Leaf("refresh", RefreshCluster, 1), Leaf("power-off", ClusterPowerOff, 1), Inner("node", [], 0)];
    assert u1[7].submenus + [8] == [8];
    var u2 := Grow(u1, 7, "power-off");
    assert u2 == u1[7 := Inner("node", [8], 0)] + [Inner("power-off", [], 7)];
    assert u2[8].submenus + [9] == [9];
    var v1 := Spawn(u2, 8, "node1");
    assert v1 == u2[8 := Inner("power-off", [9], 7)] + [Dynamic("node1", 8)];
    assert v1[8].submenus + [10] == [9, 10];
    var v2 := Spawn(v1, 8, "node2");
    assert v2 == v1[8 := Inner("power-off", [9, 10], 7)] + [Dynamic("node2", 8)];
    assert v2[8].submenus + [11] == [9, 10, 11];
    var v3 := Spawn(v2, 8, "node3");
    assert v3 == v2[8 := Inner("power-off", [9, 10, 11], 7)] + [Dynamic("node3", 8)];
  }

  lemma Lookups5(t: Tree)
    requires Valid(t) && |t| > 8 && t[0].submenus == [1, 7] && t[1].name == "cluster" && t[7].name == "node"
    requires t[7].submenus == [8] && t[8].name == "power-off"
    ensures Child(t, 0, "node") == Some(7) && Child(t, 7, "discover").None?
  {
    FirstNamedIs(t, [1, 7], "node", 1);
    assert FirstNamed(t, [8][1..], "discover").None?;
  }

  lemma Step6()
    requires Valid(Table5())
    ensures AddMenu(Table5(), ["node", "discover"], Some(NodeDiscover)) == Success(MenuTable())
  {
    var t := Table5();
    Lookups5(t);
    WalkInto(t, 0, ["node", "discover"], 7);
    WalkCreate(t, 7, ["discover"]);
    var u := Grow(t, 7, "discover");
    assert Walk(u, 12, []) == Success((u, 12));
    Set6();
  }

  lemma Set6()
    ensures SetAction(Grow(Table5(), 7, "discover"), 12, Some(NodeDiscover)) == MenuTable()
  {
    var t := Table5();
    assert t[7].submenus + [12] == [8, 12];
    assert Grow(t, 7, "discover") == t[7 := Inner("node", [8, 12], 0)] + [Inner("discover", [], 7)];
  }

  /** The tree `build_menu` produces is well formed, and no call in it raises. */
  lemma BuiltValid()
    ensures Valid(Table1()) && Valid(Table2()) && Valid(Table3()) && Valid(Table4()) && Valid(Table5())
    ensures Valid(MenuTable())
  {
    Step1();
    Step2();
    Step3();
    Step4();
    Step5();
    Step6();
  }

  /** The tree `build_menu` produces is well formed. */
  lemma MenuTableValid(t: Tree)
    requires t == MenuTable()
    ensures Valid(t)
  {
    BuiltValid();
  }

  /** Every submenu index of the shipped tree names one of its entries. */
  lemma MenuTableClosed(t: Tree)
    requires t == MenuTable()
    ensures Closed(t)
  {
  }

  /** `build_menu()`: a fresh manager, then the six registrations in order. */
  method BuildMenu() returns (manager: Manager.MenuManager)
    ensures fresh(manager) && manager.Valid() && manager.nodes == MenuTable()
  {
    manager := new Manager.MenuManager();
    Step1();
    var raised := manager.AddMenu(["cluster", "maintenance-mode", "enter"], Some(EnterMaintenanceMode));
    Step2();
    raised := manager.AddMenu(["cluster", "maintenance-mode", "exit"], Some(ExitMaintenanceMode));
    Step3();
    raised := manager.AddMenu(["cluster", "refresh"], Some(RefreshCluster));
    Step4();
    raised := manager.AddMenu(["cluster", "power-off"], Some(ClusterPowerOff));
    Step5();
    raised := manager.AddDynamicSubmenus(["node", "power-off"], ["node1", "node2", "node3"], NodePowerOff);
    Step6();
    raised := manager.AddMenu(["node", "discover"], Some(NodeDiscover));
  }
}
