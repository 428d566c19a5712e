/**
 * The menu tree of `menu.py` as a value: a table of menu records in which a node is
 * identified by its index, and `submenus` / `parent` hold indices into the same table.
 * The root `Main` is entry 0. The functions here are the specification of what
 * `Menu.add_submenu`, `MenuManager.add_menu` and `MenuManager.add_dynamic_submenus`
 * do to the tree; the class in `menu_manager.dfy` implements them with loops.
 */
module MenuTree {
  import opened Wrappers

  /** A reference to one of the callables a menu entry runs, by its function name; what it does is outside the model. */
  datatype ActionRef = ActionRef(callee: string)

  /** One `Menu` object: name, optional action, `is_dynamic`, ordered submenus and parent. */
  datatype MenuNode = MenuNode(
    name: string,
    action: Option<ActionRef>,
    isDynamic: bool,
    submenus: seq<nat>,
    parent: Option<nat>)

  type Tree = seq<MenuNode>

  const Root: nat := 0
  const RootName: string := "Main"

  /** The `ValueError` raised by `add_submenu` on a menu that has an action. */
  datatype MenuError = ActionCannotHaveSubmenus(menu: string)

  /** The text of the `ValueError`, which names the menu that has an action. */
  function ErrorMessage(e: MenuError): (r: string)
    ensures |r| > 6 + |e.menu| && r[6..6 + |e.menu|] == e.menu
  {
    "Menu '" + e.menu + "' is an action and cannot have submenus."
  }

  /** `Menu(name, action, is_dynamic)`: no submenus and no parent yet. */
  function NewMenu(name: string, action: Option<ActionRef>, isDynamic: bool): (r: MenuNode)
    ensures r.name == name && r.action == action && r.isDynamic == isDynamic
    ensures r.submenus == [] && r.parent.None?
  {
    MenuNode(name, action, isDynamic, [], None)
  }

  /** The tree a fresh `MenuManager` holds: the root menu `Main` alone, with no action, already well formed. */
  function Initial(): (r: Tree)
    ensures Valid(r) && |r| == 1 && r[Root].action.None? && r[Root].submenus == []
  {
    [NewMenu(RootName, None, false)]
  }

  /**
   * The shape every tree built by `MenuManager` has: the root `Main` is the only node
   * without a parent, a parent comes before its children in the table, each node is
   * listed among its parent's submenus, and submenus are listed in creation order.
   */
  ghost predicate Valid(t: Tree)
  {
    |t| > 0 && t[Root].name == RootName && t[Root].parent.None? &&
    ParentsLinked(t) && ChildrenLinked(t) && ChildrenInOrder(t)
  }

  ghost predicate ParentsLinked(t: Tree)
  {
    forall i :: 0 < i < |t| ==>
      t[i].parent.Some? && t[i].parent.value < i && i in t[t[i].parent.value].submenus
  }

  ghost predicate ChildrenLinked(t: Tree)
  {
    forall i, j :: 0 <= i < |t| && 0 <= j < |t[i].submenus| ==>
      i < t[i].submenus[j] < |t| && t[t[i].submenus[j]].parent == Some(i)
  }

  ghost predicate ChildrenInOrder(t: Tree)
  {
    forall i, j, k :: 0 <= i < |t| && 0 <= j < k < |t[i].submenus| ==>
      t[i].submenus[j] < t[i].submenus[k]
  }

  /** Every submenu index names an entry of the table: all that running the menus needs. */
  ghost predicate Closed(t: Tree)
  {
    forall i, j :: 0 <= i < |t| && 0 <= j < |t[i].submenus| ==> t[i].submenus[j] < |t|
  }

  /** A well-formed tree is closed, and its root is the one menu without a parent. */
  lemma ValidClosed(t: Tree)
    requires Valid(t)
    ensures Closed(t)
    ensures forall n :: 0 <= n < |t| ==> (t[n].parent.None? <==> n == Root)
  {
    assert ChildrenLinked(t);
    assert ParentsLinked(t);
  }

  /** The effect of `parent.add_submenu(m)` once its guard has passed: `m` is appended as the last child. */
  function Attach(t: Tree, p: nat, m: MenuNode): (r: Tree)
    requires p < |t|
    ensures |r| == |t| + 1 && r[|t|].parent == Some(p) && r[p].submenus == t[p].submenus + [|t|]
  {
    t[p := t[p].(submenus := t[p].submenus + [|t|])] + [m.(parent := Some(p))]
  }

  /** Attaching a fresh menu keeps the tree well formed and only appends to it. */
  lemma AttachValid(t: Tree, p: nat, m: MenuNode)
    requires Valid(t) && p < |t| && m.submenus == []
    ensures Valid(Attach(t, p, m)) && Extends(t, Attach(t, p, m))
  {
    var r := Attach(t, p, m);
    assert |r| == |t| + 1 && r[|t|] == m.(parent := Some(p));
    assert forall i :: 0 <= i < |t| && i != p ==> r[i] == t[i];
    assert r[p] == t[p].(submenus := t[p].submenus + [|t|]);
    AttachParentsLinked(t, p, m, r);
    AttachChildrenLinked(t, p, m, r);
    AttachChildrenInOrder(t, p, m, r);
  }

  lemma AttachParentsLinked(t: Tree, p: nat, m: MenuNode, r: Tree)
    requires Valid(t) && p < |t|
    requires |r| == |t| + 1 && r[|t|] == m.(parent := Some(p))
    requires forall i :: 0 <= i < |t| && i != p ==> r[i] == t[i]
    requires r[p] == t[p].(submenus := t[p].submenus + [|t|])
    ensures ParentsLinked(r)
  {
    forall i | 0 < i < |r|
      ensures r[i].parent.Some? && r[i].parent.value < i && i in r[r[i].parent.value].submenus
    {
      if i < |t| {
        var q := t[i].parent.value;
        assert i in t[q].submenus;
        assert t[q].submenus <= r[q].submenus;
      } else {
        assert r[p].submenus[|t[p].submenus|] == i;
      }
    }
  }

  lemma AttachChildrenLinked(t: Tree, p: nat, m: MenuNode, r: Tree)
    requires Valid(t) && p < |t|
    requires |r| == |t| + 1 && r[|t|] == m.(parent := Some(p)) && m.submenus == []
    requires forall i :: 0 <= i < |t| && i != p ==> r[i] == t[i]
    requires r[p] == t[p].(submenus := t[p].submenus + [|t|])
    ensures ChildrenLinked(r)
  {
    forall i, j | 0 <= i < |r| && 0 <= j < |r[i].submenus|
      ensures i < r[i].submenus[j] < |r| && r[r[i].submenus[j]].parent == Some(i)
    {
      if i != p || j < |t[p].submenus| {
        assert r[i].submenus[j] == t[i].submenus[j];
      }
    }
  }

  lemma AttachChildrenInOrder(t: Tree, p: nat, m: MenuNode, r: Tree)
    requires Valid(t) && p < |t|
    requires |r| == |t| + 1 && r[|t|] == m.(parent := Some(p)) && m.submenus == []
    requires forall i :: 0 <= i < |t| && i != p ==> r[i] == t[i]
    requires r[p] == t[p].(submenus := t[p].submenus + [|t|])
    ensures ChildrenInOrder(r)
  {
    forall i, j, k | 0 <= i < |r| && 0 <= j < k < |r[i].submenus|
      ensures r[i].submenus[j] < r[i].submenus[k]
    {
      if i != p || k < |t[p].submenus| {
        assert r[i].submenus[j] == t[i].submenus[j];
        assert r[i].submenus[k] == t[i].submenus[k];
      } else {
        assert r[i].submenus[j] == t[i].submenus[j];
      }
    }
  }

  /** `Menu.add_submenu`: refuses a menu that has an action, otherwise attaches `m` under `p`. */
  function AddSubmenu(t: Tree, p: nat, m: MenuNode): (r: Result<Tree, MenuError>)
    requires Valid(t) && p < |t| && m.submenus == []
    ensures r.Failure? <==> t[p].action.Some?
    ensures r.Success? ==> |r.value| == |t| + 1 && r.value[|t|].parent == Some(p)
  {
    if t[p].action.Some? then Failure(ActionCannotHaveSubmenus(t[p].name)) else Success(Attach(t, p, m))
  }

  /** `add_submenu` raises exactly on a menu with an action; otherwise the submenu becomes the last child
      of `p`, its parent is `p`, and every other entry of the table is as it was. */
  lemma AddSubmenuSpec(t: Tree, p: nat, m: MenuNode)
    requires Valid(t) && p < |t| && m.submenus == []
    ensures AddSubmenu(t, p, m).Failure? <==> t[p].action.Some?
    ensures AddSubmenu(t, p, m).Failure? ==> AddSubmenu(t, p, m).error == ActionCannotHaveSubmenus(t[p].name)
    ensures AddSubmenu(t, p, m).Success? ==>
      var r := AddSubmenu(t, p, m).value;
      |r| == |t| + 1 && r[|t|] == m.(parent := Some(p)) &&
      r[p].submenus == t[p].submenus + [|t|] &&
      r[p] == t[p].(submenus := r[p].submenus) &&
      forall i :: 0 <= i < |t| && i != p ==> r[i] == t[i]
  {
  }

  /** Position of the first child in `kids` named `name` (the `for` loop at menu.py:109-112). */
  function FirstNamed(t: Tree, kids: seq<nat>, name: string): (r: Option<nat>)
    requires forall j :: 0 <= j < |kids| ==> kids[j] < |t|
    ensures r.Some? ==> r.value < |kids| && t[kids[r.value]].name == name
    ensures r.Some? ==> forall j :: 0 <= j < r.value ==> t[kids[j]].name != name
    ensures r.None? ==> forall j :: 0 <= j < |kids| ==> t[kids[j]].name != name
  {
    if kids == [] then None
    else if t[kids[0]].name == name then Some(0)
    else match FirstNamed(t, kids[1..], name)
      case None => None
      case Some(j) => Some(j + 1)
  }

  /** The first submenu of `n` whose name is `name`, if any. */
  function Child(t: Tree, n: nat, name: string): (r: Option<nat>)
    requires Valid(t) && n < |t|
    ensures r.Some? ==> n < r.value < |t| && r.value in t[n].submenus && t[r.value].name == name
  {
    match FirstNamed(t, t[n].submenus, name)
    case None => None
    case Some(j) => Some(t[n].submenus[j])
  }

  /**
   * Follows `path` from `n` through first-matching children for as long as they exist.
   * Returns how many components were matched and the node reached.
   */
  function Follow(t: Tree, n: nat, path: seq<string>): (r: (nat, nat))
    requires Valid(t) && n < |t|
    ensures r.0 <= |path| && n <= r.1 < |t|
    decreases |path|
  {
    if path == [] then (0, n)
    else match Child(t, n, path[0])
      case None => (0, n)
      case Some(c) => var (d, m) := Follow(t, c, path[1..]); (d + 1, m)
  }

  /** The node that `path` names below `n`, if every component exists. */
  function Resolve(t: Tree, n: nat, path: seq<string>): Option<nat>
    requires Valid(t) && n < |t|
  {
    var (d, m) := Follow(t, n, path);
    if d == |path| then Some(m) else None
  }

  /**
   * `u` grew from `t` only by appending: entries of `t` keep their name, action, kind and
   * parent, and their submenu lists only gain entries at the end.
   */
  ghost predicate Extends(t: Tree, u: Tree)
  {
    |t| <= |u| &&
    forall i :: 0 <= i < |t| ==>
      u[i].name == t[i].name && u[i].action == t[i].action && u[i].isDynamic == t[i].isDynamic &&
      u[i].parent == t[i].parent && t[i].submenus <= u[i].submenus
  }

  /**
   * The path walk shared by `add_menu` and `add_dynamic_submenus` (menu.py:107-116 and 131-140):
   * descend into the first child with the component's name, or create it with `add_submenu`,
   * which raises when the current menu has an action.
   */
  function Walk(t: Tree, n: nat, path: seq<string>): (r: Result<(Tree, nat), MenuError>)
    requires Valid(t) && n < |t|
    ensures r.Success? ==> Valid(r.value.0) && r.value.1 < |r.value.0| && Extends(t, r.value.0)
    decreases |path|
  {
    if path == [] then Success((t, n))
    else match Child(t, n, path[0])
      case Some(c) => Walk(t, c, path[1..])
      case None =>
        match AddSubmenu(t, n, NewMenu(path[0], None, false))
        case Failure(e) => Failure(e)
        case Success(u) =>
          AttachValid(t, n, NewMenu(path[0], None, false));
          Walk(u, |t|, path[1..])
  }

  /** The first-match search is determined by the names alone: the first matching position wins. */
  lemma FirstNamedIs(t: Tree, kids: seq<nat>, name: string, j: nat)
    requires forall i :: 0 <= i < |kids| ==> kids[i] < |t|
    requires j < |kids| && t[kids[j]].name == name
    requires forall i :: 0 <= i < j ==> t[kids[i]].name != name
    ensures FirstNamed(t, kids, name) == Some(j)
  {
  }

  /** Appending to a tree does not change which child a name selects. */
  lemma ChildExtends(t: Tree, u: Tree, n: nat, name: string)
    requires Valid(t) && Valid(u) && Extends(t, u) && n < |t|
    ensures Child(t, n, name).Some? ==> Child(u, n, name) == Child(t, n, name)
  {
    var kids := t[n].submenus;
    match FirstNamed(t, kids, name)
    case None =>
    case Some(j) =>
      assert kids <= u[n].submenus;
      forall i | 0 <= i <= j
        ensures u[n].submenus[i] == kids[i] && u[kids[i]].name == t[kids[i]].name
      {
      }
      FirstNamedIs(u, u[n].submenus, name, j);
  }

  /** A menu just attached under `n` is the child its name selects when no older sibling has that name. */
  lemma ChildOfAttached(t: Tree, n: nat, m: MenuNode)
    requires Valid(t) && n < |t| && m.submenus == []
    requires Child(t, n, m.name).None?
    ensures Valid(Attach(t, n, m)) && Child(Attach(t, n, m), n, m.name) == Some(|t|)
  {
    AttachValid(t, n, m);
    var u := Attach(t, n, m);
    var kids := t[n].submenus;
    assert FirstNamed(t, kids, m.name).None?;
    assert u[n].submenus == kids + [|t|];
    forall i | 0 <= i < |kids|
      ensures u[n].submenus[i] == kids[i] && u[kids[i]].name == t[kids[i]].name
    {
    }
    FirstNamedIs(u, u[n].submenus, m.name, |kids|);
  }

  /** If `path` already names a node, the walk creates nothing and ends there. */
  lemma {:induction false} ResolveWalk(t: Tree, n: nat, path: seq<string>)
    requires Valid(t) && n < |t| && Resolve(t, n, path).Some?
    ensures Walk(t, n, path) == Success((t, Resolve(t, n, path).value))
    decreases |path|
  {
    if path != [] {
      var c := Child(t, n, path[0]).value;
      ResolveWalk(t, c, path[1..]);
    }
  }

  /** Resolving a path whose first component selects `c` is resolving the rest below `c`. */
  lemma ResolveStep(t: Tree, n: nat, path: seq<string>, c: nat)
    requires Valid(t) && n < |t| && path != [] && Child(t, n, path[0]) == Some(c)
    ensures Resolve(t, n, path) == Resolve(t, c, path[1..])
  {
  }

  /** After the walk, `path` names the node the walk ended at. */
  lemma {:induction false} WalkResolves(t: Tree, n: nat, path: seq<string>)
    requires Valid(t) && n < |t| && Walk(t, n, path).Success?
    ensures Resolve(Walk(t, n, path).value.0, n, path) == Some(Walk(t, n, path).value.1)
    decreases |path|
  {
    var w := Walk(t, n, path);
    var u := w.value.0;
    if path != [] {
      match Child(t, n, path[0])
      case Some(c) =>
        assert w == Walk(t, c, path[1..]);
        WalkResolves(t, c, path[1..]);
        ChildExtends(t, u, n, path[0]);
        ResolveStep(u, n, path, c);
      case None =>
        var m := NewMenu(path[0], None, false);
        AttachValid(t, n, m);
        var t1 := Attach(t, n, m);
        assert t[n].action.None?;
        assert w == Walk(t1, |t|, path[1..]);
        ChildOfAttached(t, n, m);
        WalkResolves(t1, |t|, path[1..]);
        ChildExtends(t1, u, n, path[0]);
        ResolveStep(u, n, path, |t|);
    }
  }

  /** `add_menu` is idempotent in its walk: walking the same path again creates nothing and ends at the same node. */
  lemma WalkIdempotent(t: Tree, n: nat, path: seq<string>)
    requires Valid(t) && n < |t| && Walk(t, n, path).Success?
    ensures var (u, x) := Walk(t, n, path).value; Walk(u, n, path) == Success((u, x))
  {
    WalkResolves(t, n, path);
    var (u, x) := Walk(t, n, path).value;
    ResolveWalk(u, n, path);
  }

  /** Walking the existing prefix changes nothing: the walk goes on from where `Follow` stops. */
  lemma {:induction false} WalkFollow(t: Tree, n: nat, path: seq<string>)
    requires Valid(t) && n < |t|
    ensures var (d, m) := Follow(t, n, path);
      Walk(t, n, path) == Walk(t, m, path[d..]) &&
      (d < |path| ==> Child(t, m, path[d]).None?)
    decreases |path|
  {
    if path != [] {
      match Child(t, n, path[0])
      case Some(c) =>
        WalkFollow(t, c, path[1..]);
        var (d, m) := Follow(t, c, path[1..]);
        assert path[1..][d..] == path[d + 1..];
      case None =>
        assert path[0..] == path;
    } else {
      assert path[0..] == path;
    }
  }

  /** The menus `u[|t|..]` form a chain named `names` hanging below `m`, each the only submenu of the one before. */
  ghost predicate ChainBelow(t: Tree, u: Tree, m: nat, names: seq<string>)
  {
    |u| == |t| + |names| &&
    forall i :: |t| <= i < |u| ==>
      u[i] == MenuNode(names[i - |t|], None, false,
                       if i + 1 < |u| then [i + 1] else [],
                       Some(if i == |t| then m else i - 1))
  }

  /**
   * Below a node without an action that has no child named `names[0]`, the walk creates one
   * new menu per name, the first appended as the last submenu of `m`, and touches nothing else.
   */
  lemma {:induction false} WalkCreatesChain(t: Tree, m: nat, names: seq<string>)
    requires Valid(t) && m < |t| && names != []
    requires t[m].action.None? && Child(t, m, names[0]).None?
    ensures Walk(t, m, names).Success?
    ensures var (u, x) := Walk(t, m, names).value;
      ChainBelow(t, u, m, names) && x == |u| - 1 &&
      u[m] == t[m].(submenus := t[m].submenus + [|t|]) &&
      forall i :: 0 <= i < |t| && i != m ==> u[i] == t[i]
    decreases |names|, 1
  {
    var created := NewMenu(names[0], None, false);
    AttachValid(t, m, created);
    var t1 := Attach(t, m, created);
    assert |t1| == |t| + 1 && t1[|t|] == MenuNode(names[0], None, false, [], Some(m));
    assert t1[m] == t[m].(submenus := t[m].submenus + [|t|]);
    assert forall i :: 0 <= i < |t| && i != m ==> t1[i] == t[i];
    assert Walk(t, m, names) == Walk(t1, |t|, names[1..]);
    if |names| > 1 {
      ChainStep(t, t1, m, names);
    }
  }

  lemma ChainStep(t: Tree, t1: Tree, m: nat, names: seq<string>)
    requires Valid(t) && Valid(t1) && m < |t| && |names| > 1
    requires |t1| == |t| + 1 && t1[|t|] == MenuNode(names[0], None, false, [], Some(m))
    requires t1[m] == t[m].(submenus := t[m].submenus + [|t|])
    requires forall i :: 0 <= i < |t| && i != m ==> t1[i] == t[i]
    ensures Walk(t1, |t|, names[1..]).Success?
    ensures var (u, x) := Walk(t1, |t|, names[1..]).value;
      ChainBelow(t, u, m, names) && x == |u| - 1 &&
      u[m] == t[m].(submenus := t[m].submenus + [|t|]) &&
      forall i :: 0 <= i < |t| && i != m ==> u[i] == t[i]
    decreases |names|, 0
  {
    assert Child(t1, |t|, names[1]).None?;
    WalkCreatesChain(t1, |t|, names[1..]);
    var (u, x) := Walk(t1, |t|, names[1..]).value;
    ChainCons(t, t1, u, m, names);
  }

  /** A chain hanging below the first new menu, which hangs below `m`, is one chain below `m`. */
  lemma ChainCons(t: Tree, t1: Tree, u: Tree, m: nat, names: seq<string>)
    requires |names| > 1 && |t1| == |t| + 1 && t1[|t|] == MenuNode(names[0], None, false, [], Some(m))
    requires ChainBelow(t1, u, |t|, names[1..]) && u[|t|] == t1[|t|].(submenus := [|t| + 1])
    ensures ChainBelow(t, u, m, names)
  {
    forall i | |t| <= i < |u|
      ensures u[i] == MenuNode(names[i - |t|], None, false,
                               if i + 1 < |u| then [i + 1] else [],
                               Some(if i == |t| then m else i - 1))
    {
      if i > |t| {
        assert names[1..][i - |t1|] == names[i - |t|];
      }
    }
  }

  /**
   * The path walk in full (menu.py:107-116): let `(d, m)` be how far `path` already exists.
   * If all of it exists, nothing changes and the walk ends at that node. Otherwise, if `m` has an
   * action the first `add_submenu` raises; if not, exactly `|path| - d` menus are created, the
   * first appended as the last submenu of `m`, each further one under the one before.
   */
  lemma WalkSpec(t: Tree, n: nat, path: seq<string>)
    requires Valid(t) && n < |t|
    ensures var (d, m) := Follow(t, n, path);
      (d == |path| ==> Walk(t, n, path) == Success((t, m))) &&
      (d < |path| && t[m].action.Some? ==>
        Walk(t, n, path) == Failure(ActionCannotHaveSubmenus(t[m].name))) &&
      (d < |path| && t[m].action.None? ==>
        Walk(t, n, path).Success? &&
        var (u, x) := Walk(t, n, path).value;
        ChainBelow(t, u, m, path[d..]) && x == |u| - 1 &&
        u[m] == t[m].(submenus := t[m].submenus + [|t|]) &&
        forall i :: 0 <= i < |t| && i != m ==> u[i] == t[i])
  {
    WalkFollow(t, n, path);
    var (d, m) := Follow(t, n, path);
    if d == |path| {
      assert path[d..] == [];
    } else if t[m].action.None? {
      WalkCreatesChain(t, m, path[d..]);
    }
  }

  /** `add_menu` creates exactly as many menus as there are components beyond the longest existing prefix. */
  lemma WalkCount(t: Tree, n: nat, path: seq<string>)
    requires Valid(t) && n < |t| && Walk(t, n, path).Success?
    ensures |Walk(t, n, path).value.0| == |t| + |path| - Follow(t, n, path).0
  {
    WalkSpec(t, n, path);
    var f := Follow(t, n, path);
    if f.0 < |path| {
      assert ChainBelow(t, Walk(t, n, path).value.0, f.1, path[f.0..]);
    }
  }

  /** A walk that created a menu ends at the newest one, which has no action: nothing after it can raise. */
  lemma WalkCreatedEndsFresh(t: Tree, n: nat, path: seq<string>)
    requires Valid(t) && n < |t| && Walk(t, n, path).Success?
    ensures var (u, x) := Walk(t, n, path).value;
      u == t || (|u| > |t| && x == |u| - 1 && u[x].action.None? && u[x].submenus == [])
  {
    WalkSpec(t, n, path);
    var f := Follow(t, n, path);
    var w := Walk(t, n, path);
    if f.0 < |path| && t[f.1].action.None? {
      var u := w.value.0;
      var x := w.value.1;
      assert ChainBelow(t, u, f.1, path[f.0..]);
      assert u[x].action.None? && u[x].submenus == [];
    }
  }

  /** Two tables with the same names, submenus and parents: they differ at most in actions. */
  ghost predicate SameShape(t: Tree, u: Tree)
  {
    |t| == |u| &&
    forall i :: 0 <= i < |t| ==>
      u[i].name == t[i].name && u[i].submenus == t[i].submenus && u[i].parent == t[i].parent
  }

  lemma SameShapeValid(t: Tree, u: Tree)
    requires Valid(t) && SameShape(t, u)
    ensures Valid(u)
  {
    assert ParentsLinked(u);
    assert ChildrenLinked(u);
    assert ChildrenInOrder(u);
  }

  /** The first-match search depends on the children's names only. */
  lemma FirstNamedSameNames(t: Tree, u: Tree, kids: seq<nat>, name: string)
    requires forall j :: 0 <= j < |kids| ==> kids[j] < |t| && kids[j] < |u| && u[kids[j]].name == t[kids[j]].name
    ensures FirstNamed(u, kids, name) == FirstNamed(t, kids, name)
  {
    match FirstNamed(t, kids, name)
    case None =>
    case Some(j) =>
      FirstNamedIs(u, kids, name, j);
  }

  /** Which child a name selects depends on names and submenus only. */
  lemma SameShapeChild(t: Tree, u: Tree, n: nat, name: string)
    requires Valid(t) && Valid(u) && SameShape(t, u) && n < |t|
    ensures Child(u, n, name) == Child(t, n, name)
  {
    var kids := t[n].submenus;
    assert u[n].submenus == kids;
    forall j | 0 <= j < |kids|
      ensures kids[j] < |t| && kids[j] < |u| && u[kids[j]].name == t[kids[j]].name
    {
      assert ChildrenLinked(t);
    }
    FirstNamedSameNames(t, u, kids, name);
  }

  /** Path lookup looks only at names and submenus, never at actions. */
  lemma {:induction false} SameShapeFollow(t: Tree, u: Tree, n: nat, path: seq<string>)
    requires Valid(t) && SameShape(t, u) && n < |t|
    ensures Valid(u) && Follow(u, n, path) == Follow(t, n, path)
    decreases |path|
  {
    SameShapeValid(t, u);
    if path != [] {
      SameShapeChild(t, u, n, path[0]);
      match Child(t, n, path[0])
      case None =>
      case Some(c) =>
        SameShapeFollow(t, u, c, path[1..]);
    }
  }

  /** `current_menu.action = action`, done only when an action is given (menu.py:119-120). */
  function SetAction(t: Tree, x: nat, action: Option<ActionRef>): (r: Tree)
    requires x < |t|
    ensures |r| == |t| && r[x].action == (if action.Some? then action else t[x].action)
  {
    if action.Some? then t[x := t[x].(action := action)] else t
  }

  lemma SetActionShape(t: Tree, x: nat, action: Option<ActionRef>)
    requires Valid(t) && x < |t|
    ensures SameShape(t, SetAction(t, x, action)) && Valid(SetAction(t, x, action))
  {
    SameShapeValid(t, SetAction(t, x, action));
  }

  /** `MenuManager.add_menu(path, action)` (menu.py:99-120). */
  function AddMenu(t: Tree, path: seq<string>, action: Option<ActionRef>): (r: Result<Tree, MenuError>)
    requires Valid(t)
    ensures r.Success? ==> Valid(r.value)
  {
    match Walk(t, Root, path)
    case Failure(e) => Failure(e)
    case Success((u, x)) =>
      SetActionShape(u, x, action);
      Success(SetAction(u, x, action))
  }

  /**
   * `add_menu` raises exactly when the first missing component would go below a menu that has an
   * action. Otherwise it creates exactly the missing components, `path` then names a node, and that
   * node's action is the given one, or is left as it was when none is given. Setting the action does
   * not look at, nor change, the node's existing submenus.
   */
  lemma AddMenuSpec(t: Tree, path: seq<string>, action: Option<ActionRef>)
    requires Valid(t)
    ensures var (d, m) := Follow(t, Root, path);
      (AddMenu(t, path, action).Failure? <==> d < |path| && t[m].action.Some?) &&
      (AddMenu(t, path, action).Failure? ==>
        AddMenu(t, path, action).error == ActionCannotHaveSubmenus(t[m].name))
    ensures AddMenu(t, path, action).Success? ==>
      var v := AddMenu(t, path, action).value;
      |v| == |t| + |path| - Follow(t, Root, path).0 &&
      Resolve(v, Root, path).Some? &&
      var x := Resolve(v, Root, path).value;
      v[x].action == (if action.Some? then action else if x < |t| then t[x].action else None) &&
      v[x].submenus == (if x < |t| then t[x].submenus else []) &&
      forall i :: 0 <= i < |t| && i != x ==> v[i].action == t[i].action
  {
    WalkSpec(t, Root, path);
    var w := Walk(t, Root, path);
    if w.Success? {
      var (u, x) := w.value;
      var v := SetAction(u, x, action);
      WalkResolves(t, Root, path);
      SetActionShape(u, x, action);
      SameShapeFollow(u, v, Root, path);
      WalkCreatedEndsFresh(t, Root, path);
      var (d, m) := Follow(t, Root, path);
      if d < |path| {
        assert ChainBelow(t, u, m, path[d..]);
      }
    }
  }

  /** Calling `add_menu` a second time with the same path and action changes nothing. */
  lemma AddMenuIdempotent(t: Tree, path: seq<string>, action: Option<ActionRef>)
    requires Valid(t) && AddMenu(t, path, action).Success?
    ensures AddMenu(AddMenu(t, path, action).value, path, action) == AddMenu(t, path, action)
  {
    var (u, x) := Walk(t, Root, path).value;
    var v := SetAction(u, x, action);
    WalkResolves(t, Root, path);
    SetActionShape(u, x, action);
    SameShapeFollow(u, v, Root, path);
    ResolveWalk(v, Root, path);
    assert SetAction(v, x, action) == v;
  }

  /** The `for` loop at menu.py:142-144: one `add_submenu` per name, each a dynamic menu with the shared action. */
  function AppendDynamic(t: Tree, n: nat, names: seq<string>, action: ActionRef): (r: Result<Tree, MenuError>)
    requires Valid(t) && n < |t|
    ensures r.Success? ==> Valid(r.value) && Extends(t, r.value)
    decreases |names|
  {
    if names == [] then Success(t)
    else match AddSubmenu(t, n, NewMenu(names[0], Some(action), true))
      case Failure(e) => Failure(e)
      case Success(u) =>
        AttachValid(t, n, NewMenu(names[0], Some(action), true));
        AppendDynamic(u, n, names[1..], action)
  }

  /** One turn of the loop: the first name is appended, or raises, and the rest follow. */
  lemma AppendDynamicUnfold(t: Tree, n: nat, names: seq<string>, action: ActionRef)
    requires Valid(t) && n < |t| && names != []
    ensures t[n].action.Some? ==> AppendDynamic(t, n, names, action) == Failure(ActionCannotHaveSubmenus(t[n].name))
    ensures t[n].action.None? ==>
      Valid(Attach(t, n, NewMenu(names[0], Some(action), true))) &&
      Attach(t, n, NewMenu(names[0], Some(action), true))[n].action.None? &&
      AppendDynamic(t, n, names, action) == AppendDynamic(Attach(t, n, NewMenu(names[0], Some(action), true)), n, names[1..], action)
  {
    AttachValid(t, n, NewMenu(names[0], Some(action), true));
  }

  /**
   * The dynamic submenus are appended after the existing ones, in the order given, one per name,
   * with no de-duplication against existing names; each is dynamic, a leaf, and has the shared action.
   * The loop raises (on its first append) exactly when `n` has an action and there is a name to add.
   */
  lemma {:induction false} AppendDynamicSpec(t: Tree, n: nat, names: seq<string>, action: ActionRef)
    requires Valid(t) && n < |t|
    ensures AppendDynamic(t, n, names, action).Failure? <==> names != [] && t[n].action.Some?
    ensures AppendDynamic(t, n, names, action).Failure? ==>
      AppendDynamic(t, n, names, action).error == ActionCannotHaveSubmenus(t[n].name)
    ensures AppendDynamic(t, n, names, action).Success? ==>
      DynamicAppended(t, AppendDynamic(t, n, names, action).value, n, names, action)
    decreases |names|, 1
  {
    if names != [] && t[n].action.None? {
      var m := NewMenu(names[0], Some(action), true);
      AttachValid(t, n, m);
      var t1 := Attach(t, n, m);
      assert AppendDynamic(t, n, names, action) == AppendDynamic(t1, n, names[1..], action);
      AppendDynamicStep(t, t1, n, names, action);
    }
  }

  /** `u` is `t` with one dynamic leaf per name appended, in order, as the last submenus of `n`. */
  ghost predicate DynamicAppended(t: Tree, u: Tree, n: nat, names: seq<string>, action: ActionRef)
    requires n < |t|
  {
    |u| == |t| + |names| &&
    u[n] == t[n].(submenus := u[n].submenus) &&
    |u[n].submenus| == |t[n].submenus| + |names| && t[n].submenus <= u[n].submenus &&
    (forall i :: 0 <= i < |t| && i != n ==> u[i] == t[i]) &&
    (forall j :: |t[n].submenus| <= j < |u[n].submenus| ==>
      u[n].submenus[j] == |t| + j - |t[n].submenus|) &&
    forall i :: |t| <= i < |u| ==> u[i] == MenuNode(names[i - |t|], Some(action), true, [], Some(n))
  }

  lemma AppendDynamicStep(t: Tree, t1: Tree, n: nat, names: seq<string>, action: ActionRef)
    requires Valid(t) && n < |t| && names != [] && t[n].action.None?
    requires t1 == Attach(t, n, NewMenu(names[0], Some(action), true)) && Valid(t1)
    ensures AppendDynamic(t1, n, names[1..], action).Success?
    ensures DynamicAppended(t, AppendDynamic(t1, n, names[1..], action).value, n, names, action)
    decreases |names|, 0
  {
    assert |t1| == |t| + 1 && t1[n] == t[n].(submenus := t[n].submenus + [|t|]);
    assert forall i :: 0 <= i < |t| && i != n ==> t1[i] == t[i];
    assert t1[|t|] == MenuNode(names[0], Some(action), true, [], Some(n));
    AppendDynamicSpec(t1, n, names[1..], action);
    var u := AppendDynamic(t1, n, names[1..], action).value;
    DynamicAppendedCons(t, t1, u, n, names, action);
  }

  /** Appending the first name, then the rest, appends all of them. */
  lemma DynamicAppendedCons(t: Tree, t1: Tree, u: Tree, n: nat, names: seq<string>, action: ActionRef)
    requires n < |t| && names != []
    requires |t1| == |t| + 1 && t1[n] == t[n].(submenus := t[n].submenus + [|t|])
    requires forall i :: 0 <= i < |t| && i != n ==> t1[i] == t[i]
    requires t1[|t|] == MenuNode(names[0], Some(action), true, [], Some(n))
    requires DynamicAppended(t1, u, n, names[1..], action)
    ensures DynamicAppended(t, u, n, names, action)
  {
    forall i | |t| <= i < |u|
      ensures u[i] == MenuNode(names[i - |t|], Some(action), true, [], Some(n))
    {
      if i > |t| {
        assert names[1..][i - |t1|] == names[i - |t|];
      }
    }
    forall j | |t[n].submenus| <= j < |u[n].submenus|
      ensures u[n].submenus[j] == |t| + j - |t[n].submenus|
    {
      if j == |t[n].submenus| {
        assert u[n].submenus[j] == t1[n].submenus[j];
      }
    }
    assert t[n].submenus <= t1[n].submenus;
  }

  /** `MenuManager.add_dynamic_submenus(path, submenu_names, action)` (menu.py:122-144). */
  function AddDynamicSubmenus(t: Tree, path: seq<string>, names: seq<string>, action: ActionRef)
    : (r: Result<Tree, MenuError>)
    requires Valid(t)
    ensures r.Success? ==> Valid(r.value)
  {
    match Walk(t, Root, path)
    case Failure(e) => Failure(e)
    case Success((u, x)) => AppendDynamic(u, x, names, action)
  }

  /**
   * `add_dynamic_submenus` raises exactly when the menu at the end of the existing part of `path`
   * has an action and something would be added below it: a missing path component or a name.
   */
  lemma AddDynamicSubmenusFails(t: Tree, path: seq<string>, names: seq<string>, action: ActionRef)
    requires Valid(t)
    ensures var (d, m) := Follow(t, Root, path);
      (AddDynamicSubmenus(t, path, names, action).Failure? <==>
        t[m].action.Some? && (d < |path| || names != [])) &&
      (AddDynamicSubmenus(t, path, names, action).Failure? ==>
        AddDynamicSubmenus(t, path, names, action).error == ActionCannotHaveSubmenus(t[m].name))
  {
    WalkSpec(t, Root, path);
    var (d, m) := Follow(t, Root, path);
    var w := Walk(t, Root, path);
    if w.Success? {
      var (u, x) := w.value;
      AppendDynamicSpec(u, x, names, action);
      if d < |path| {
        WalkCreatedEndsFresh(t, Root, path);
        assert u[x].action.None?;
      } else {
        assert u == t && x == m;
      }
    }
  }

  /**
   * When it succeeds, `add_dynamic_submenus` creates the missing components of `path` and then
   * exactly `|names|` dynamic children under the node `path` names: the last `|names|` submenus of
   * that node, in the order given, each a leaf with its own name and the shared action.
   */
  lemma AddDynamicSubmenusAdds(t: Tree, path: seq<string>, names: seq<string>, action: ActionRef)
    requires Valid(t) && AddDynamicSubmenus(t, path, names, action).Success?
    ensures var v := AddDynamicSubmenus(t, path, names, action).value;
      |v| == |t| + (|path| - Follow(t, Root, path).0) + |names| &&
      Resolve(v, Root, path).Some? &&
      EndsWithDynamic(v, Resolve(v, Root, path).value, names, action)
  {
    var w := Walk(t, Root, path);
    var u, x := w.value.0, w.value.1;
    assert AddDynamicSubmenus(t, path, names, action) == AppendDynamic(u, x, names, action);
    assert AppendDynamic(u, x, names, action).Success?;
    var v := AppendDynamic(u, x, names, action).value;
    assert DynamicAppended(u, v, x, names, action) by {
      AppendDynamicSpec(u, x, names, action);
    }
    assert |u| == |t| + (|path| - Follow(t, Root, path).0) by {
      WalkCount(t, Root, path);
    }
    assert Resolve(v, Root, path) == Some(x) by {
      WalkResolves(t, Root, path);
      AppendResolves(u, v, Root, path);
    }
    DynamicChildren(u, v, x, names, action);
  }

  /** The last `|names|` submenus of `x` are dynamic leaves named `names`, in order, sharing `action`. */
  ghost predicate EndsWithDynamic(v: Tree, x: nat, names: seq<string>, action: ActionRef)
  {
    x < |v| && |v[x].submenus| >= |names| &&
    forall j :: 0 <= j < |names| ==>
      var c := v[x].submenus[|v[x].submenus| - |names| + j];
      c < |v| && v[c] == MenuNode(names[j], Some(action), true, [], Some(x))
  }

  lemma DynamicChildren(u: Tree, v: Tree, x: nat, names: seq<string>, action: ActionRef)
    requires x < |u| && DynamicAppended(u, v, x, names, action)
    ensures EndsWithDynamic(v, x, names, action)
  {
    forall j | 0 <= j < |names|
      ensures var c := v[x].submenus[|v[x].submenus| - |names| + j];
        c < |v| && v[c] == MenuNode(names[j], Some(action), true, [], Some(x))
    {
      var c := v[x].submenus[|v[x].submenus| - |names| + j];
      assert c == |u| + j;
    }
  }

  /** A path that resolves keeps resolving to the same node after the tree grows by appending. */
  lemma {:induction false} AppendResolves(t: Tree, u: Tree, n: nat, path: seq<string>)
    requires Valid(t) && Valid(u) && Extends(t, u) && n < |t| && Resolve(t, n, path).Some?
    ensures Resolve(u, n, path) == Resolve(t, n, path)
    decreases |path|
  {
    if path != [] {
      var c := Child(t, n, path[0]).value;
      ChildExtends(t, u, n, path[0]);
      ResolveStep(t, n, path, c);
      ResolveStep(u, n, path, c);
      AppendResolves(t, u, c, path[1..]);
    }
  }

  /** Dynamic menus are leaves with an action (they are created that way and never get submenus). */
  ghost predicate DynamicLeaves(t: Tree)
  {
    forall i :: 0 <= i < |t| && t[i].isDynamic ==> t[i].action.Some? && t[i].submenus == []
  }

  /**
   * How the builders change a table: entries are only appended, old entries keep their name,
   * kind and parent, keep or gain an action but never lose one, and an entry that had an action
   * keeps exactly the submenus it had (no submenu is ever added below an action).
   */
  ghost predicate Grows(t: Tree, v: Tree)
  {
    |t| <= |v| &&
    forall i :: 0 <= i < |t| ==>
      v[i].name == t[i].name && v[i].isDynamic == t[i].isDynamic && v[i].parent == t[i].parent &&
      t[i].submenus <= v[i].submenus &&
      (t[i].action.Some? ==> v[i].action.Some? && v[i].submenus == t[i].submenus)
  }

  lemma WalkGrows(t: Tree, n: nat, path: seq<string>)
    requires Valid(t) && n < |t| && Walk(t, n, path).Success?
    ensures var u := Walk(t, n, path).value.0;
      Grows(t, u) && (forall i :: 0 <= i < |t| ==> u[i].action == t[i].action) &&
      forall i :: |t| <= i < |u| ==> u[i].action.None? && !u[i].isDynamic
  {
    WalkSpec(t, n, path);
    var f := Follow(t, n, path);
    if f.0 < |path| {
      assert ChainBelow(t, Walk(t, n, path).value.0, f.1, path[f.0..]);
    }
  }

  /** `add_menu` never adds a submenu below a menu that has an action, and keeps dynamic menus leaves. */
  lemma AddMenuGrows(t: Tree, path: seq<string>, action: Option<ActionRef>)
    requires Valid(t) && AddMenu(t, path, action).Success?
    ensures Grows(t, AddMenu(t, path, action).value)
    ensures DynamicLeaves(t) ==> DynamicLeaves(AddMenu(t, path, action).value)
  {
    WalkGrows(t, Root, path);
    var w := Walk(t, Root, path).value;
    SetActionGrows(t, w.0, w.1, action);
  }

  /** Setting an action on a table that grew from `t` without touching its actions keeps it grown from `t`. */
  lemma SetActionGrows(t: Tree, u: Tree, x: nat, action: Option<ActionRef>)
    requires x < |u| && Grows(t, u)
    requires forall i :: 0 <= i < |t| ==> u[i].action == t[i].action
    requires forall i :: |t| <= i < |u| ==> !u[i].isDynamic
    ensures Grows(t, SetAction(u, x, action))
    ensures DynamicLeaves(t) ==> DynamicLeaves(SetAction(u, x, action))
  {
    var v := SetAction(u, x, action);
    assert |v| == |u|;
    forall i | 0 <= i < |u|
      ensures v[i].name == u[i].name && v[i].isDynamic == u[i].isDynamic && v[i].parent == u[i].parent
      ensures v[i].submenus == u[i].submenus && (u[i].action.Some? ==> v[i].action.Some?)
    {
    }
  }

  /** `add_dynamic_submenus` never adds a submenu below a menu that has an action, and keeps dynamic menus leaves. */
  lemma AddDynamicSubmenusGrows(t: Tree, path: seq<string>, names: seq<string>, action: ActionRef)
    requires Valid(t) && AddDynamicSubmenus(t, path, names, action).Success?
    ensures Grows(t, AddDynamicSubmenus(t, path, names, action).value)
    ensures DynamicLeaves(t) ==> DynamicLeaves(AddDynamicSubmenus(t, path, names, action).value)
  {
    WalkGrows(t, Root, path);
    var w := Walk(t, Root, path);
    var u, x := w.value.0, w.value.1;
    AppendDynamicSpec(u, x, names, action);
    AppendedGrows(t, u, AppendDynamic(u, x, names, action).value, x, names, action);
  }

  /** Appending dynamic leaves below a menu without an action, to a table that grew from `t`, keeps it grown from `t`. */
  lemma AppendedGrows(t: Tree, u: Tree, v: Tree, x: nat, names: seq<string>, action: ActionRef)
    requires x < |u| && Grows(t, u) && DynamicAppended(u, v, x, names, action)
    requires forall i :: 0 <= i < |t| ==> u[i].action == t[i].action
    requires forall i :: |t| <= i < |u| ==> !u[i].isDynamic
    requires names != [] ==> u[x].action.None?
    ensures Grows(t, v)
    ensures DynamicLeaves(t) ==> DynamicLeaves(v)
  {
    forall i | 0 <= i < |u|
      ensures v[i].name == u[i].name && v[i].isDynamic == u[i].isDynamic && v[i].parent == u[i].parent
      ensures v[i].action == u[i].action && u[i].submenus <= v[i].submenus
      ensures u[i].action.Some? ==> v[i].submenus == u[i].submenus
    {
      if i == x && names != [] {
        assert u[i].action.None?;
      } else if i == x {
        assert |v[i].submenus| == |u[i].submenus|;
      }
    }
  }

  /** `get_full_path` (menu.py:47-56): the names from the root down to `i`, joined by `" > "`. */
  function FullPath(t: Tree, i: nat): (r: string)
    requires Valid(t) && i < |t|
    ensures i == Root ==> r == RootName
    ensures |r| >= |t[i].name| && (i != Root ==> |r| > |RootName| + |t[i].name|)
    decreases i
  {
    match t[i].parent
    case None => t[i].name
    case Some(p) => FullPath(t, p) + " > " + t[i].name
  }

  /** `" > " + c` for each component `c` of `path`, in order. */
  function Rendered(path: seq<string>): string
  {
    if path == [] then "" else " > " + path[0] + Rendered(path[1..])
  }

  /** The full path of a node reached by `path` from `n` extends that of `n` by the components of `path`. */
  lemma {:induction false} FullPathAlong(t: Tree, n: nat, path: seq<string>)
    requires Valid(t) && n < |t| && Resolve(t, n, path).Some?
    ensures FullPath(t, Resolve(t, n, path).value) == FullPath(t, n) + Rendered(path)
    decreases |path|
  {
    if path != [] {
      var c := Child(t, n, path[0]).value;
      var x := Resolve(t, n, path).value;
      ResolveStep(t, n, path, c);
      FullPathChild(t, n, path[0], c);
      FullPathAlong(t, c, path[1..]);
      ConcatAssoc(FullPath(t, n), " > " + path[0], Rendered(path[1..]));
    }
  }

  /** A child's full path is its parent's followed by `" > "` and its own name. */
  lemma FullPathChild(t: Tree, n: nat, name: string, c: nat)
    requires Valid(t) && n < |t| && Child(t, n, name) == Some(c)
    ensures FullPath(t, c) == FullPath(t, n) + (" > " + name)
  {
    var j :| 0 <= j < |t[n].submenus| && t[n].submenus[j] == c;
    assert ChildrenLinked(t);
    assert t[c].parent == Some(n);
    ConcatAssoc(FullPath(t, n), " > ", name);
  }

  lemma ConcatAssoc(a: string, b: string, c: string)
    ensures (a + b) + c == a + (b + c)
  {
  }

  /** The root renders as `Main`, and the node that `path` names as `Main > p1 > ... > pn`. */
  lemma FullPathOfPath(t: Tree, path: seq<string>)
    requires Valid(t) && Resolve(t, Root, path).Some?
    ensures FullPath(t, Root) == RootName
    ensures FullPath(t, Resolve(t, Root, path).value) == RootName + Rendered(path)
  {
    FullPathAlong(t, Root, path);
  }
}
