/**
 * `MenuManager` as a class whose one field is the table of menus. Its methods change the
 * table in place, loop the way `menu.py` does, and are proved to leave exactly the table that
 * the functions of `MenuTree` describe; on a `ValueError` the table is left as it was.
 */
module Manager {
  import opened Wrappers
  import opened MenuTree

  class MenuManager {
    /** Every `Menu` object reachable from `root_menu`, the root first. */
    var nodes: Tree

    ghost predicate Valid()
      reads this
    {
      MenuTree.Valid(nodes)
    }

    /** `MenuManager()`: a root menu named `Main` with no action and no submenus. */
    constructor ()
      ensures Valid() && nodes == Initial()
    {
      nodes := Initial();
    }

    /**
     * `menu.add_submenu(submenu)` for the menu at index `p`, where `submenu` is a freshly built
     * `Menu`. Raises (returns `Failure`) on a menu that has an action; otherwise returns the index
     * of the new entry.
     */
    method AddSubmenu(p: nat, submenu: MenuNode) returns (r: Result<nat, MenuError>)
      requires Valid() && p < |nodes| && submenu.submenus == []
      modifies this
      ensures Valid()
      ensures r == if old(nodes)[p].action.Some? then Failure(ActionCannotHaveSubmenus(old(nodes)[p].name))
                   else Success(|old(nodes)|)
      ensures nodes == match MenuTree.AddSubmenu(old(nodes), p, submenu)
                       case Success(u) => u
                       case Failure(_) => old(nodes)
      ensures old(nodes)[p].action.None? ==> nodes == Attach(old(nodes), p, submenu)
    {
      if nodes[p].action.Some? {
        return Failure(ActionCannotHaveSubmenus(nodes[p].name));
      }
      AttachValid(nodes, p, submenu);
      var parent := nodes[p].(submenus := nodes[p].submenus + [|nodes|]);
      nodes := nodes[p := parent] + [submenu.(parent := Some(p))];
      r := Success(|nodes| - 1);
    }

    /** The inner `for ... break` search of the path walk: the first submenu of `current` named `name`. */
    method FindSubmenu(current: nat, name: string) returns (found: Option<nat>)
      requires Valid() && current < |nodes|
      ensures found == Child(nodes, current, name)
    {
      var kids := nodes[current].submenus;
      assert ChildrenLinked(nodes);
      var j := 0;
      while j < |kids|
        invariant 0 <= j <= |kids|
        invariant forall i :: 0 <= i < j ==> nodes[kids[i]].name != name
      {
        if nodes[kids[j]].name == name {
          FirstNamedIs(nodes, kids, name, j);
          return Some(kids[j]);
        }
        j := j + 1;
      }
      return None;
    }

    /**
     * One step of the path walk (the `for ... else` at menu.py:109-116): descend into the first
     * submenu of `current` named `path[0]`, or create it with `add_submenu`, which may raise.
     */
    method FindOrCreate(current: nat, ghost path: seq<string>, name: string) returns (r: Result<nat, MenuError>)
      requires Valid() && current < |nodes| && path != [] && path[0] == name
      modifies this
      ensures Valid()
      ensures r.Failure? ==> nodes == old(nodes) && old(nodes)[current].action.Some? &&
                             Walk(old(nodes), current, path) == Failure(r.error)
      ensures r.Success? ==> r.value < |nodes| && Walk(old(nodes), current, path) == Walk(nodes, r.value, path[1..])
      ensures r.Success? ==> (nodes == old(nodes) && old(nodes)[current].submenus != []) ||
                             (nodes[r.value].action.None? && nodes[r.value].submenus == [])
    {
      var found := FindSubmenu(current, name);
      match found {
        case Some(c) =>
          return Success(c);
        case None =>
          r := AddSubmenu(current, NewMenu(name, None, false));
      }
    }

    /**
     * The path walk that `add_menu` and `add_dynamic_submenus` both start with: for each
     * component, descend into the first submenu with that name or create one. Returns the
     * index of the menu reached, or the `ValueError` of `add_submenu`.
     */
    method WalkPath(path: seq<string>) returns (r: Result<nat, MenuError>)
      requires Valid()
      modifies this
      ensures Valid()
      ensures match Walk(old(nodes), Root, path)
              case Failure(e) => r == Failure(e) && nodes == old(nodes)
              case Success((u, x)) => r == Success(x) && nodes == u
    {
      ghost var goal := Walk(nodes, Root, path);
      ghost var start := nodes;
      var current: nat := Root;
      var i := 0;
      while i < |path|
        invariant Valid() && current < |nodes| && 0 <= i <= |path|
        invariant goal == Walk(nodes, current, path[i..])
        invariant nodes == start || (nodes[current].action.None? && nodes[current].submenus == [])
      {
        assert path[i..][1..] == path[i + 1..];
        var step := FindOrCreate(current, path[i..], path[i]);
        if step.Failure? {
          return Failure(step.error);
        }
        current := step.value;
        i := i + 1;
      }
      assert path[i..] == [];
      return Success(current);
    }

    /** `add_menu(path, action)`: walk the path, then set the action when one is given. */
    method AddMenu(path: seq<string>, action: Option<ActionRef>) returns (raised: Option<MenuError>)
      requires Valid()
      modifies this
      ensures Valid()
      ensures match MenuTree.AddMenu(old(nodes), path, action)
              case Failure(e) => raised == Some(e) && nodes == old(nodes)
              case Success(v) => raised == None && nodes == v
    {
      var reached := WalkPath(path);
      if reached.Failure? {
        return Some(reached.error);
      }
      var current := reached.value;
      SetActionShape(nodes, current, action);
      if action.Some? {
        nodes := nodes[current := nodes[current].(action := action)];
      }
      return None;
    }

    /**
     * `add_dynamic_submenus(path, submenu_names, action)`: walk the path, then add one dynamic
     * menu per name, in order, each with the shared action.
     */
    method AddDynamicSubmenus(path: seq<string>, names: seq<string>, action: ActionRef)
      returns (raised: Option<MenuError>)
      requires Valid()
      modifies this
      ensures Valid()
      ensures match MenuTree.AddDynamicSubmenus(old(nodes), path, names, action)
              case Failure(e) => raised == Some(e) && nodes == old(nodes)
              case Success(v) => raised == None && nodes == v
    {
      var reached := WalkPath(path);
      if reached.Failure? {
        return Some(reached.error);
      }
      WalkCreatedEndsFresh(old(nodes), Root, path);
      AppendDynamicSpec(nodes, reached.value, names, action);
      raised := AppendSubmenus(reached.value, names, action);
    }

    /** The loop at menu.py:142-144: one `add_submenu` per name, each a dynamic menu sharing `action`. */
    method AppendSubmenus(current: nat, names: seq<string>, action: ActionRef) returns (raised: Option<MenuError>)
      requires Valid() && current < |nodes|
      modifies this
      ensures Valid()
      ensures match AppendDynamic(old(nodes), current, names, action)
              case Failure(e) => raised == Some(e) && nodes == old(nodes)
              case Success(v) => raised == None && nodes == v
    {
      ghost var goal := AppendDynamic(nodes, current, names, action);
      ghost var start := nodes;
      var k := 0;
      while k < |names|
        invariant Valid() && current < |nodes| && 0 <= k <= |names|
        invariant goal == AppendDynamic(nodes, current, names[k..], action)
        invariant k == 0 ==> nodes == start
        invariant k > 0 ==> nodes[current].action.None?
      {
        assert names[k..][1..] == names[k + 1..];
        AppendDynamicUnfold(nodes, current, names[k..], action);
        var added := AddSubmenu(current, NewMenu(names[k], Some(action), true));
        if added.Failure? {
          assert k == 0 && nodes == start;
          return Some(added.error);
        }
        k := k + 1;
      }
      assert names[k..] == [];
      return None;
    }
  }
}
