# Interactive menu engine of magnascale-automation, in Dafny

This project models the hierarchical console menu of `magnascale_automation/command/interactive/menu.py`
and proves properties of it. It covers:

- the `Menu` objects: name, optional action, dynamic flag, ordered submenus and parent link;
- `Menu.add_submenu` and the `ValueError` it raises below a menu that has an action;
- `Menu.get_full_path`;
- the choice loop of `Menu.run`;
- `MenuManager` with `add_menu` and `add_dynamic_submenus`;
- the exit test of the hidden shell `enter_bash_command`;
- the tree that `build_menu` ships.

Modules:

- `Wrappers` (`wrappers.dfy`): `Option` and `Result`.
- `Text` (`text.dfy`): the parts of Python's `str.strip()`, `str.lower()`, `int()` and `str()` that the menu relies on.
- `MenuTree` (`menu_tree.dfy`): the menu tree as a value. It is a table of `MenuNode` records, and a menu is identified by its index. `submenus` and `parent` hold indices into the same table, and the root `Main` is entry 0. It holds the functions that specify `add_submenu`, the path walk, `add_menu`, `add_dynamic_submenus` and `get_full_path`, and the lemmas about them.
- `Manager` (`menu_manager.dfy`): class `MenuManager`, whose field `nodes` is that table. Its methods run the loops of the source in place. Each is proved to leave exactly the table the `MenuTree` functions describe, and to leave it unchanged when `add_submenu` raises.
- `Shell` (`shell.dfy`): `enter_bash_command` as a function of the lines typed, together with its loop.
- `Navigation` (`navigation.dfy`): `Menu.run` as a function from a script of input lines to a trace of events. The events are listings, actions invoked, rejections and shell events. The function also returns the lines left and whether input ran out.
- `Catalog` (`build_menu.dfy`): the six registrations of `build_menu`, one table per step, and the method `BuildMenu`.
- `Walkthrough` (`walkthrough.dfy`): sessions over the shipped tree. Each states what a user who types a given script sees and runs.

Two consequences of the code are worth stating on their own:

- In `Menu.run` the Back test comes before the shell test. So `99` at the root is Back when the root has 98 submenus. At any other menu, `99` selects submenu 99 when there are that many. `Navigation.NinetyNine` states all four cases.
- The path walk reuses the first submenu with a matching name, but `add_dynamic_submenus` never de-duplicates the names it appends. Calling it twice with the same names appends the dynamic menus twice. `MenuTree.AppendDynamicSpec` states this.

## Model

| member | source | states |
|---|---|---|
| Text.Strip | magnascale_automation/command/interactive/menu.py:161 | `strip()` returns no more characters than it was given, with no whitespace at either end |
| Text.StripPadded | magnascale_automation/command/interactive/menu.py:161 | `strip()` removes exactly the whitespace padding around a trimmed core, whatever the core |
| Text.StripSplits | magnascale_automation/command/interactive/menu.py:161 | every string is its stripped core with only whitespace on each side |
| Text.Lower | magnascale_automation/command/interactive/menu.py:161 | `lower()` keeps the length of the string |
| Text.LowerSpec | magnascale_automation/command/interactive/menu.py:161 | `lower()` keeps the length and maps each character on its own, changing exactly the capital ASCII letters |
| Text.ParseInt | magnascale_automation/command/interactive/menu.py:79 | `int()` raises on a line holding one of the separators U+001C to U+001F anywhere, and on a line that is empty or only whitespace |
| Text.SeparatorIsNotPadding | magnascale_automation/command/interactive/menu.py:79 | `int()` refuses a separator U+001C in front of `3` but skips a space there and reads 3 |
| Text.IntToString | magnascale_automation/command/interactive/menu.py:73-75 | `str()` of a number is never empty and starts with `-` exactly when the number is negative |
| Text.IntToStringShape | magnascale_automation/command/interactive/menu.py:73-75 | `str()` of a number has no whitespace at either end and no separator, and is the decimal digits of its magnitude, after a `-` when it is negative |
| Text.ParseIntRoundTrip | magnascale_automation/command/interactive/menu.py:73-79 | `int()` reads back every number `str()` prints as that same number when it has at most 4300 digits, and raises beyond that limit |
| Text.ParseIntIgnoresPadding | magnascale_automation/command/interactive/menu.py:79 | the whitespace `int()` skips (whitespace other than the separators U+001C to U+001F) around a typed number does not change what `int()` reads |
| Shell.IsExit | magnascale_automation/command/interactive/menu.py:161 | a line accepted as `exit` is four characters once stripped |
| Shell.Commands | magnascale_automation/command/interactive/menu.py:158-173 | the read loop never leaves more lines than it was given, and it leaves none when input runs out before `exit` |
| Shell.EnterBashCommand | magnascale_automation/command/interactive/menu.py:151-173 | the same for the whole shell: no more lines left than given, none when input ran out |
| Shell.CommandsLeftover | magnascale_automation/command/interactive/menu.py:158-173 | what the shell leaves unread is a suffix of its input: it reads lines in order and never puts one back |
| Shell.CommandsSpec | magnascale_automation/command/interactive/menu.py:158-173 | the shell stops iff some line reads `exit`; it consumes the first such line and nothing after it; every earlier line goes to the interpreter verbatim, in order; without such a line every line is run and input runs out |
| Shell.ExitAccepted | magnascale_automation/command/interactive/menu.py:161-163 | `exit` in any letter case with any whitespace around it leaves the shell |
| Shell.ExitOnlyPadded | magnascale_automation/command/interactive/menu.py:161-163 | only such lines leave the shell: whitespace, the four letters of `exit` in some case, whitespace |
| Shell.RunShell | magnascale_automation/command/interactive/menu.py:151-173 | the banner-then-read loop yields exactly the trace, remaining input and exit flag of `EnterBashCommand` |
| MenuTree.ErrorMessage | magnascale_automation/command/interactive/menu.py:43 | the `ValueError` message names the menu that has an action, right after `Menu '` |
| MenuTree.NewMenu | magnascale_automation/command/interactive/menu.py:16-30 | a new menu has the given name, action and dynamic flag, no submenus and no parent |
| MenuTree.Initial | magnascale_automation/command/interactive/menu.py:95-97 | a fresh manager's tree is `Main` alone, with no action and no submenus, and is well formed |
| MenuTree.Attach | magnascale_automation/command/interactive/menu.py:44-45 | attaching adds one entry whose parent is `p`, and appends it to `p`'s submenus after the old ones |
| MenuTree.AddSubmenu | magnascale_automation/command/interactive/menu.py:32-45 | `add_submenu` raises iff the menu has an action; otherwise the table grows by one entry whose parent is that menu |
| MenuTree.ValidClosed | magnascale_automation/command/interactive/menu.py:30-45 | in a well-formed tree every submenu is an entry of the table, and the root is the only menu without a parent |
| MenuTree.AttachValid | magnascale_automation/command/interactive/menu.py:44-45 | attaching a fresh menu keeps the tree well formed and only appends to it |
| MenuTree.AddSubmenuSpec | magnascale_automation/command/interactive/menu.py:32-45 | `add_submenu` raises iff the menu has an action, with that menu's name; otherwise the new menu becomes the last submenu with its parent set, and nothing else changes |
| MenuTree.FirstNamed | magnascale_automation/command/interactive/menu.py:109-112 | the search returns the first position whose name matches; no earlier submenu has that name; when it finds none, no submenu has that name |
| MenuTree.Child | magnascale_automation/command/interactive/menu.py:109-112 | a submenu found by name is a submenu of that menu, carries that name, and comes after it in the table |
| MenuTree.Walk | magnascale_automation/command/interactive/menu.py:107-116 | a path walk that does not raise leaves a well-formed tree that only grew by appending, and ends at one of its menus |
| MenuTree.WalkSpec | magnascale_automation/command/interactive/menu.py:107-116 | if the whole path exists, the walk changes nothing and ends there; otherwise it raises iff the deepest existing menu has an action, and else creates exactly the missing components as a chain below that menu |
| MenuTree.WalkResolves | magnascale_automation/command/interactive/menu.py:107-116 | after the walk, the path names the menu the walk ended at |
| MenuTree.ResolveWalk | magnascale_automation/command/interactive/menu.py:107-116 | if a path already names a menu, the walk creates nothing and ends at it |
| MenuTree.WalkIdempotent | magnascale_automation/command/interactive/menu.py:107-116 | walking the same path a second time creates nothing and ends at the same menu |
| MenuTree.WalkCount | magnascale_automation/command/interactive/menu.py:107-116 | the walk creates as many menus as there are components beyond the longest existing prefix |
| MenuTree.WalkCreatesChain | magnascale_automation/command/interactive/menu.py:113-116 | below a menu without an action that lacks the first name, one new plain menu is created per component, each the only submenu of the one before |
| MenuTree.WalkCreatedEndsFresh | magnascale_automation/command/interactive/menu.py:107-116 | a walk that created a menu ends at the newest entry, which has no action and no submenus |
| MenuTree.SetAction | magnascale_automation/command/interactive/menu.py:119-120 | `if action: current_menu.action = action` changes no size, and the menu's action becomes the given one when one is given and stays as it was otherwise |
| MenuTree.SameShapeFollow | magnascale_automation/command/interactive/menu.py:118-120 | path lookup depends on names and submenus only, so setting an action does not change where any path leads |
| MenuTree.AddMenu | magnascale_automation/command/interactive/menu.py:99-120 | `add_menu` that does not raise leaves a well-formed tree |
| MenuTree.AddMenuSpec | magnascale_automation/command/interactive/menu.py:99-120 | `add_menu` raises iff the first missing component would go below a menu with an action; otherwise it creates exactly the missing components, the path then names a menu, and that menu's action is the given one, or its old one when none is given |
| MenuTree.AddMenuIdempotent | magnascale_automation/command/interactive/menu.py:99-120 | a second `add_menu` with the same path and action changes nothing |
| MenuTree.AddMenuGrows | magnascale_automation/command/interactive/menu.py:99-120 | `add_menu` only appends; old menus keep name, kind and parent, never lose an action, and a menu with an action gains no submenu; dynamic menus stay leaves |
| MenuTree.AppendDynamic | magnascale_automation/command/interactive/menu.py:142-144 | the dynamic-append loop that does not raise leaves a well-formed tree that only grew by appending |
| MenuTree.AppendDynamicUnfold | magnascale_automation/command/interactive/menu.py:142-144 | one turn of the loop: raise with the menu's name when it has an action, else append the first name and go on with the rest |
| MenuTree.AppendDynamicSpec | magnascale_automation/command/interactive/menu.py:142-144 | the loop raises iff there is a name and the menu has an action; otherwise one dynamic leaf per name, with the shared action, is appended after the existing submenus in the given order, with no de-duplication |
| MenuTree.AddDynamicSubmenus | magnascale_automation/command/interactive/menu.py:122-144 | `add_dynamic_submenus` that does not raise leaves a well-formed tree |
| MenuTree.AddDynamicSubmenusFails | magnascale_automation/command/interactive/menu.py:122-144 | it raises iff the deepest existing menu on the path has an action and something would be added below it: a missing component or a name |
| MenuTree.AddDynamicSubmenusAdds | magnascale_automation/command/interactive/menu.py:122-144 | on success the path names a menu whose last `|names|` submenus are dynamic leaves with those names in order, sharing the action |
| MenuTree.AddDynamicSubmenusGrows | magnascale_automation/command/interactive/menu.py:122-144 | `add_dynamic_submenus` only appends, never adds a submenu below a menu with an action, and keeps dynamic menus leaves |
| MenuTree.AppendResolves | magnascale_automation/command/interactive/menu.py:99-144 | a path that names a menu keeps naming the same menu after the tree grows by appending |
| MenuTree.FullPath | magnascale_automation/command/interactive/menu.py:47-56 | the root's full path is `Main`; any other menu's is longer than `Main` and its own name together |
| MenuTree.FullPathChild | magnascale_automation/command/interactive/menu.py:47-56 | a submenu's full path is its parent's followed by ` > ` and its own name |
| MenuTree.FullPathAlong | magnascale_automation/command/interactive/menu.py:47-56 | the full path of the menu a path leads to extends the start's full path by ` > ` and each component |
| MenuTree.FullPathOfPath | magnascale_automation/command/interactive/menu.py:47-56 | the root renders as `Main`, and the menu a path names as `Main > p1 > ... > pn` |
| Manager.MenuManager.constructor | magnascale_automation/command/interactive/menu.py:95-97 | a new manager holds `Main` alone, with no action and no submenus |
| Manager.MenuManager.AddSubmenu | magnascale_automation/command/interactive/menu.py:32-45 | raises with the menu's name iff it has an action, leaving the table unchanged; otherwise appends the submenu as `AddSubmenu` specifies and returns its index |
| Manager.MenuManager.FindSubmenu | magnascale_automation/command/interactive/menu.py:109-112 | the `for ... break` search returns the first submenu with the name, as `Child` specifies |
| Manager.MenuManager.FindOrCreate | magnascale_automation/command/interactive/menu.py:109-116 | one walk step either raises (table unchanged, the menu has an action) or leaves the walk of the rest of the path equal to the walk of the whole; a step that changed the table ends at a fresh menu with no action |
| Manager.MenuManager.WalkPath | magnascale_automation/command/interactive/menu.py:107-116 | the walk loop leaves exactly the table and menu `Walk` specifies, or raises its error with the table unchanged |
| Manager.MenuManager.AddMenu | magnascale_automation/command/interactive/menu.py:99-120 | `add_menu` leaves exactly the table `AddMenu` specifies, or raises its error with the table unchanged |
| Manager.MenuManager.AddDynamicSubmenus | magnascale_automation/command/interactive/menu.py:122-144 | `add_dynamic_submenus` leaves exactly the table `AddDynamicSubmenus` specifies, or raises its error with the table unchanged |
| Manager.MenuManager.AppendSubmenus | magnascale_automation/command/interactive/menu.py:142-144 | the append loop leaves exactly the table `AppendDynamic` specifies, or raises its error with the table unchanged |
| Navigation.ArgumentOf | magnascale_automation/command/interactive/menu.py:65-68 | an action gets an argument exactly when its menu is dynamic, and that argument is the menu's name |
| Navigation.Run | magnascale_automation/command/interactive/menu.py:58-89 | a run never leaves more lines than it was given, and it stops because input ran out only when no line is left |
| Navigation.Loop | magnascale_automation/command/interactive/menu.py:62-89 | the same for the prompt loop of a menu without an action |
| Navigation.RunLeftover | magnascale_automation/command/interactive/menu.py:58-89 | what a run leaves unread is a suffix of its input: lines are read in order and none is put back |
| Navigation.LoopLeftover | magnascale_automation/command/interactive/menu.py:62-89 | the same for the prompt loop |
| Navigation.Listing | magnascale_automation/command/interactive/menu.py:72-75 | the listing has one line per submenu plus the path line and the Back line |
| Navigation.Dispatch | magnascale_automation/command/interactive/menu.py:79-89 | each outcome with its exact condition: Back iff the number is one past the last submenu; shell iff 99 at the root and 99 is not Back; submenu `i` iff `1 <= i <= k` and not the root's 99; invalid input iff the line is not a number; invalid choice otherwise |
| Navigation.RunAction | magnascale_automation/command/interactive/menu.py:63-69 | a menu with an action runs it once, with its own name when it is dynamic and no argument otherwise, reads no input and returns |
| Navigation.RunFaithful | magnascale_automation/command/interactive/menu.py:58-69 | every action a session runs belongs to the menu it is recorded for, with the argument its kind calls for |
| Navigation.LoopFaithful | magnascale_automation/command/interactive/menu.py:58-89 | the prompt loop only runs actions of the menus it enters, with the right argument, and lists only menus without an action |
| Navigation.ListingLines | magnascale_automation/command/interactive/menu.py:72-75 | the listing is the full-path line, one line per submenu numbered from 1 in order, then Back numbered one past them |
| Navigation.ListedNumbersSelect | magnascale_automation/command/interactive/menu.py:73-85 | typing the number printed beside a submenu runs that submenu, except the root's 99, which opens the shell; typing the number printed beside Back leaves the menu |
| Navigation.LoopBack | magnascale_automation/command/interactive/menu.py:79-81 | the Back number leaves the menu at once, running nothing |
| Navigation.LoopShell | magnascale_automation/command/interactive/menu.py:82-83 | 99 at the root opens the shell; after `exit` the root is listed again and reads the lines after it; if input runs out in the shell, the session stops |
| Navigation.LoopDescends | magnascale_automation/command/interactive/menu.py:84-85 | a number `i` in range runs submenu `i`; when it returns this menu is listed again, unless input ran out inside it |
| Navigation.LoopRejectsChoice | magnascale_automation/command/interactive/menu.py:86-87 | any other number is reported and the same menu is listed again |
| Navigation.LoopRejectsInput | magnascale_automation/command/interactive/menu.py:88-89 | a line that is not a number is reported and the same menu is listed again |
| Navigation.NinetyNine | magnascale_automation/command/interactive/menu.py:80-87 | 99 at the root opens the shell unless the root has 98 submenus (then it is Back); elsewhere it is out of range below 98 submenus, Back at 98 and submenu 99 above |
| Catalog.Step1 | magnascale_automation/command/interactive/menu.py:184-187 | the first registration on a fresh manager creates cluster, maintenance-mode and enter, with the action on enter |
| Catalog.Step2 | magnascale_automation/command/interactive/menu.py:188 | the second reuses cluster and maintenance-mode and adds exit beside enter |
| Catalog.Step3 | magnascale_automation/command/interactive/menu.py:189 | the third adds refresh under cluster |
| Catalog.Step4 | magnascale_automation/command/interactive/menu.py:190 | the fourth adds power-off under cluster |
| Catalog.Step5 | magnascale_automation/command/interactive/menu.py:192-193 | the dynamic registration creates node and power-off, then node1, node2 and node3 as dynamic leaves in order |
| Catalog.Step6 | magnascale_automation/command/interactive/menu.py:194 | the last registration adds discover under node, after power-off |
| Catalog.MenuTable | magnascale_automation/command/interactive/menu.py:177-196 | the shipped tree has thirteen menus, rooted at `Main`, which has no parent |
| Catalog.BuiltValid | magnascale_automation/command/interactive/menu.py:184-196 | every intermediate and the final tree are well formed |
| Catalog.MenuTableValid | magnascale_automation/command/interactive/menu.py:177-196 | the shipped tree is well formed |
| Catalog.BuildMenu | magnascale_automation/command/interactive/menu.py:177-196 | `build_menu` raises nothing and returns a fresh manager holding exactly the shipped table |
| Walkthrough.ClusterEnterResolves | magnascale_automation/command/interactive/menu.py:187 | the path `cluster > maintenance-mode > enter` names the entry registered first |
| Walkthrough.ClusterEnterPath | magnascale_automation/command/interactive/menu.py:47-56 | that entry's full path is `Main > cluster > maintenance-mode > enter` |
| Walkthrough.NodeTwoResolves | magnascale_automation/command/interactive/menu.py:192-193 | the path `node > power-off > node2` names the second dynamic entry |
| Walkthrough.NodeTwoPath | magnascale_automation/command/interactive/menu.py:47-56 | that dynamic entry's full path ends in its own name |
| Walkthrough.RefreshSession | magnascale_automation/command/interactive/menu.py:58-89 | typing 1, 2, 4, 3 opens cluster, runs refresh, goes back to Main and leaves it, with the exact trace |
| Walkthrough.RefreshScenario | magnascale_automation/command/interactive/menu.py:58-89 | the same session on the shipped tree with the lines "1", "2", "4", "3" |
| Walkthrough.NodeTwoSession | magnascale_automation/command/interactive/menu.py:63-85 | typing 2, 1, 2, 4, 3 runs the node power-off action with the argument `node2`; input then runs out at Main |
| Walkthrough.NodeTwoScenario | magnascale_automation/command/interactive/menu.py:63-85 | the same session on the shipped tree with the lines "2", "1", "2", "4", "3" |
| Walkthrough.ShellWords | magnascale_automation/command/interactive/menu.py:161 | `ls -l` does not leave the shell; ` EXIT ` does |
| Walkthrough.ShellSession | magnascale_automation/command/interactive/menu.py:82-83 | 99 at Main opens the shell; one command runs; an exit line leaves the shell; Main is listed again and 3 leaves it |
| Walkthrough.ShellScenario | magnascale_automation/command/interactive/menu.py:151-163 | the same session on the shipped tree with the lines "99", "ls -l", " EXIT ", "3" |
| Walkthrough.MistakesSession | magnascale_automation/command/interactive/menu.py:86-89 | a word and an out-of-range number at Main are each reported, and Main is listed again after each |
| Walkthrough.MistakesScenario | magnascale_automation/command/interactive/menu.py:86-89 | the same on the shipped tree with the lines "abc", "7", "3" |

## Left out

- Console output: the rich markup, colours and the wording of the messages. The trace records which message was shown (`Shown`, `ChoiceRejected`, `InputRejected`, the shell's `Entered` and `Left`), not its text. `Navigation.Listing` gives the listing lines without markup.
- Prompt strings passed to `input()`: they carry no behaviour.
- Running shell commands (`subprocess.run`), their output and their failures. A command appears in the trace as `Shell.Ran(command)`.
- The actions' own behaviour. An action is `MenuTree.ActionRef`, the name of the callable. The functions in `action/cluster.py` and `action/node.py` are not part of this model, and actions are taken never to raise. In the source, a `ValueError` raised by an action, or by a nested `run`, would be caught by an enclosing menu's `try` and reported as invalid input. The model does not capture that.
- End of input: it is modelled as the status `InputClosed`, which stops the whole session. In the source `input()` raises `EOFError`, which no `except` in the module catches. Keyboard interrupts are not modelled.
- `int()` is modelled for base 10: an optional sign, single underscores between digits, the limit of 4300 digits, and the whitespace it skips around the number. That whitespace is every character `str.isspace()` accepts except the separators U+001C to U+001F, which `int()` refuses anywhere in the line. Non-ASCII decimal digits, which `int()` accepts, are not modelled: the model rejects them. `str.lower()` is modelled on ASCII letters only.
- Text.IntToString: does not model that `str()` refuses integers of more than 4300 digits. The menu only prints numbers up to one past its submenu count.
- Navigation.ListedNumbersSelect: requires the Back number to have at most 4300 digits. `str()` refuses to print a larger one, so this covers every listing the source can print.
- Python truthiness: `if self.action:` and `if action:` are modelled as "an action is present". A falsy callable is not modelled.
- Object identity and aliasing between `Menu` objects: menus are entries of one table inside `MenuManager`, identified by index. `Menu.add_submenu` is modelled only as it is called here, with a freshly built menu. Attaching an existing menu, which would move it or share it, is not modelled.
- `MenuManager.run`: it only calls `run` on the root. It is `Navigation.Run(t, Root, input)`.
- `Navigation.Run` works on a finite script of input lines. An endless session is not modelled.
