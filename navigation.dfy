/**
 * `Menu.run` (menu.py:58-89): the interactive loop over the menu tree. Input is a finite
 * script of lines, one per `input()` call; the display and the actions are recorded as
 * events. Running out of input stands for `input()` failing at end of file, which no
 * `except` in the loop catches, so the whole session stops.
 */
module Navigation {
  import opened Wrappers
  import opened Text
  import opened MenuTree
  import Shell

  /** What one integer choice (or a line that is not an integer) selects at a menu. */
  datatype Choice =
    | Back                 // the last listed option: leave this menu
    | ShellEscape          // the hidden 99 at the root menu
    | Descend(index: nat)  // run submenu `index` (0-based)
    | InvalidChoice        // "Invalid choice. Please try again."
    | InvalidInput         // "Invalid input. Please enter a number."

  /** The rule of menu.py:79-89 at a menu with `count` submenus; `atRoot` is `self.parent is None`. */
  function Dispatch(choice: Option<int>, count: nat, atRoot: bool): (c: Choice)
    ensures c == Back <==> choice == Some(count + 1)
    ensures c == ShellEscape <==> choice == Some(99) && atRoot && count + 1 != 99
    ensures c.Descend? <==> choice.Some? && 1 <= choice.value <= count && !(atRoot && choice.value == 99)
    ensures c.Descend? ==> c.index == choice.value - 1 && c.index < count
    ensures c == InvalidInput <==> choice.None?
    ensures c == InvalidChoice <==>
      choice.Some? && !(1 <= choice.value <= count + 1) && !(atRoot && choice.value == 99)
  {
    match choice
    case None => InvalidInput
    case Some(v) =>
      if v == count + 1 then Back
      else if v == 99 && atRoot then ShellEscape
      else if 1 <= v <= count then Descend(v - 1)
      else InvalidChoice
  }

  /** The argument an action is called with: the menu's own name when it is dynamic, none otherwise. */
  function ArgumentOf(m: MenuNode): (r: Option<string>)
    ensures r.Some? <==> m.isDynamic
    ensures r.Some? ==> r.value == m.name
  {
    if m.isDynamic then Some(m.name) else None
  }

  datatype Event =
    | Shown(menu: nat)                                                // the listing of an interior menu
    | Invoked(menu: nat, action: ActionRef, argument: Option<string>) // an action ran
    | ChoiceRejected                                                  // an integer that selects nothing
    | InputRejected                                                   // a line that is not an integer
    | InShell(event: Shell.ShellEvent)                                // what the hidden shell did

  /** `Returned`: the loop of the menu ended normally. `InputClosed`: input ran out and the session stops. */
  datatype Status = Returned | InputClosed

  datatype Session = Session(trace: seq<Event>, rest: seq<string>, status: Status)

  /** `s` with the events `done` recorded in front of it. */
  function After(done: seq<Event>, s: Session): Session
  {
    s.(trace := done + s.trace)
  }

  function ShellEvents(trace: seq<Shell.ShellEvent>): (r: seq<Event>)
    ensures |r| == |trace| && forall k :: 0 <= k < |trace| ==> r[k] == InShell(trace[k])
  {
    if trace == [] then [] else [InShell(trace[0])] + ShellEvents(trace[1..])
  }

  /**
   * `menu.run()` for the menu at index `n`: a menu with an action runs it once and returns
   * without reading input; any other menu runs its prompt loop.
   */
  function Run(t: Tree, n: nat, input: seq<string>): (s: Session)
    requires Closed(t) && n < |t|
    ensures |s.rest| <= |input|
    ensures s.status == InputClosed ==> s.rest == []
    decreases |input|, 1
  {
    match t[n].action
    case Some(a) => Session([Invoked(n, a, ArgumentOf(t[n]))], input, Returned)
    case None => Loop(t, n, input)
  }

  /**
   * The prompt loop of a menu without an action: show the listing, read a line, dispatch on it.
   * It stops because input ran out only once every line has been read.
   */
  function Loop(t: Tree, n: nat, input: seq<string>): (s: Session)
    requires Closed(t) && n < |t| && t[n].action.None?
    ensures |s.rest| <= |input|
    ensures s.status == InputClosed ==> s.rest == []
    decreases |input|, 0
  {
    if input == [] then Session([Shown(n)], [], InputClosed)
    else
      var rest := input[1..];
      match Dispatch(ParseInt(input[0]), |t[n].submenus|, t[n].parent.None?)
      case Back => Session([Shown(n)], rest, Returned)
      case ShellEscape =>
        var sh := Shell.EnterBashCommand(rest);
        if !sh.exited then Session([Shown(n)] + ShellEvents(sh.trace), sh.rest, InputClosed)
        else After([Shown(n)] + ShellEvents(sh.trace), Loop(t, n, sh.rest))
      case Descend(j) =>
        var sub := Run(t, t[n].submenus[j], rest);
        if sub.status == InputClosed then After([Shown(n)], sub)
        else After([Shown(n)] + sub.trace, Loop(t, n, sub.rest))
      case InvalidChoice => After([Shown(n), ChoiceRejected], Loop(t, n, rest))
      case InvalidInput => After([Shown(n), InputRejected], Loop(t, n, rest))
  }

  /**
   * A session reads lines from the front of its input only: what it leaves unread is a suffix
   * of the input, which the menu it returns to goes on reading.
   */
  lemma {:induction false} RunLeftover(t: Tree, n: nat, input: seq<string>)
    requires Closed(t) && n < |t|
    ensures Shell.Leftover(Run(t, n, input).rest, input)
    decreases |input|, 1
  {
    if t[n].action.None? {
      LoopLeftover(t, n, input);
    } else {
      assert input[|input| - |input|..] == input;
    }
  }

  lemma {:induction false} LoopLeftover(t: Tree, n: nat, input: seq<string>)
    requires Closed(t) && n < |t| && t[n].action.None?
    ensures Shell.Leftover(Loop(t, n, input).rest, input)
    decreases |input|, 0
  {
    if input != [] {
      var rest := input[1..];
      assert Shell.Leftover(rest, input);
      match Dispatch(ParseInt(input[0]), |t[n].submenus|, t[n].parent.None?)
      case Back =>
      case ShellEscape =>
        var sh := Shell.EnterBashCommand(rest);
        Shell.CommandsLeftover(rest);
        Shell.LeftoverTrans(sh.rest, rest, input);
        if sh.exited {
          LoopLeftover(t, n, sh.rest);
          Shell.LeftoverTrans(Loop(t, n, sh.rest).rest, sh.rest, input);
        }
      case Descend(j) =>
        var sub := Run(t, t[n].submenus[j], rest);
        RunLeftover(t, t[n].submenus[j], rest);
        Shell.LeftoverTrans(sub.rest, rest, input);
        if sub.status == Returned {
          LoopLeftover(t, n, sub.rest);
          Shell.LeftoverTrans(Loop(t, n, sub.rest).rest, sub.rest, input);
        }
      case InvalidChoice =>
        LoopLeftover(t, n, rest);
        Shell.LeftoverTrans(Loop(t, n, rest).rest, rest, input);
      case InvalidInput =>
        LoopLeftover(t, n, rest);
        Shell.LeftoverTrans(Loop(t, n, rest).rest, rest, input);
    }
  }

  /** The lines of the listing at menu.py:72-75: where we are, one numbered line per submenu, then Back. */
  function Listing(t: Tree, n: nat): (lines: seq<string>)
    requires Valid(t) && n < |t|
    ensures |lines| == |t[n].submenus| + 2
  {
    assert ChildrenLinked(t);
    var kids := t[n].submenus;
    ["You are in the menu path: " + FullPath(t, n) + "."] +
    seq(|kids|, i requires 0 <= i < |kids| => IntToString(i + 1) + ". " + t[kids[i]].name) +
    [IntToString(|kids| + 1) + ". Back"]
  }

  /** The listing has one line per submenu, numbered from 1 in order, then Back numbered one past them. */
  lemma ListingLines(t: Tree, n: nat)
    requires Valid(t) && n < |t|
    ensures var k := |t[n].submenus|; var lines := Listing(t, n);
      |lines| == k + 2 &&
      lines[0] == "You are in the menu path: " + FullPath(t, n) + "." &&
      lines[k + 1] == IntToString(k + 1) + ". Back" &&
      forall i :: 0 <= i < k ==> lines[i + 1] == IntToString(i + 1) + ". " + t[t[n].submenus[i]].name
  {
    assert ChildrenLinked(t);
  }

  /**
   * Typing the number listed beside a submenu runs that submenu, except that at the root the
   * hidden 99 wins over a 99th submenu; typing the number listed beside Back leaves the menu.
   * This holds for every listing Python can print: `str()` refuses, as `int()` does, numbers of
   * more than `MaxStrDigits` digits.
   */
  lemma ListedNumbersSelect(t: Tree, n: nat)
    requires Valid(t) && n < |t| && |IntToString(|t[n].submenus| + 1)| <= MaxStrDigits
    ensures Dispatch(ParseInt(IntToString(|t[n].submenus| + 1)), |t[n].submenus|, t[n].parent.None?) == Back
    ensures forall i :: 0 <= i < |t[n].submenus| ==>
      Dispatch(ParseInt(IntToString(i + 1)), |t[n].submenus|, t[n].parent.None?) ==
        (if n == Root && i + 1 == 99 then ShellEscape else Descend(i))
  {
    ParseIntRoundTrip(|t[n].submenus| + 1);
    forall i | 0 <= i < |t[n].submenus|
      ensures Dispatch(ParseInt(IntToString(i + 1)), |t[n].submenus|, t[n].parent.None?) ==
        (if n == Root && i + 1 == 99 then ShellEscape else Descend(i))
    {
      NatToStringLonger(i + 1, |t[n].submenus| + 1);
      ListedNumberSelects(t, n, i);
    }
  }

  lemma ListedNumberSelects(t: Tree, n: nat, i: nat)
    requires Valid(t) && n < |t| && i < |t[n].submenus| && |NatToString(i + 1)| <= MaxStrDigits
    ensures Dispatch(ParseInt(IntToString(i + 1)), |t[n].submenus|, t[n].parent.None?) ==
      (if n == Root && i + 1 == 99 then ShellEscape else Descend(i))
  {
    assert t[n].parent.None? <==> n == Root by {
      assert ParentsLinked(t);
    }
    ParseIntRoundTrip(i + 1);
  }

  /** Every action that runs belongs to the menu it is recorded for, with the argument its kind calls for, and only menus without an action are ever listed. */
  ghost predicate Faithful(t: Tree, trace: seq<Event>)
  {
    forall k :: 0 <= k < |trace| ==>
      (trace[k].Invoked? ==>
        trace[k].menu < |t| && t[trace[k].menu].action == Some(trace[k].action) &&
        trace[k].argument == ArgumentOf(t[trace[k].menu])) &&
      (trace[k].Shown? ==> trace[k].menu < |t| && t[trace[k].menu].action.None?)
  }

  lemma FaithfulConcat(t: Tree, a: seq<Event>, b: seq<Event>)
    requires Faithful(t, a) && Faithful(t, b)
    ensures Faithful(t, a + b)
  {
    forall k | 0 <= k < |a + b|
      ensures (a + b)[k] == if k < |a| then a[k] else b[k - |a|]
    {
    }
  }

  lemma {:induction false} RunFaithful(t: Tree, n: nat, input: seq<string>)
    requires Closed(t) && n < |t|
    ensures Faithful(t, Run(t, n, input).trace)
    decreases |input|, 1
  {
    if t[n].action.None? {
      LoopFaithful(t, n, input);
    }
  }

  /**
   * A session only calls actions of the menus it enters, each with the menu's own name exactly
   * when the menu is dynamic, and it never lists a menu that has an action.
   */
  lemma {:induction false} LoopFaithful(t: Tree, n: nat, input: seq<string>)
    requires Closed(t) && n < |t| && t[n].action.None?
    ensures Faithful(t, Loop(t, n, input).trace)
    decreases |input|, 0
  {
    if input != [] {
      var rest := input[1..];
      var shown: seq<Event> := [Shown(n)];
      assert Faithful(t, shown);
      match Dispatch(ParseInt(input[0]), |t[n].submenus|, t[n].parent.None?)
      case Back =>
      case ShellEscape =>
        var sh := Shell.EnterBashCommand(rest);
        assert Faithful(t, ShellEvents(sh.trace));
        FaithfulConcat(t, shown, ShellEvents(sh.trace));
        if sh.exited {
          LoopFaithful(t, n, sh.rest);
          FaithfulConcat(t, shown + ShellEvents(sh.trace), Loop(t, n, sh.rest).trace);
        }
      case Descend(j) =>
        var c := t[n].submenus[j];
        var sub := Run(t, c, rest);
        RunFaithful(t, c, rest);
        FaithfulConcat(t, shown, sub.trace);
        if sub.status == Returned {
          LoopFaithful(t, n, sub.rest);
          FaithfulConcat(t, shown + sub.trace, Loop(t, n, sub.rest).trace);
        }
      case InvalidChoice =>
        LoopFaithful(t, n, rest);
        FaithfulConcat(t, [Shown(n), ChoiceRejected], Loop(t, n, rest).trace);
      case InvalidInput =>
        LoopFaithful(t, n, rest);
        FaithfulConcat(t, [Shown(n), InputRejected], Loop(t, n, rest).trace);
    }
  }

  /** A menu with an action runs it exactly once, reads no input and lists nothing (menu.py:63-69). */
  lemma RunAction(t: Tree, n: nat, input: seq<string>)
    requires Closed(t) && n < |t| && t[n].action.Some?
    ensures var s := Run(t, n, input);
      s.trace == [Invoked(n, t[n].action.value, if t[n].isDynamic then Some(t[n].name) else None)] &&
      s.rest == input && s.status == Returned
  {
  }

  /** A line that is not a number is reported and the same menu is listed again (menu.py:88-89). */
  lemma LoopRejectsInput(t: Tree, n: nat, line: string, rest: seq<string>)
    requires Closed(t) && n < |t| && t[n].action.None? && ParseInt(line).None?
    ensures Loop(t, n, [line] + rest) == After([Shown(n), InputRejected], Loop(t, n, rest))
  {
    assert ([line] + rest)[1..] == rest;
  }

  /** For instance, "abc" is not a number. */
  lemma LetterIsNotNumber()
    ensures ParseInt("abc").None?
  {
    StripIsIdentity("abc");
  }

  /**
   * A line that reads as the number one past the last submenu leaves the menu at once, running
   * nothing (menu.py:79-80).
   */
  lemma LoopBack(t: Tree, n: nat, line: string, rest: seq<string>)
    requires Closed(t) && n < |t| && t[n].action.None?
    requires ParseInt(line) == Some(|t[n].submenus| + 1)
    ensures Loop(t, n, [line] + rest) == Session([Shown(n)], rest, Returned)
  {
    assert ([line] + rest)[1..] == rest;
  }

  /**
   * A line that reads as a number outside `1..k+1` (other than the root's 99) is reported and
   * the same menu is listed again (menu.py:86-87).
   */
  lemma LoopRejectsChoice(t: Tree, n: nat, line: string, v: int, rest: seq<string>)
    requires Closed(t) && n < |t| && t[n].action.None? && ParseInt(line) == Some(v)
    requires !(1 <= v <= |t[n].submenus| + 1) && !(t[n].parent.None? && v == 99)
    ensures Loop(t, n, [line] + rest) == After([Shown(n), ChoiceRejected], Loop(t, n, rest))
  {
    assert ([line] + rest)[1..] == rest;
  }

  /**
   * A line that reads as a number `i` in `1..k` (other than the root's 99) runs submenu `i`; when
   * it returns, this menu is listed again, unless the input ran out inside it (menu.py:84-85).
   */
  lemma LoopDescends(t: Tree, n: nat, line: string, i: int, rest: seq<string>)
    requires Closed(t) && n < |t| && t[n].action.None? && ParseInt(line) == Some(i)
    requires 1 <= i <= |t[n].submenus| && !(t[n].parent.None? && i == 99)
    ensures t[n].submenus[i - 1] < |t|
    ensures var sub := Run(t, t[n].submenus[i - 1], rest);
      Loop(t, n, [line] + rest) ==
        if sub.status == InputClosed then After([Shown(n)], sub)
        else After([Shown(n)] + sub.trace, Loop(t, n, sub.rest))
  {
    assert ([line] + rest)[1..] == rest;
  }

  /**
   * `99` at the root opens the shell; once the shell is left with `exit`, the root is listed
   * again and reads the lines after it (menu.py:82-83).
   */
  lemma LoopShell(t: Tree, n: nat, line: string, rest: seq<string>)
    requires Closed(t) && n < |t| && t[n].action.None? && ParseInt(line) == Some(99)
    requires t[n].parent.None? && |t[n].submenus| != 98
    ensures var sh := Shell.EnterBashCommand(rest);
      Loop(t, n, [line] + rest) ==
        if !sh.exited then Session([Shown(n)] + ShellEvents(sh.trace), sh.rest, InputClosed)
        else After([Shown(n)] + ShellEvents(sh.trace), Loop(t, n, sh.rest))
  {
    assert ([line] + rest)[1..] == rest;
  }

  /**
   * The hidden shortcut: 99 at the root (the one menu without a parent) opens the shell, unless
   * the root has 98 submenus, when 99 is Back; at any other menu 99 is an ordinary number, out of
   * range below 98 submenus.
   */
  lemma NinetyNine(count: nat, atRoot: bool)
    ensures var c := Dispatch(ParseInt("99"), count, atRoot);
      (atRoot ==> c == (if count == 98 then Back else ShellEscape)) &&
      (!atRoot ==> c == (if count < 98 then InvalidChoice else if count == 98 then Back else Descend(98)))
  {
    ParseIntRoundTrip(99);
    assert IntToString(99) == "99";
  }
}
