/**
 * `enter_bash_command` (menu.py:151-173): the hidden shell reached with `99` from the root menu.
 * It reads lines until one reads `exit` once stripped and lower-cased; every other line is handed
 * verbatim to the command interpreter. The interpreter, its output and its failures are outside
 * the model: a command appears in the trace as `Ran(command)`.
 */
module Shell {
  import opened Text

  datatype ShellEvent =
    | Entered              // the banner announcing the shell
    | Ran(command: string) // the line given to the command interpreter
    | Left                 // the confirmation printed when leaving

  /** The exit test: `command.strip().lower() == "exit"`; an exit line is four characters once stripped. */
  predicate IsExit(command: string)
    ensures IsExit(command) ==> |Strip(command)| == 4
  {
    Lower(Strip(command)) == "exit"
  }

  /** What a shell session did and what input it left: `exited` is false when the input ran out. */
  datatype ShellSession = ShellSession(trace: seq<ShellEvent>, rest: seq<string>, exited: bool)

  /** `rest` is what is left of `input` after reading some of its first lines. */
  ghost predicate Leftover(rest: seq<string>, input: seq<string>)
  {
    |rest| <= |input| && rest == input[|input| - |rest|..]
  }

  /** What is left of what is left of `input` is left of `input`. */
  lemma LeftoverTrans(a: seq<string>, b: seq<string>, c: seq<string>)
    requires Leftover(a, b) && Leftover(b, c)
    ensures Leftover(a, c)
  {
    assert c[|c| - |b|..][|b| - |a|..] == c[|c| - |a|..];
  }

  /** The prompt loop, line by line. When it has not been left with `exit`, it has read every line. */
  function Commands(input: seq<string>): (s: ShellSession)
    ensures |s.rest| <= |input|
    ensures !s.exited ==> s.rest == []
  {
    if input == [] then ShellSession([], [], false)
    else if IsExit(input[0]) then ShellSession([Left], input[1..], true)
    else
      var more := Commands(input[1..]);
      more.(trace := [Ran(input[0])] + more.trace)
  }

  /** A whole call of `enter_bash_command`: the banner, then the prompt loop. */
  function EnterBashCommand(input: seq<string>): (s: ShellSession)
    ensures |s.rest| <= |input| && (!s.exited ==> s.rest == [])
  {
    var loop := Commands(input);
    loop.(trace := [Entered] + loop.trace)
  }

  /** The shell reads lines from the front of the input only: what it leaves is a suffix of it. */
  lemma {:induction false} CommandsLeftover(input: seq<string>)
    ensures Leftover(Commands(input).rest, input)
    ensures Leftover(EnterBashCommand(input).rest, input)
  {
    if input != [] && !IsExit(input[0]) {
      CommandsLeftover(input[1..]);
      LeftoverTrans(Commands(input[1..]).rest, input[1..], input);
    }
  }

  /**
   * The shell stops at the first line that reads `exit`, consuming it and nothing after it; every
   * line before it is run verbatim, in order. Without such a line it runs every line and the input
   * runs out.
   */
  lemma {:induction false} CommandsSpec(input: seq<string>)
    ensures var s := Commands(input);
      (s.exited <==> exists k :: 0 <= k < |input| && IsExit(input[k])) &&
      (s.exited ==>
        var k := |s.trace| - 1;
        0 <= k < |input| && IsExit(input[k]) && s.trace[k] == Left && s.rest == input[k + 1..] &&
        forall j :: 0 <= j < k ==> !IsExit(input[j]) && s.trace[j] == Ran(input[j])) &&
      (!s.exited ==>
        s.rest == [] && |s.trace| == |input| &&
        forall j :: 0 <= j < |input| ==> s.trace[j] == Ran(input[j]))
  {
    if input != [] && !IsExit(input[0]) {
      CommandsSpec(input[1..]);
      var s := Commands(input);
      var more := Commands(input[1..]);
      if more.exited {
        var k := |s.trace| - 1;
        assert input[1..][k - 1] == input[k];
        assert input[1..][k..] == input[k + 1..];
        forall j | 0 <= j < k
          ensures !IsExit(input[j]) && s.trace[j] == Ran(input[j])
        {
          if j > 0 {
            assert input[1..][j - 1] == input[j];
          }
        }
      } else {
        forall k | 0 <= k < |input|
          ensures !IsExit(input[k])
        {
          if k > 0 {
            assert input[1..][k - 1] == input[k];
          }
        }
        forall j | 0 <= j < |input|
          ensures s.trace[j] == Ran(input[j])
        {
          if j > 0 {
            assert input[1..][j - 1] == input[j];
          }
        }
      }
    }
  }

  /** `exit` in any letter case, with any whitespace around it, ends the shell. */
  lemma ExitAccepted(w1: string, m: string, w2: string)
    requires AllSpace(w1) && AllSpace(w2)
    requires |m| == 4 && forall k :: 0 <= k < 4 ==> m[k] == "exit"[k] || m[k] == "EXIT"[k]
    ensures IsExit(w1 + m + w2)
  {
    assert Trimmed(m);
    StripPadded(w1, m, w2);
    LowerSpec(m);
    assert Lower(m) == "exit";
  }

  /** Only such lines end the shell: whitespace, the four letters of `exit` in some case, whitespace. */
  lemma ExitOnlyPadded(s: string)
    requires IsExit(s)
    ensures exists i :: (0 <= i && i + 4 <= |s| && AllSpace(s[..i]) && AllSpace(s[i + 4..]) &&
      forall k :: 0 <= k < 4 ==> s[i + k] == "exit"[k] || s[i + k] == "EXIT"[k])
  {
    StripSplits(s);
    var i, j :| 0 <= i <= j <= |s| && AllSpace(s[..i]) && AllSpace(s[j..]) && Strip(s) == s[i..j];
    var m := Strip(s);
    LowerSpec(m);
    assert |m| == 4;
    forall k | 0 <= k < 4
      ensures s[i + k] == "exit"[k] || s[i + k] == "EXIT"[k]
    {
      assert m[k] == s[i + k];
      assert LowerChar(m[k]) == "exit"[k];
    }
    assert j == i + 4;
  }

  /**
   * `enter_bash_command` as the loop it is: print the banner, then read a line at a time
   * until one reads `exit`, passing every other line to the interpreter.
   */
  method RunShell(input: seq<string>) returns (trace: seq<ShellEvent>, rest: seq<string>, exited: bool)
    ensures ShellSession(trace, rest, exited) == EnterBashCommand(input)
  {
    trace := [Entered];
    ghost var goal := EnterBashCommand(input);
    var i := 0;
    while i < |input|
      invariant 0 <= i <= |input|
      invariant goal == After(trace, Commands(input[i..]))
    {
      var command := input[i];
      ghost var later := Commands(input[i + 1..]);
      assert input[i..][1..] == input[i + 1..];
      if IsExit(command) {
        assert Commands(input[i..]) == ShellSession([Left], input[i + 1..], true);
        trace := trace + [Left];
        return trace, input[i + 1..], true;
      }
      assert Commands(input[i..]) == later.(trace := [Ran(command)] + later.trace);
      trace := trace + [Ran(command)];
      i := i + 1;
    }
    assert input[i..] == [];
    return trace, [], false;
  }

  /** The session `s` with the events `done` already recorded in front of it. */
  function After(done: seq<ShellEvent>, s: ShellSession): ShellSession
  {
    s.(trace := done + s.trace)
  }
}
