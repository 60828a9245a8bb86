/** Day 3: a corrupted program text scanned character by character for commands such as
    `mul(2,4)`; the answer is the sum of the products of the `mul` commands found. */
module Day03 {
  import opened Results
  import opened Text

  // ---------------------------------------------------------------- command names

  /** The last `n` characters of `command` are the last `n` characters of `buffer`. */
  predicate MatchesLast(buffer: seq<char>, command: string, n: nat)
  {
    n <= |command| && n <= |buffer| && command[|command| - n..] == buffer[|buffer| - n..]
  }

  /** `buffer` ends with `command`. */
  predicate EndsWith(buffer: seq<char>, command: string)
  {
    MatchesLast(buffer, command, |command|)
  }

  /** Matching one more character from the end: the match so far and the next character. */
  lemma MatchesLastStep(buffer: seq<char>, command: string, i: nat)
    requires 1 <= i <= |command| && i <= |buffer|
    ensures MatchesLast(buffer, command, i) <==>
      MatchesLast(buffer, command, i - 1) && command[|command| - i] == buffer[|buffer| - i]
  {
    assert command[|command| - i..] == [command[|command| - i]] + command[|command| - i + 1..];
    assert buffer[|buffer| - i..] == [buffer[|buffer| - i]] + buffer[|buffer| - i + 1..];
  }

  /** A match of the last `n` characters is a match of any fewer. */
  lemma MatchesLastShorter(buffer: seq<char>, command: string, n: nat, m: nat)
    requires m <= n && MatchesLast(buffer, command, n)
    ensures MatchesLast(buffer, command, m)
  {
    assert command[|command| - m..] == command[|command| - n..][n - m..];
    assert buffer[|buffer| - m..] == buffer[|buffer| - n..][n - m..];
  }

  lemma EndsWithMatchesLast(buffer: seq<char>, command: string, m: nat)
    ensures EndsWith(buffer, command) && m <= |command| ==> MatchesLast(buffer, command, m)
  {
    if EndsWith(buffer, command) && m <= |command| {
      MatchesLastShorter(buffer, command, |command|, m);
    }
  }

  /** Two commands of the same length that the buffer ends with are the same command. */
  lemma SameLengthSuffixesEqual(buffer: seq<char>, c: string, d: string)
    requires EndsWith(buffer, c) && EndsWith(buffer, d) && |c| == |d|
    ensures c == d
  {
    assert c == c[0..] && d == d[0..];
  }

  predicate NoEmptyCommand(commands: seq<string>)
  {
    forall c :: c in commands ==> c != ""
  }

  /** The command the buffer ends with, the shortest one when several do, or "" when none does. */
  function ShortestSuffixCommand(buffer: seq<char>, commands: seq<string>): (text: string)
    requires NoEmptyCommand(commands)
    ensures text == "" ==> forall c :: c in commands ==> !EndsWith(buffer, c)
    ensures text != "" ==> text in commands && EndsWith(buffer, text)
    ensures text != "" ==> forall c :: c in commands && EndsWith(buffer, c) ==> |text| <= |c|
  {
    if commands == [] then ""
    else
      assert forall c :: c in commands[1..] ==> c in commands;
      var rest := ShortestSuffixCommand(buffer, commands[1..]);
      assert commands == [commands[0]] + commands[1..] && commands[0] in commands;
      if EndsWith(buffer, commands[0]) && (rest == "" || |commands[0]| <= |rest|) then commands[0] else rest
  }

  /** Whatever is the shortest command the buffer ends with (or "" when there is none) is the
      value of `ShortestSuffixCommand`. */
  lemma ShortestSuffixCommandUnique(buffer: seq<char>, commands: seq<string>, text: string)
    requires NoEmptyCommand(commands)
    requires text == "" ==> forall c :: c in commands ==> !EndsWith(buffer, c)
    requires text != "" ==> text in commands && EndsWith(buffer, text)
    requires text != "" ==> forall c :: c in commands && EndsWith(buffer, c) ==> |text| <= |c|
    ensures text == ShortestSuffixCommand(buffer, commands)
  {
    var shortest := ShortestSuffixCommand(buffer, commands);
    if text != "" {
      SameLengthSuffixesEqual(buffer, text, shortest);
    }
  }

  /** `ExtractCommandText` as the solver writes it: candidates are compared with the buffer from its
      last character backwards, and a candidate that differs is removed from the list in place
      while the index into the list still moves on, so the candidate after it is not compared at
      that position. `None` stands for the index-out-of-range exception this can lead to. */
  function ExtractAsWritten(buffer: seq<char>, availableCommands: seq<string>): (r: Option<string>)
    ensures r.Some? && r.value != "" ==> r.value in availableCommands
  {
    OuterAsWritten(buffer, availableCommands, 1)
  }

  /** The walk backwards, at distance `i` from the end of the buffer. */
  function OuterAsWritten(buffer: seq<char>, matches: seq<string>, i: nat): (r: Option<string>)
    requires 1 <= i
    ensures r.Some? && r.value != "" ==> r.value in matches
    decreases |buffer| + 1 - i, |matches| + 1, 1
  {
    if i > |buffer| then Some("") else InnerAsWritten(buffer, matches, i, 0)
  }

  /** The pass over the remaining candidates at distance `i`, at candidate index `ci`. */
  function InnerAsWritten(buffer: seq<char>, matches: seq<string>, i: nat, ci: nat): (r: Option<string>)
    requires 1 <= i <= |buffer| && ci <= |matches| + 1
    ensures r.Some? && r.value != "" ==> r.value in matches
    decreases |buffer| + 1 - i, |matches| + 1 - ci, 0
  {
    if ci >= |matches| then
      if |matches| == 0 then Some("") else OuterAsWritten(buffer, matches, i + 1)
    else
      var command := matches[ci];
      if i > |command| then None
      else if buffer[|buffer| - i] != command[|command| - i] then
        InnerAsWritten(buffer, RemoveAt(matches, ci), i, ci + 1)
      else if |command| - i == 0 then Some(command)
      else InnerAsWritten(buffer, matches, i, ci + 1)
  }

  /** With "ax" removed at the last character, "bcd" is never compared with it, so "bcd" is
      reported for a buffer ending in "bcq". */
  lemma ExtractAsWrittenSkipsCandidate()
    ensures ExtractAsWritten("bcq", ["ax", "bcd"]) == Some("bcd")
    ensures !EndsWith("bcq", "bcd")
    ensures ShortestSuffixCommand("bcq", ["ax", "bcd"]) == ""
  {
    var commands := ["ax", "bcd"];
    assert commands[..0] + commands[1..] == ["bcd"];
    assert InnerAsWritten("bcq", ["bcd"], 3, 0) == Some("bcd");
    assert InnerAsWritten("bcq", ["bcd"], 2, 0) == InnerAsWritten("bcq", ["bcd"], 2, 1);
    assert InnerAsWritten("bcq", commands, 1, 0) == InnerAsWritten("bcq", ["bcd"], 1, 1);
    assert !EndsWith("bcq", "bcd") by {
      assert "bcd"[0..][2] != "bcq"[0..][2];
    }
    assert !EndsWith("bcq", "ax") by {
      assert "ax"[0..][1] != "bcq"[1..][1];
    }
    assert ShortestSuffixCommand("bcq", commands[1..]) == "";
  }

  /** The skipped candidate can also be one that is already shorter than the distance reached,
      and indexing it from the end then fails. */
  lemma ExtractAsWrittenCanFail()
    ensures ExtractAsWritten("zb", ["ax", "b"]).None?
  {
    var commands := ["ax", "b"];
    assert commands[..0] + commands[1..] == ["b"];
    assert InnerAsWritten("zb", ["b"], 2, 0).None?;
    assert InnerAsWritten("zb", commands, 1, 0) == InnerAsWritten("zb", ["b"], 1, 1);
  }

  lemma {:induction false} OuterAsWrittenSingle(buffer: seq<char>, command: string, i: nat)
    requires 1 <= i <= |command| && i - 1 <= |buffer| && MatchesLast(buffer, command, i - 1)
    ensures OuterAsWritten(buffer, [command], i) == Some(if EndsWith(buffer, command) then command else "")
    decreases |buffer| + 1 - i
  {
    if i <= |buffer| {
      MatchesLastStep(buffer, command, i);
      if buffer[|buffer| - i] != command[|command| - i] {
        assert [command][..0] + [command][1..] == [];
        assert InnerAsWritten(buffer, [command], i, 0) == InnerAsWritten(buffer, [], i, 1);
      } else if |command| > i {
        assert InnerAsWritten(buffer, [command], i, 0) == OuterAsWritten(buffer, [command], i + 1);
        OuterAsWrittenSingle(buffer, command, i + 1);
      }
    }
  }

  /** With a single candidate, as in the solver's own use, the written code is right. */
  lemma ExtractAsWrittenSingleCommand(buffer: seq<char>, command: string)
    requires command != ""
    ensures ExtractAsWritten(buffer, [command]) == Some(ShortestSuffixCommand(buffer, [command]))
  {
    OuterAsWrittenSingle(buffer, command, 1);
  }

  /** `list.RemoveAt(i)` */
  function RemoveAt<T>(list: seq<T>, i: nat): seq<T>
    requires i < |list|
  {
    list[..i] + list[i + 1..]
  }

  /** Removing an element keeps every other one, in order. */
  lemma RemoveAtKeepsOthers<T>(list: seq<T>, i: nat)
    requires i < |list|
    ensures |RemoveAt(list, i)| == |list| - 1
    ensures forall j :: 0 <= j < i ==> RemoveAt(list, i)[j] == list[j]
    ensures forall j :: i <= j < |list| - 1 ==> RemoveAt(list, i)[j] == list[j + 1]
    ensures forall j :: 0 <= j < |list| && j != i ==> list[j] in RemoveAt(list, i)
  {
    var remaining := RemoveAt(list, i);
    forall j | 0 <= j < |list| && j != i ensures list[j] in remaining {
      if j < i {
        assert remaining[j] == list[j];
      } else {
        assert remaining[j - 1] == list[j];
      }
    }
  }

  /** A command still in the running at distance `i` from the end of the buffer: long enough to
      be compared there, and matching the buffer's last `i - 1` characters. */
  predicate Candidate(buffer: seq<char>, command: string, availableCommands: seq<string>, i: nat)
    requires 1 <= i
  {
    command in availableCommands && i <= |command| && MatchesLast(buffer, command, i - 1)
  }

  /** `ExtractCommandText(buffer, availableCommands)`, with a mismatching candidate removed without
      skipping the one after it: the shortest available command the buffer ends with, or "". */
  method ExtractCommandText(buffer: seq<char>, availableCommands: seq<string>) returns (text: string)
    requires NoEmptyCommand(availableCommands)
    ensures text == ShortestSuffixCommand(buffer, availableCommands)
  {
    var potentialMatches := availableCommands;
    var i := 1;
    while i <= |buffer|
      invariant 1 <= i <= |buffer| + 1
      invariant forall c :: c in potentialMatches ==> Candidate(buffer, c, availableCommands, i)
      invariant forall c :: Candidate(buffer, c, availableCommands, i) ==> c in potentialMatches
      invariant forall c :: c in availableCommands && |c| < i ==> !EndsWith(buffer, c)
    {
      forall c | c in availableCommands && i <= |c| && MatchesLast(buffer, c, i)
        ensures c in potentialMatches
      {
        MatchesLastShorter(buffer, c, i, i - 1);
      }
      var found;
      potentialMatches, found := NarrowCandidates(buffer, availableCommands, potentialMatches, i);
      if found.Some? {
        ShortestSuffixCommandUnique(buffer, availableCommands, found.value);
        return found.value;
      }
      if |potentialMatches| == 0 {
        forall c | c in availableCommands ensures !EndsWith(buffer, c) {
          EndsWithMatchesLast(buffer, c, i);
        }
        break;
      }
      i := i + 1;
    }
    ShortestSuffixCommandUnique(buffer, availableCommands, "");
    return "";
  }

  /** The inner loop of `ExtractCommandText` at distance `i`: each remaining candidate is compared
      with the buffer's `i`-th last character; a mismatching one is removed, and a matching one
      that ends there is the command found. */
  method NarrowCandidates(buffer: seq<char>, availableCommands: seq<string>, potentialMatches: seq<string>, i: nat)
    returns (remaining: seq<string>, found: Option<string>)
    requires 1 <= i <= |buffer|
    requires forall c :: c in potentialMatches ==> Candidate(buffer, c, availableCommands, i)
    requires forall c :: c in availableCommands && i <= |c| && MatchesLast(buffer, c, i) ==> c in potentialMatches
    ensures found.Some? ==> found.value in availableCommands && |found.value| == i && EndsWith(buffer, found.value)
    ensures found.None? ==> forall c :: c in remaining ==> Candidate(buffer, c, availableCommands, i + 1)
    ensures found.None? ==>
      forall c :: c in availableCommands && i <= |c| && MatchesLast(buffer, c, i) ==> c in remaining
  {
    var bufferChar := buffer[|buffer| - i];
    remaining := potentialMatches;
    var ci := 0;
    while ci < |remaining|
      invariant 0 <= ci <= |remaining|
      invariant forall k :: 0 <= k < ci ==> Candidate(buffer, remaining[k], availableCommands, i + 1)
      invariant forall k :: ci <= k < |remaining| ==> Candidate(buffer, remaining[k], availableCommands, i)
      invariant forall c :: c in availableCommands && i <= |c| && MatchesLast(buffer, c, i) ==> c in remaining
    {
      var command := remaining[ci];
      MatchesLastStep(buffer, command, i);
      if bufferChar != command[|command| - i] {
        RemoveMismatch(buffer, availableCommands, remaining, ci, i);
        remaining := RemoveAt(remaining, ci);
        continue;
      }
      if |command| - i == 0 {
        return remaining, Some(command);
      }
      assert Candidate(buffer, command, availableCommands, i + 1);
      ci := ci + 1;
    }
    found := None;
  }

  /** Removing the candidate at `ci`, which does not match the buffer's last `i` characters, keeps
      the inner loop's invariants: the commands before `ci` and after it stay where the loop
      expects them, and every command that matches is still there. */
  lemma RemoveMismatch(buffer: seq<char>, availableCommands: seq<string>, remaining: seq<string>, ci: nat, i: nat)
    requires 1 <= i <= |buffer| && ci < |remaining|
    requires forall k :: 0 <= k < ci ==> Candidate(buffer, remaining[k], availableCommands, i + 1)
    requires forall k :: ci <= k < |remaining| ==> Candidate(buffer, remaining[k], availableCommands, i)
    requires forall c :: c in availableCommands && i <= |c| && MatchesLast(buffer, c, i) ==> c in remaining
    requires !MatchesLast(buffer, remaining[ci], i)
    ensures forall k :: 0 <= k < ci ==> Candidate(buffer, RemoveAt(remaining, ci)[k], availableCommands, i + 1)
    ensures forall k :: ci <= k < |RemoveAt(remaining, ci)| ==>
      Candidate(buffer, RemoveAt(remaining, ci)[k], availableCommands, i)
    ensures forall c :: c in availableCommands && i <= |c| && MatchesLast(buffer, c, i) ==>
      c in RemoveAt(remaining, ci)
  {
    RemoveAtKeepsOthers(remaining, ci);
  }

  // ---------------------------------------------------------------- the scanner

  /** A command found in the text: its name and its arguments as written. */
  datatype Command = Command(commandText: string, args: seq<string>)

  /** The scanner's variables between two characters: the text since the last command started
      (`commandBuffer`), the digits of the argument being read, the command whose arguments are
      being read, the two flags, and the commands yielded so far. */
  datatype Scanner = Scanner(
    commandBuffer: seq<char>,
    argBuffer: seq<char>,
    currentCommand: Option<Command>,
    isInsideArgs: bool,
    isReadingArg: bool,
    yielded: seq<Command>)

  const Start := Scanner([], [], None, false, false, [])

  /** `availableCommands.Min(c => c.Length)` */
  function MinLength(commands: seq<string>): (n: nat)
    requires |commands| >= 1
    ensures exists c :: c in commands && |c| == n
    ensures forall c :: c in commands ==> n <= |c|
  {
    if |commands| == 1 then |commands[0]|
    else
      var rest := MinLength(commands[1..]);
      assert forall c :: c in commands ==> c == commands[0] || c in commands[1..];
      if |commands[0]| <= rest then |commands[0]| else rest
  }

  /** `DropCommand()`: forget the command whose arguments were being read. */
  function Drop(s: Scanner): (r: Scanner)
    ensures r.currentCommand.None? && !r.isInsideArgs && r.argBuffer == []
    ensures r.commandBuffer == s.commandBuffer && r.isReadingArg == s.isReadingArg && r.yielded == s.yielded
  {
    s.(argBuffer := [], currentCommand := None, isInsideArgs := false)
  }

  /** `CommitArg()`: the digits read become the current command's next argument. */
  function CommitArg(s: Scanner): (r: Scanner)
    requires s.currentCommand.Some?
    ensures r.currentCommand.Some? && r.currentCommand.value.commandText == s.currentCommand.value.commandText
    ensures r.currentCommand.value.args == s.currentCommand.value.args + [s.argBuffer] && r.argBuffer == []
    ensures r.commandBuffer == s.commandBuffer && r.isInsideArgs == s.isInsideArgs && r.yielded == s.yielded
  {
    var command := s.currentCommand.value;
    s.(currentCommand := Some(command.(args := command.args + [s.argBuffer])), argBuffer := [])
  }

  /** The scanner after character `c`. */
  function Step(s: Scanner, c: char, availableCommands: seq<string>): (r: Scanner)
    requires |availableCommands| >= 1 && NoEmptyCommand(availableCommands)
    ensures s.yielded <= r.yielded && |r.yielded| <= |s.yielded| + 1
    ensures |r.yielded| > |s.yielded| ==> c == ')'
  {
    if c == '(' && |s.commandBuffer| > MinLength(availableCommands) then
      var commandText := ShortestSuffixCommand(s.commandBuffer, availableCommands);
      if commandText == "" then Drop(s)
      else s.(currentCommand := Some(Command(commandText, [])), isInsideArgs := true, commandBuffer := [])
    else if s.isInsideArgs && s.currentCommand.Some? then
      if IsDecimalDigit(c) then
        s.(isReadingArg := true, argBuffer := s.argBuffer + [c], commandBuffer := s.commandBuffer + [c])
      else if c == ',' && s.isReadingArg then CommitArg(s)
      else if c == ')' && s.isReadingArg then
        var committed := CommitArg(s);
        committed.(yielded := committed.yielded + [committed.currentCommand.value],
                   currentCommand := None, isInsideArgs := false)
      else Drop(s)
    else
      s.(commandBuffer := s.commandBuffer + [c])
  }

  /** The scanner after the whole of `input`. */
  function Scan(input: seq<char>, availableCommands: seq<string>): (r: Scanner)
    requires |availableCommands| >= 1 && NoEmptyCommand(availableCommands)
    ensures |r.yielded| <= |input|
    ensures ')' !in input ==> r.yielded == []
  {
    if input == [] then Start
    else Step(Scan(input[..|input| - 1], availableCommands), input[|input| - 1], availableCommands)
  }

  /** What the scanner promises: a command being read, and every command yielded, is one of the
      available commands, and all their arguments (and the argument being read) are digits. */
  predicate WellFormed(c: Command, availableCommands: seq<string>)
  {
    c.commandText in availableCommands && forall k :: 0 <= k < |c.args| ==> AllDecimalDigits(c.args[k])
  }

  predicate Good(s: Scanner, availableCommands: seq<string>)
  {
    AllDecimalDigits(s.argBuffer) &&
    (s.currentCommand.Some? ==> WellFormed(s.currentCommand.value, availableCommands)) &&
    forall k :: 0 <= k < |s.yielded| ==> WellFormed(s.yielded[k], availableCommands)
  }

  lemma StepKeepsGood(s: Scanner, c: char, availableCommands: seq<string>)
    requires |availableCommands| >= 1 && NoEmptyCommand(availableCommands)
    requires Good(s, availableCommands)
    ensures Good(Step(s, c, availableCommands), availableCommands)
  {
    if s.currentCommand.Some? {
      var command := s.currentCommand.value;
      var extended := command.args + [s.argBuffer];
      assert forall k :: 0 <= k < |extended| ==> AllDecimalDigits(extended[k]);
    }
  }

  /** Every command the scanner yields is an available command with all-digit arguments. */
  lemma {:induction false} ScanYieldsWellFormed(input: seq<char>, availableCommands: seq<string>)
    requires |availableCommands| >= 1 && NoEmptyCommand(availableCommands)
    ensures Good(Scan(input, availableCommands), availableCommands)
    ensures forall k :: 0 <= k < |Scan(input, availableCommands).yielded| ==>
      WellFormed(Scan(input, availableCommands).yielded[k], availableCommands)
  {
    if input != [] {
      ScanYieldsWellFormed(input[..|input| - 1], availableCommands);
      StepKeepsGood(Scan(input[..|input| - 1], availableCommands), input[|input| - 1], availableCommands);
    }
  }

  /** One step yields at most one more command and never takes one back. */
  lemma StepOnlyAppends(s: Scanner, c: char, availableCommands: seq<string>)
    requires |availableCommands| >= 1 && NoEmptyCommand(availableCommands)
    ensures s.yielded <= Step(s, c, availableCommands).yielded
  {
  }

  lemma ScanStepOnlyAppends(input: seq<char>, availableCommands: seq<string>)
    requires input != [] && |availableCommands| >= 1 && NoEmptyCommand(availableCommands)
    ensures Scan(input[..|input| - 1], availableCommands).yielded <= Scan(input, availableCommands).yielded
  {
    StepOnlyAppends(Scan(input[..|input| - 1], availableCommands), input[|input| - 1], availableCommands);
  }

  /** Yielded commands are never taken back: scanning more text only appends to them. */
  lemma {:induction false} ScanOnlyAppends(input: seq<char>, more: seq<char>, availableCommands: seq<string>)
    requires |availableCommands| >= 1 && NoEmptyCommand(availableCommands)
    ensures Scan(input, availableCommands).yielded <= Scan(input + more, availableCommands).yielded
    decreases |more|
  {
    if more != [] {
      var init := more[..|more| - 1];
      var whole := input + more;
      assert whole[..|whole| - 1] == input + init;
      ScanOnlyAppends(input, init, availableCommands);
      ScanStepOnlyAppends(whole, availableCommands);
    } else {
      assert input + more == input;
    }
  }

  /** Scanning one more character is one more step. */
  lemma ScanAppend(input: seq<char>, c: char, availableCommands: seq<string>)
    requires |availableCommands| >= 1 && NoEmptyCommand(availableCommands)
    ensures Scan(input + [c], availableCommands) == Step(Scan(input, availableCommands), c, availableCommands)
  {
    assert (input + [c])[..|input|] == input;
  }

  /** Inside the arguments of a command, a character that neither opens a new command, nor is a
      digit, nor ends an argument that is being read, drops the command. */
  lemma StepDropsCommand(s: Scanner, c: char, availableCommands: seq<string>)
    requires |availableCommands| >= 1 && NoEmptyCommand(availableCommands)
    requires s.isInsideArgs && s.currentCommand.Some?
    requires !(c == '(' && |s.commandBuffer| > MinLength(availableCommands))
    requires !IsDecimalDigit(c) && !((c == ',' || c == ')') && s.isReadingArg)
    ensures Step(s, c, availableCommands) == Drop(s)
  {
  }

  /** Arguments are opened only by a `(` that follows more characters than the shortest command. */
  lemma StepOpensOnlyAtParenthesis(s: Scanner, c: char, availableCommands: seq<string>)
    requires |availableCommands| >= 1 && NoEmptyCommand(availableCommands)
    requires !s.isInsideArgs && Step(s, c, availableCommands).isInsideArgs
    ensures c == '(' && |s.commandBuffer| > MinLength(availableCommands)
  {
  }

  // One character more, by kind of character; the traces below are written with these.

  lemma ScanText(input: seq<char>, c: char, m: seq<string>)
    requires |m| >= 1 && NoEmptyCommand(m)
    requires !Scan(input, m).isInsideArgs && !(c == '(' && |Scan(input, m).commandBuffer| > MinLength(m))
    ensures Scan(input + [c], m) == Scan(input, m).(commandBuffer := Scan(input, m).commandBuffer + [c])
  {
    ScanAppend(input, c, m);
  }

  lemma ScanUnknownCommand(input: seq<char>, m: seq<string>)
    requires |m| >= 1 && NoEmptyCommand(m)
    requires |Scan(input, m).commandBuffer| > MinLength(m)
    requires ShortestSuffixCommand(Scan(input, m).commandBuffer, m) == ""
    ensures Scan(input + ['('], m) == Drop(Scan(input, m))
  {
    ScanAppend(input, '(', m);
  }

  lemma ScanOpen(input: seq<char>, m: seq<string>)
    requires |m| >= 1 && NoEmptyCommand(m)
    requires |Scan(input, m).commandBuffer| > MinLength(m)
    requires ShortestSuffixCommand(Scan(input, m).commandBuffer, m) != ""
    ensures Scan(input + ['('], m) == Scan(input, m).(
      currentCommand := Some(Command(ShortestSuffixCommand(Scan(input, m).commandBuffer, m), [])),
      isInsideArgs := true, commandBuffer := [])
  {
    ScanAppend(input, '(', m);
  }

  lemma ScanInvalid(input: seq<char>, c: char, m: seq<string>)
    requires |m| >= 1 && NoEmptyCommand(m)
    requires Scan(input, m).isInsideArgs && Scan(input, m).currentCommand.Some?
    requires !(c == '(' && |Scan(input, m).commandBuffer| > MinLength(m))
    requires !IsDecimalDigit(c) && !((c == ',' || c == ')') && Scan(input, m).isReadingArg)
    ensures Scan(input + [c], m) == Drop(Scan(input, m))
  {
    ScanAppend(input, c, m);
    StepDropsCommand(Scan(input, m), c, m);
  }

  lemma ScanDigit(input: seq<char>, c: char, m: seq<string>)
    requires |m| >= 1 && NoEmptyCommand(m)
    requires Scan(input, m).isInsideArgs && Scan(input, m).currentCommand.Some? && IsDecimalDigit(c)
    ensures Scan(input + [c], m) == Scan(input, m).(isReadingArg := true,
      argBuffer := Scan(input, m).argBuffer + [c], commandBuffer := Scan(input, m).commandBuffer + [c])
  {
    ScanAppend(input, c, m);
  }

  lemma ScanComma(input: seq<char>, m: seq<string>)
    requires |m| >= 1 && NoEmptyCommand(m)
    requires Scan(input, m).isInsideArgs && Scan(input, m).currentCommand.Some? && Scan(input, m).isReadingArg
    ensures Scan(input + [','], m) == CommitArg(Scan(input, m))
  {
    ScanAppend(input, ',', m);
  }

  lemma ScanClose(input: seq<char>, m: seq<string>)
    requires |m| >= 1 && NoEmptyCommand(m)
    requires Scan(input, m).isInsideArgs && Scan(input, m).currentCommand.Some? && Scan(input, m).isReadingArg
    ensures Scan(input + [')'], m).yielded == Scan(input, m).yielded + [CommitArg(Scan(input, m)).currentCommand.value]
  {
    ScanAppend(input, ')', m);
  }

  // The traces below read as `Scan("...", ["mul"])`; the command list is a parameter `m` pinned
  // to ["mul"] by `requires` only so that the solver does not unfold the literal list at every step.

  /** At the very start of the text, `mul(` is only text: the buffer is no longer than the
      shortest command when the `(` arrives. */
  lemma BareParenthesisIsText(m: seq<string>)
    requires m == ["mul"]
    ensures Scan("mul(", m) == Start.(commandBuffer := "mul(")
  {
    assert MinLength(m) == 3;
    var t0: seq<char> := [];
    var t1 := t0 + ['m'];
    var t2 := t1 + ['u'];
    var t3 := t2 + ['l'];
    ScanAppend(t0, 'm', m);
    ScanAppend(t1, 'u', m);
    ScanAppend(t2, 'l', m);
    assert Scan(t3, m) == Start.(commandBuffer := t3);
    ScanAppend(t3, '(', m);
    assert t3 + ['('] == "mul(";
  }

  /** A `(` opens the arguments only after more characters than the shortest command, so a `mul(`
      at the very start of the text is not recognised. */
  lemma BareCommandAtStart(m: seq<string>)
    requires m == ["mul"]
    ensures Scan("mul(2,4)", m).yielded == []
  {
    var t4 := "mul(";
    var t5 := t4 + ['2'];
    var t6 := t5 + [','];
    var t7 := t6 + ['4'];
    assert t7 + [')'] == "mul(2,4)";
    BareParenthesisIsText(m);
    ScanText(t4, '2', m);
    ScanText(t5, ',', m);
    ScanText(t6, '4', m);
    ScanText(t7, ')', m);
  }


  /** After any other character, `mul(` opens the arguments of a `mul` command. */
  lemma CommandOpened(m: seq<string>)
    requires m == ["mul"]
    ensures Scan("xmul(", m) == Scanner([], [], Some(Command("mul", [])), true, false, [])
  {
    assert MinLength(m) == 3;
    var t0: seq<char> := [];
    var t1 := t0 + ['x'];
    var t2 := t1 + ['m'];
    var t3 := t2 + ['u'];
    var t4 := t3 + ['l'];
    ScanAppend(t0, 'x', m);
    ScanAppend(t1, 'm', m);
    ScanAppend(t2, 'u', m);
    ScanAppend(t3, 'l', m);
    assert Scan(t4, m) == Start.(commandBuffer := t4);
    assert t4 == "xmul";
    assert ShortestSuffixCommand(t4, m) == "mul" by {
      assert EndsWith(t4, "mul");
    }
    ScanAppend(t4, '(', m);
    assert t4 + ['('] == "xmul(";
  }

  /** Then `2,` commits a first argument. */
  lemma FirstArgumentRead(m: seq<string>)
    requires m == ["mul"]
    ensures Scan("xmul(2,", m) == Scanner("2", [], Some(Command("mul", ["2"])), true, true, [])
  {
    var t5 := "xmul(";
    CommandOpened(m);
    var t6 := t5 + ['2'];
    var t7 := t6 + [','];
    ScanAppend(t5, '2', m);
    assert Scan(t6, m) == Scanner("2", "2", Some(Command("mul", [])), true, true, []);
    ScanAppend(t6, ',', m);
    assert [] + ["2"] == ["2"];
    assert Scan(t7, m) == Scanner("2", [], Some(Command("mul", ["2"])), true, true, []);
    assert t7 == "xmul(2,";
  }

  /** Then `4` is read as the second argument. */
  lemma SecondArgumentRead(m: seq<string>)
    requires m == ["mul"]
    ensures Scan("xmul(2,4", m) == Scanner("24", "4", Some(Command("mul", ["2"])), true, true, [])
  {
    var t7 := "xmul(2,";
    FirstArgumentRead(m);
    ScanAppend(t7, '4', m);
    assert "2" + ['4'] == "24";
    assert t7 + ['4'] == "xmul(2,4";
  }

  /** So `mul(2,4)` after another character is yielded with its two arguments. */
  lemma CommandAfterOtherCharacter(m: seq<string>)
    requires m == ["mul"]
    ensures Scan("xmul(2,4)", m).yielded == [Command("mul", ["2", "4"])]
  {
    var t8 := "xmul(2,4";
    SecondArgumentRead(m);
    ScanAppend(t8, ')', m);
    assert ["2"] + ["4"] == ["2", "4"];
    assert t8 + [')'] == "xmul(2,4)";
  }

  /** `isReadingArg` is never reset, so after a first argument an empty one is committed. */
  lemma EmptyArgumentCommitted(m: seq<string>)
    requires m == ["mul"]
    ensures Scan("xmul(2,)", m).yielded == [Command("mul", ["2", ""])]
  {
    var t7 := "xmul(2,";
    FirstArgumentRead(m);
    ScanAppend(t7, ')', m);
    assert ["2"] + [""] == ["2", ""];
    assert Scan(t7 + [')'], m).yielded == [Command("mul", ["2", ""])];
    assert t7 + [')'] == "xmul(2,)";
  }

  /** From a just-opened `mul` command, `2,4)` yields `mul` with arguments 2 and 4. */
  lemma TwoArgumentsAfterOpening(p: seq<char>, m: seq<string>)
    requires m == ["mul"]
    requires Scan(p, m) == Scanner([], [], Some(Command("mul", [])), true, false, [])
    ensures Scan(p + "2,4)", m).yielded == [Command("mul", ["2", "4"])]
  {
    var t1 := p + ['2'];
    var t2 := t1 + [','];
    var t3 := t2 + ['4'];
    assert t3 + [')'] == p + "2,4)";
    ScanDigit(p, '2', m);
    assert Scan(t1, m) == Scanner("2", "2", Some(Command("mul", [])), true, true, []);
    ScanComma(t1, m);
    assert [] + ["2"] == ["2"];
    assert Scan(t2, m) == Scanner("2", [], Some(Command("mul", ["2"])), true, true, []);
    ScanDigit(t2, '4', m);
    assert "2" + ['4'] == "24";
    assert Scan(t3, m) == Scanner("24", "4", Some(Command("mul", ["2"])), true, true, []);
    ScanClose(t3, m);
    assert ["2"] + ["4"] == ["2", "4"];
  }

  lemma NoCommandEndsXxmu(m: seq<string>)
    requires m == ["mul"]
    ensures ShortestSuffixCommand("xxmu", m) == ""
  {
    var b := "xxmu";
    assert b[1..][2] != "mul"[2];
    assert !EndsWith(b, "mul");
  }

  lemma MulEndsXxmul(m: seq<string>)
    requires m == ["mul"]
    ensures ShortestSuffixCommand("xxmul", m) == "mul"
  {
    var b := "xxmul";
    assert b[2..] == "mul";
    assert EndsWith(b, "mul");
  }

  /** `xxmu`: text only. */
  lemma XxmuBuffered(m: seq<string>)
    requires m == ["mul"]
    ensures Scan("xxmu", m) == Start.(commandBuffer := "xxmu")
  {
    var t0: seq<char> := [];
    var t1 := t0 + ['x'];
    var t2 := t1 + ['x'];
    var t3 := t2 + ['m'];
    var t4 := t3 + ['u'];
    assert t4 == "xxmu";
    ScanText(t0, 'x', m);
    ScanText(t1, 'x', m);
    ScanText(t2, 'm', m);
    ScanText(t3, 'u', m);
  }

  lemma XxmuUnknown(m: seq<string>)
    requires m == ["mul"]
    ensures |"xxmu"| > MinLength(m) && ShortestSuffixCommand("xxmu", m) == ""
  {
    assert MinLength(m) == 3;
    NoCommandEndsXxmu(m);
  }

  /** A `(` after text that ends with no command leaves the scanner as it was. */
  lemma UnknownKeepsText(p: seq<char>, b: seq<char>, m: seq<string>)
    requires |m| >= 1 && NoEmptyCommand(m)
    requires Scan(p, m) == Start.(commandBuffer := b)
    requires |b| > MinLength(m) && ShortestSuffixCommand(b, m) == ""
    ensures Scan(p + ['('], m) == Start.(commandBuffer := b)
  {
    ScanUnknownCommand(p, m);
  }

  /** `xxmu(`: the buffer ends with no command, so the `(` is dropped and the buffer kept. */
  lemma UnknownParenthesisDropped(m: seq<string>)
    requires m == ["mul"]
    ensures Scan("xxmu(", m) == Start.(commandBuffer := "xxmu")
  {
    var t4 := "xxmu";
    assert t4 + ['('] == "xxmu(";
    XxmuBuffered(m);
    XxmuUnknown(m);
    UnknownKeepsText(t4, "xxmu", m);
  }

  /** `xxmu(l(`: the `l` completes `mul` in the buffer and the next `(` opens it. */
  lemma UnknownParenthesisThenCommand(m: seq<string>)
    requires m == ["mul"]
    ensures Scan("xxmu(l(", m) == Scanner([], [], Some(Command("mul", [])), true, false, [])
  {
    assert MinLength(m) == 3;
    var t5 := "xxmu(";
    var t6 := t5 + ['l'];
    assert t6 + ['('] == "xxmu(l(";
    UnknownParenthesisDropped(m);
    ScanText(t5, 'l', m);
    assert "xxmu" + ['l'] == "xxmul";
    assert Scan(t6, m) == Start.(commandBuffer := "xxmul");
    MulEndsXxmul(m);
    ScanOpen(t6, m);
  }

  /** A `(` whose buffer ends with no command is dropped without clearing the buffer, so the
      `l` after it completes `mul` and the next `(` opens it: `mu(l(2,4)` is read as `mul(2,4)`. */
  lemma UnknownParenthesisSkipped(m: seq<string>)
    requires m == ["mul"]
    ensures Scan("xxmu(l(2,4)", m).yielded == [Command("mul", ["2", "4"])]
  {
    var t7 := "xxmu(l(";
    var t := t7 + "2,4)";
    assert t == "xxmu(l(2,4)";
    UnknownParenthesisThenCommand(m);
    TwoArgumentsAfterOpening(t7, m);
  }

  /** A space inside the arguments drops the command, so `mul(2, 4)` yields nothing. */
  lemma SpaceInArgumentsDrops(m: seq<string>)
    requires m == ["mul"]
    ensures Scan("xmul(2, 4)", m).yielded == []
  {
    assert MinLength(m) == 3;
    var t7 := "xmul(2,";
    var t8 := t7 + [' '];
    var t9 := t8 + ['4'];
    assert t9 + [')'] == "xmul(2, 4)";
    FirstArgumentRead(m);
    assert !IsDecimalDigit(' ');
    ScanInvalid(t7, ' ', m);
    assert Scan(t8, m) == Scanner("2", [], None, false, true, []);
    ScanText(t8, '4', m);
    ScanText(t9, ')', m);
  }

  /** `xmul(2,mul(`: the `m` drops the outer command, and the `(` follows only three
      characters of text, so it does not open `mul`. */
  lemma NestedCommandDropped(m: seq<string>)
    requires m == ["mul"]
    ensures Scan("xmul(2,mul(", m) == Scanner("2ul(", [], None, false, true, [])
  {
    assert MinLength(m) == 3;
    var t7 := "xmul(2,";
    var t8 := t7 + ['m'];
    var t9 := t8 + ['u'];
    var t10 := t9 + ['l'];
    assert t10 + ['('] == "xmul(2,mul(";
    FirstArgumentRead(m);
    assert !IsDecimalDigit('m');
    ScanInvalid(t7, 'm', m);
    assert Scan(t8, m) == Scanner("2", [], None, false, true, []);
    ScanText(t8, 'u', m);
    ScanText(t9, 'l', m);
    assert "2" + ['u'] + ['l'] == "2ul";
    assert Scan(t10, m) == Scanner("2ul", [], None, false, true, []);
    ScanText(t10, '(', m);
    assert "2ul" + ['('] == "2ul(";
  }

  /** A command that starts inside another's arguments drops the outer one, and its own `(`
      follows too short a buffer to open it: `mul(2,mul(3,4)` yields nothing. */
  lemma NestedCommandLost(m: seq<string>)
    requires m == ["mul"]
    ensures Scan("xmul(2,mul(3,4)", m).yielded == []
  {
    assert MinLength(m) == 3;
    var t11 := "xmul(2,mul(";
    var t12 := t11 + ['3'];
    var t13 := t12 + [','];
    var t14 := t13 + ['4'];
    assert t14 + [')'] == "xmul(2,mul(3,4)";
    NestedCommandDropped(m);
    ScanText(t11, '3', m);
    ScanText(t12, ',', m);
    ScanText(t13, '4', m);
    ScanText(t14, ')', m);
  }

  /** `ReadCommands(availableCommands)`: the state machine over the text, one character at a time. */
  method ReadCommands(input: seq<char>, availableCommands: seq<string>) returns (commands: seq<Command>)
    requires |availableCommands| >= 1 && NoEmptyCommand(availableCommands)
    ensures commands == Scan(input, availableCommands).yielded
  {
    var commandBuffer: seq<char> := [];
    var argBuffer: seq<char> := [];
    var minCommandLength := MinLength(availableCommands);
    var currentCommand: Option<Command> := None;
    var isInsideArgs := false;
    var isReadingArg := false;
    commands := [];
    for i := 0 to |input|
      invariant Scanner(commandBuffer, argBuffer, currentCommand, isInsideArgs, isReadingArg, commands)
        == Scan(input[..i], availableCommands)
    {
      var c := input[i];
      assert input[..i + 1][..i] == input[..i];
      ghost var next := Step(Scanner(commandBuffer, argBuffer, currentCommand, isInsideArgs, isReadingArg, commands),
                             c, availableCommands);
      assert Scan(input[..i + 1], availableCommands) == next;
      if c == '(' && |commandBuffer| > minCommandLength {
        var commandText := ExtractCommandText(commandBuffer, availableCommands);
        if commandText == "" {
          argBuffer, currentCommand, isInsideArgs := [], None, false;
          continue;
        }
        currentCommand := Some(Command(commandText, []));
        isInsideArgs := true;
        commandBuffer := [];
        continue;
      }
      if isInsideArgs && currentCommand.Some? {
        if IsDecimalDigit(c) {
          isReadingArg := true;
        } else if c == ',' && isReadingArg {
          currentCommand := Some(currentCommand.value.(args := currentCommand.value.args + [argBuffer]));
          argBuffer := [];
          continue;
        } else if c == ')' && isReadingArg {
          currentCommand := Some(currentCommand.value.(args := currentCommand.value.args + [argBuffer]));
          argBuffer := [];
          commands := commands + [currentCommand.value];
          currentCommand, isInsideArgs := None, false;
          continue;
        } else {
          argBuffer, currentCommand, isInsideArgs := [], None, false;
          continue;
        }
        argBuffer := argBuffer + [c];
      }
      commandBuffer := commandBuffer + [c];
    }
    assert input[..|input|] == input;
  }

  // ---------------------------------------------------------------- solving

  /** An argument's value: `int.TryParse`'s result, or 0 when it fails, since the failure the
      solver builds is discarded and the `out` variable is left at 0. */
  function ArgValue(arg: string): (v: int)
    ensures InInt32(v)
    ensures arg == [] ==> v == 0
  {
    if ParseInt(arg).Some? then ParseInt(arg).value else 0
  }

  /** The scanner reads an argument with `char.IsDigit`, which takes the digits of every script,
      but `int.TryParse` reads '0'..'9' only: an argument holding any other digit counts as 0. */
  lemma OtherScriptDigitArgIsZero(arg: string, i: nat)
    requires AllDecimalDigits(arg) && i < |arg| && !IsDigit(arg[i])
    ensures ArgValue(arg) == 0
  {
    NumberTrimLeavesNumber(arg);
    assert arg[0] != '-' && arg[0] != '+';
  }

  /** A product is non-zero exactly when both factors are. */
  lemma NonZeroProduct(a: int, b: int)
    ensures a * b != 0 <==> a != 0 && b != 0
  {
  }

  /** The product of a command's argument values. */
  function Product(args: seq<string>): (p: int)
    ensures p != 0 <==> forall k :: 0 <= k < |args| ==> ArgValue(args[k]) != 0
  {
    if args == [] then 1
    else
      var n := |args| - 1;
      assert forall k :: 0 <= k < n ==> args[..n][k] == args[k];
      NonZeroProduct(Product(args[..n]), ArgValue(args[n]));
      Product(args[..n]) * ArgValue(args[n])
  }

  /** A command's contribution: the product of its arguments for `mul`, nothing for any other. */
  function CommandResult(command: Command): (r: int)
    ensures r != 0 ==> command.commandText == "mul" && forall k :: 0 <= k < |command.args| ==> ArgValue(command.args[k]) != 0
  {
    if command.commandText == "mul" then Product(command.args) else 0
  }

  function Total(commands: seq<Command>): (t: int)
    ensures (forall k :: 0 <= k < |commands| ==> commands[k].commandText != "mul") ==> t == 0
  {
    if commands == [] then 0 else Total(commands[..|commands| - 1]) + CommandResult(commands[|commands| - 1])
  }

  /** One argument that does not parse makes the whole product 0. */
  lemma {:induction false} UnparsableArgZeroes(args: seq<string>, k: nat)
    requires k < |args| && ParseInt(args[k]).None?
    ensures Product(args) == 0
  {
    if k < |args| - 1 {
      UnparsableArgZeroes(args[..|args| - 1], k);
    }
  }

  /** The product of two parsed arguments, as the puzzle's `mul(X,Y)` asks. */
  lemma ProductOfPair(x: string, y: string)
    requires ParseInt(x).Some? && ParseInt(y).Some?
    ensures Product([x, y]) == ParseInt(x).value * ParseInt(y).value
  {
    assert [x, y][..1] == [x];
    assert [x][..0] == [];
    assert Product([x]) == ArgValue(x);
  }

  lemma TotalAppend(commands: seq<Command>, more: seq<Command>)
    ensures Total(commands + more) == Total(commands) + Total(more)
    decreases |more|
  {
    if more == [] {
      assert commands + more == commands;
    } else {
      assert (commands + more)[..|commands + more| - 1] == commands + more[..|more| - 1];
      TotalAppend(commands, more[..|more| - 1]);
    }
  }

  /** The sum over one more command adds that command's contribution. */
  lemma TotalStep(commands: seq<Command>, j: nat)
    requires j < |commands|
    ensures Total(commands[..j + 1]) == Total(commands[..j]) + CommandResult(commands[j])
  {
    assert commands[..j + 1][..j] == commands[..j];
  }

  /** `Solve(variant)`: whatever the variant, the sum over the `mul` commands found of the product
      of their arguments. */
  method Solve(input: seq<char>, variant: Option<SolutionVariant>) returns (r: Result<string>)
    ensures r == Ok(IntToString(Total(Scan(input, ["mul"]).yielded)))
  {
    var availableCommands := ["mul"];
    var commands := ReadCommands(input, availableCommands);
    var resultSum := 0;
    for j := 0 to |commands|
      invariant resultSum == Total(commands[..j])
    {
      TotalStep(commands, j);
      var command := commands[j];
      var commandResult := 0;
      if command.commandText == "mul" {
        commandResult := MultiplyArgs(command.args);
      }
      resultSum := resultSum + commandResult;
    }
    assert commands[..|commands|] == commands;
    r := Ok(IntToString(resultSum));
  }

  /** The inner loop of `Solve` over a `mul` command's arguments. */
  method MultiplyArgs(args: seq<string>) returns (product: int)
    ensures product == Product(args)
  {
    product := 1;
    for i := 0 to |args|
      invariant product == Product(args[..i])
    {
      assert args[..i + 1][..i] == args[..i];
      var parsed := ParseInt(args[i]);
      var arg := if parsed.Some? then parsed.value else 0;
      product := product * arg;
    }
    assert args[..|args|] == args;
  }
}
