/**
 What a line of shell input does: blocks separated by '|' run one after the other, the commands of a
 block, separated by ';', run side by side, and all children of a block are awaited at its end.
 */
module ShellLines {
  import opened ShellText

  const MAX_PROCESS_COUNT := 128

  /** The block a command stands in: its number, and the flags the shell keeps for it. */
  datatype Place = Place(block: nat, first: bool, last: bool)

  /** Block number `i` of a line whose last block is number `n`. */
  function At(i: nat, n: nat): Place {
    Place(i, i == 0, i == n)
  }

  /** A child process is named by the number of its fork. */
  datatype Event =
    | Fork(pid: nat, argv: seq<string>, place: Place)
    | Wait(pid: nat)
    | Capture                     // the output of the block is copied to the buffer
    | ChangeDir(dir: string)

  /** The shell goes on, has been quit, has given up after an error, or waits for ever. */
  datatype Outcome = Running | Quit | Failed | Stuck

  /** How the system answers a call. */
  datatype Answer = Granted | Interrupted | Refused

  /**
   `unread` says that children have written into the pipe of the line and nobody has read it yet.
   `answers` is what the system has decided about the next calls; it grants those beyond the list.
   `silent` holds the numbers of the forks whose child writes nothing.
   */
  datatype Shell = Shell(
    history: seq<string>,
    children: seq<nat>,
    forks: nat,
    unread: bool,
    answers: seq<Answer>,
    silent: set<nat>,
    trace: seq<Event>,
    outcome: Outcome)

  function FirstAnswer(answers: seq<Answer>): (a: Answer)
    ensures a != Granted ==> answers != []
  {
    if answers == [] then Granted else answers[0]
  }

  function LaterAnswers(answers: seq<Answer>): seq<Answer> {
    if answers == [] then [] else answers[1..]
  }

  ghost predicate IsGranted(s: Shell) {
    FirstAnswer(s.answers) == Granted
  }

  ghost function Called(s: Shell): Shell {
    s.(answers := LaterAnswers(s.answers))
  }

  /** Waits for the children from number `i` on. An interrupted wait is tried again, a failing one is fatal. */
  ghost function AwaitFrom(s: Shell, i: nat): Shell
    requires i <= |s.children|
    decreases |s.children| - i, |s.answers|
  {
    if i == |s.children| then s.(children := [])
    else
      match FirstAnswer(s.answers)
      case Granted => AwaitFrom(Called(s).(trace := s.trace + [Wait(s.children[i])]), i + 1)
      case Interrupted => AwaitFrom(Called(s), i)
      case Refused => Called(s).(outcome := Failed)
  }

  ghost function Awaited(s: Shell): Shell {
    AwaitFrom(s, 0)
  }

  function First(argv: seq<string>): string {
    if argv == [] then "" else argv[0]
  }

  /**
   One more child, unless there are too many or the system refuses. Unless it is silent, or its block is the
   last one, it writes into the pipe.
   */
  ghost function Forked(s: Shell, argv: seq<string>, place: Place): Shell {
    if |s.children| >= MAX_PROCESS_COUNT then s.(outcome := Failed)
    else if !IsGranted(s) then Called(s).(outcome := Failed)
    else
      Called(s).(children := s.children + [s.forks], forks := s.forks + 1,
                 unread := s.unread || (!place.last && s.forks !in s.silent),
                 trace := s.trace + [Fork(s.forks, argv, place)])
  }

  /** What the words of a command make the shell do. */
  ghost function RunWords(s: Shell, argv: seq<string>, place: Place): Shell {
    if First(argv) == "cd" then
      if |argv| > 1 && IsGranted(s) then Called(s).(trace := s.trace + [ChangeDir(argv[1])])
      else Called(s).(outcome := Failed)
    else if First(argv) == "quit" then
      if Awaited(s).outcome == Running then Awaited(s).(outcome := Quit) else Awaited(s)
    else
      Forked(s, argv, place)
  }

  /** One command of a block. A blank one does nothing; any other goes into the history first. */
  ghost function RunCommand(s: Shell, text: string, place: Place): Shell {
    var command := Trimmed(text);
    if s.outcome != Running || command == [] then s
    else RunWords(s.(history := s.history + [command]), Tokens(command), place)
  }

  ghost function RunCommands(s: Shell, texts: seq<string>, place: Place): Shell
    decreases |texts|
  {
    if texts == [] then s else RunCommands(RunCommand(s, texts[0], place), texts[1..], place)
  }

  /** Reads the pipe of the line. The shell itself holds the end for writing open, so an empty pipe never ends. */
  ghost function Captured(s: Shell): Shell {
    if !s.unread then s.(outcome := Stuck)
    else if !IsGranted(s) then Called(s).(outcome := Failed)
    else Called(s).(unread := false, trace := s.trace + [Capture])
  }

  /** The end of a block: its children are awaited and, unless it is the last, its output captured. */
  ghost function Finish(s: Shell, last: bool): Shell {
    if s.outcome != Running then s
    else if last || Awaited(s).outcome != Running then Awaited(s)
    else Captured(Awaited(s))
  }

  /** The blocks from number `i` on, of which number `n` is the last. */
  ghost function RunBlocks(s: Shell, blocks: seq<string>, i: nat, n: nat): Shell
    decreases |blocks|
  {
    if blocks == [] then s
    else RunBlocks(Finish(RunCommands(s, SplitAt(blocks[0], ';'), At(i, n)), i == n), blocks[1..], i + 1, n)
  }

  /** A line starts with a pipe of its own. */
  ghost function Opened(s: Shell): Shell {
    if IsGranted(s) then Called(s).(unread := false) else Called(s).(outcome := Failed)
  }

  ghost function RunLine(s: Shell, line: string): Shell {
    var blocks := SplitAt(line, '|');
    RunBlocks(Opened(s), blocks, 0, |blocks| - 1)
  }

  // -- A line is run from left to right ------------------------------------------------------------------

  /** What is left of the line, when that starts inside block number `i`. */
  ghost function RunFrom(s: Shell, text: string, i: nat, n: nat): Shell {
    RunBlocks(s, SplitAt(text, '|'), i, n)
  }

  predicate IsPlain(x: string) {
    ';' !in x && '|' !in x
  }

  lemma RunUpToSemicolon(s: Shell, x: string, y: string, i: nat, n: nat)
    requires IsPlain(x)
    ensures RunFrom(s, x + [';'] + y, i, n) == RunFrom(RunCommand(s, x, At(i, n)), y, i, n)
  {
    var b := SplitAt(y, '|');
    SplitPrefix(x + [';'], y, '|');
    SplitFirst(x, b[0], ';');
    var block := x + [';'] + b[0];
    assert SplitAt(x + [';'] + y, '|') == [block] + b[1..];
    assert SplitAt(block, ';')[1..] == SplitAt(b[0], ';');
  }

  lemma RunUpToPipe(s: Shell, x: string, y: string, i: nat, n: nat)
    requires IsPlain(x)
    ensures RunFrom(s, x + ['|'] + y, i, n) == RunFrom(Finish(RunCommand(s, x, At(i, n)), i == n), y, i + 1, n)
  {
    SplitFirst(x, y, '|');
    SplitNone(x, ';');
    assert ([x] + SplitAt(y, '|'))[1..] == SplitAt(y, '|');
    assert [x][1..] == [];
    assert RunCommands(s, [x], At(i, n)) == RunCommand(s, x, At(i, n));
  }

  lemma RunToEnd(s: Shell, x: string, i: nat, n: nat)
    requires IsPlain(x)
    ensures RunFrom(s, x, i, n) == Finish(RunCommand(s, x, At(i, n)), i == n)
  {
    SplitNone(x, '|');
    SplitNone(x, ';');
    assert [x][1..] == [];
    var done := Finish(RunCommand(s, x, At(i, n)), i == n);
    assert RunBlocks(done, [x][1..], i + 1, n) == done;
    assert RunCommands(s, [x], At(i, n)) == RunCommand(s, x, At(i, n));
  }

  lemma {:induction false} StoppedCommands(s: Shell, texts: seq<string>, place: Place)
    requires s.outcome != Running
    ensures RunCommands(s, texts, place) == s
    decreases |texts|
  {
    if texts != [] {
      StoppedCommands(s, texts[1..], place);
    }
  }

  lemma {:induction false} StoppedBlocks(s: Shell, blocks: seq<string>, i: nat, n: nat)
    requires s.outcome != Running
    ensures RunBlocks(s, blocks, i, n) == s
    decreases |blocks|
  {
    if blocks != [] {
      StoppedCommands(s, SplitAt(blocks[0], ';'), At(i, n));
      StoppedBlocks(s, blocks[1..], i + 1, n);
    }
  }

  // -- What a line leaves behind -----------------------------------------------------------------------------

  /** The entry a command leaves in the history, if any. */
  ghost function Entry(text: string): seq<string> {
    if Trimmed(text) == [] then [] else [Trimmed(text)]
  }

  /** The commands of a line: its pieces between '|' and ';', trimmed, without the blank ones, in order. */
  ghost function TrimmedPieces(texts: seq<string>): seq<string> {
    if texts == [] then []
    else Entry(texts[0]) + TrimmedPieces(texts[1..])
  }

  ghost function CommandsOf(blocks: seq<string>): seq<string> {
    if blocks == [] then [] else TrimmedPieces(SplitAt(blocks[0], ';')) + CommandsOf(blocks[1..])
  }

  lemma CommandGoesOn(s: Shell, text: string, place: Place)
    requires RunCommand(s, text, place).outcome == Running
    ensures s.outcome == Running && RunCommand(s, text, place).history == s.history + Entry(text)
  {
    assert s.history + [] == s.history;
  }

  lemma {:induction false} CommandsGoOn(s: Shell, texts: seq<string>, place: Place)
    requires RunCommands(s, texts, place).outcome == Running
    ensures s.outcome == Running
    ensures RunCommands(s, texts, place).history == s.history + TrimmedPieces(texts)
    decreases |texts|
  {
    hide RunCommand, Trimmed, Entry;
    if texts != [] {
      CommandsGoOn(RunCommand(s, texts[0], place), texts[1..], place);
      CommandGoesOn(s, texts[0], place);
      assert s.history + Entry(texts[0]) + TrimmedPieces(texts[1..])
          == s.history + (Entry(texts[0]) + TrimmedPieces(texts[1..]));
    } else {
      assert s.history + [] == s.history;
    }
  }

  lemma {:induction false} BlocksGoOn(s: Shell, blocks: seq<string>, i: nat, n: nat)
    requires RunBlocks(s, blocks, i, n).outcome == Running
    ensures s.outcome == Running && RunBlocks(s, blocks, i, n).history == s.history + CommandsOf(blocks)
    decreases |blocks|
  {
    hide RunCommands, TrimmedPieces, Finish;
    if blocks != [] {
      var texts := SplitAt(blocks[0], ';');
      var s1 := RunCommands(s, texts, At(i, n));
      FinishRunsNothing(s1, i == n);
      BlocksGoOn(Finish(s1, i == n), blocks[1..], i + 1, n);
      CommandsGoOn(s, texts, At(i, n));
      assert s.history + TrimmedPieces(texts) + CommandsOf(blocks[1..])
          == s.history + (TrimmedPieces(texts) + CommandsOf(blocks[1..]));
    } else {
      assert s.history + [] == s.history;
    }
  }

  /** While the shell goes on, the history grows by exactly the line's commands, in order. */
  lemma HistoryGrowsByCommands(s: Shell, line: string)
    requires RunLine(s, line).outcome == Running
    ensures RunLine(s, line).history == s.history + CommandsOf(SplitAt(line, '|'))
  {
    BlocksGoOn(Opened(s), SplitAt(line, '|'), 0, |SplitAt(line, '|')| - 1);
  }

  /** What a command makes happen: a child process with its words and its block, or a change of directory. */
  datatype Job = Program(argv: seq<string>, place: Place) | Directory(name: string)

  ghost function JobOf(e: Event): seq<Job> {
    if e.Fork? then [Program(e.argv, e.place)]
    else if e.ChangeDir? then [Directory(e.dir)]
    else []
  }

  ghost function Jobs(trace: seq<Event>): seq<Job> {
    if trace == [] then [] else JobOf(trace[0]) + Jobs(trace[1..])
  }

  lemma {:induction false} JobsOfConcat(t: seq<Event>, u: seq<Event>)
    ensures Jobs(t + u) == Jobs(t) + Jobs(u)
  {
    hide JobOf;
    if t == [] {
      assert t + u == u;
    } else {
      JobsOfConcat(t[1..], u);
      assert (t + u)[1..] == t[1..] + u && (t + u)[0] == t[0];
      assert JobOf(t[0]) + Jobs(t[1..]) + Jobs(u) == JobOf(t[0]) + (Jobs(t[1..]) + Jobs(u));
    }
  }

  lemma OneMoreEvent(t: seq<Event>, e: Event)
    ensures Jobs(t + [e]) == Jobs(t) + JobOf(e)
  {
    JobsOfConcat(t, [e]);
    assert Jobs([e]) == JobOf(e) + Jobs([e][1..]) && [e][1..] == [];
  }

  /** Waiting starts nothing and records nothing. */
  lemma {:induction false} AwaitingOnlyWaits(s: Shell, i: nat)
    requires i <= |s.children|
    ensures var t := AwaitFrom(s, i);
            && t.history == s.history && t.unread == s.unread && Jobs(t.trace) == Jobs(s.trace)
            && (t.outcome == Running ==> s.outcome == Running && t.children == [])
            && (s.answers == [] ==> t.outcome == s.outcome && t.answers == [])
            && t.forks == s.forks && t.silent == s.silent
    decreases |s.children| - i, |s.answers|
  {
    hide Jobs;
    if i < |s.children| {
      if IsGranted(s) {
        OneMoreEvent(s.trace, Wait(s.children[i]));
        assert Jobs(s.trace) + [] == Jobs(s.trace);
        AwaitingOnlyWaits(Called(s).(trace := s.trace + [Wait(s.children[i])]), i + 1);
      } else if FirstAnswer(s.answers) == Interrupted {
        AwaitingOnlyWaits(Called(s), i);
      }
    }
  }

  /** The job a command of a block is, if it is not blank. */
  ghost function CommandJob(text: string, place: Place): seq<Job> {
    var argv := Tokens(Trimmed(text));
    if Trimmed(text) == [] then []
    else if First(argv) == "cd" then (if |argv| > 1 then [Directory(argv[1])] else [])
    else [Program(argv, place)]
  }

  ghost function CommandJobs(texts: seq<string>, place: Place): seq<Job> {
    if texts == [] then [] else CommandJob(texts[0], place) + CommandJobs(texts[1..], place)
  }

  /** Block number `i` is flagged first if it is number 0, and last if it is number `n`. */
  ghost function BlockJobs(blocks: seq<string>, i: nat, n: nat): seq<Job> {
    if blocks == [] then []
    else CommandJobs(SplitAt(blocks[0], ';'), At(i, n)) + BlockJobs(blocks[1..], i + 1, n)
  }

  lemma CommandRunsJob(s: Shell, text: string, place: Place)
    requires RunCommand(s, text, place).outcome == Running
    ensures Jobs(RunCommand(s, text, place).trace) == Jobs(s.trace) + CommandJob(text, place)
  {
    hide Jobs;
    var argv := Tokens(Trimmed(text));
    var e := if First(argv) == "cd" && |argv| > 1 then ChangeDir(argv[1]) else Fork(s.forks, argv, place);
    OneMoreEvent(s.trace, e);
    assert Jobs(s.trace) + [] == Jobs(s.trace);
  }

  lemma {:induction false} CommandsRunJobs(s: Shell, texts: seq<string>, place: Place)
    requires RunCommands(s, texts, place).outcome == Running
    ensures Jobs(RunCommands(s, texts, place).trace) == Jobs(s.trace) + CommandJobs(texts, place)
    decreases |texts|
  {
    hide RunCommand, CommandJob, Jobs;
    if texts != [] {
      var s1 := RunCommand(s, texts[0], place);
      CommandsRunJobs(s1, texts[1..], place);
      CommandsGoOn(s1, texts[1..], place);
      CommandRunsJob(s, texts[0], place);
      assert Jobs(s.trace) + CommandJob(texts[0], place) + CommandJobs(texts[1..], place)
          == Jobs(s.trace) + (CommandJob(texts[0], place) + CommandJobs(texts[1..], place));
    } else {
      assert Jobs(s.trace) + [] == Jobs(s.trace);
    }
  }

  lemma FinishRunsNothing(s: Shell, last: bool)
    ensures var t := Finish(s, last);
            && Jobs(t.trace) == Jobs(s.trace) && t.history == s.history
            && (t.outcome == Running ==> s.outcome == Running)
  {
    hide Jobs;
    AwaitingOnlyWaits(s, 0);
    OneMoreEvent(Awaited(s).trace, Capture);
    assert Jobs(s.trace) + [] == Jobs(s.trace);
  }

  lemma {:induction false} BlocksRunJobs(s: Shell, blocks: seq<string>, i: nat, n: nat)
    requires RunBlocks(s, blocks, i, n).outcome == Running
    ensures Jobs(RunBlocks(s, blocks, i, n).trace) == Jobs(s.trace) + BlockJobs(blocks, i, n)
    decreases |blocks|
  {
    hide RunCommands, CommandJobs, Jobs, Finish;
    if blocks != [] {
      var texts := SplitAt(blocks[0], ';');
      var s1 := RunCommands(s, texts, At(i, n));
      var s2 := Finish(s1, i == n);
      BlocksRunJobs(s2, blocks[1..], i + 1, n);
      BlocksGoOn(s2, blocks[1..], i + 1, n);
      FinishRunsNothing(s1, i == n);
      CommandsRunJobs(s, texts, At(i, n));
      assert Jobs(s.trace) + CommandJobs(texts, At(i, n)) + BlockJobs(blocks[1..], i + 1, n)
          == Jobs(s.trace) + (CommandJobs(texts, At(i, n)) + BlockJobs(blocks[1..], i + 1, n));
    } else {
      assert Jobs(s.trace) + [] == Jobs(s.trace);
    }
  }

  /**
   While the shell goes on, a line carries out exactly its commands, in order: it changes to the directories
   they name and starts the programs, each in its block and with the flags of that block.
   */
  lemma LineRunsItsCommands(s: Shell, line: string)
    requires RunLine(s, line).outcome == Running
    ensures Jobs(RunLine(s, line).trace) == Jobs(s.trace) + BlockJobs(SplitAt(line, '|'), 0, Count(line, '|'))
  {
    SplitCount(line, '|');
    BlocksRunJobs(Opened(s), SplitAt(line, '|'), 0, |SplitAt(line, '|')| - 1);
  }

  // -- Which lines leave the shell running --------------------------------------------------------------------

  /** The command neither quits the shell nor asks it to change to no directory in particular. */
  ghost predicate Harmless(text: string) {
    var argv := Tokens(Trimmed(text));
    Trimmed(text) == [] || (First(argv) != "quit" && (First(argv) == "cd" ==> |argv| > 1))
  }

  ghost predicate AllHarmless(texts: seq<string>) {
    forall k :: 0 <= k < |texts| ==> Harmless(texts[k])
  }

  /** How many children the command starts, one or none. */
  ghost function StartsOne(text: string): nat {
    if Trimmed(text) == [] || First(Tokens(Trimmed(text))) == "cd" then 0 else 1
  }

  /** How many children the commands start. */
  ghost function Starts(texts: seq<string>): nat {
    if texts == [] then 0 else StartsOne(texts[0]) + Starts(texts[1..])
  }

  /** Some child of the forks from number `f` on, up to number `f + count`, writes something. */
  ghost predicate SomeWrites(f: nat, count: nat, silent: set<nat>) {
    exists p: nat :: f <= p < f + count && p !in silent
  }

  /**
   All commands of the block are harmless, they are few enough to run side by side, and unless the block
   is the last one some child it starts writes into the pipe. Its forks are numbered from `f` on.
   */
  ghost predicate BlockRuns(block: string, last: bool, f: nat, silent: set<nat>) {
    var texts := SplitAt(block, ';');
    && AllHarmless(texts) && Starts(texts) <= MAX_PROCESS_COUNT
    && (last || SomeWrites(f, Starts(texts), silent))
  }

  ghost predicate AllRun(blocks: seq<string>, f: nat, silent: set<nat>) {
    blocks == [] ||
    (BlockRuns(blocks[0], |blocks| == 1, f, silent) &&
     AllRun(blocks[1..], f + Starts(SplitAt(blocks[0], ';')), silent))
  }

  /** Counting on by one fork, and by more after it. */
  lemma SomeWritesAfter(f: nat, first: nat, more: nat, silent: set<nat>)
    requires first <= 1
    ensures SomeWrites(f, first + more, silent) <==>
              (first == 1 && f !in silent) || SomeWrites(f + first, more, silent)
  {
    if first == 1 && f !in silent {
      assert f <= f < f + first + more;
    }
  }

  /** `s'` has run on from `s` when nothing is refused: so many children more, and written into the pipe or not. */
  ghost predicate RunsOn(s: Shell, s': Shell, count: nat, last: bool) {
    && |s'.children| == |s.children| + count && s'.forks == s.forks + count
    && s'.answers == [] && s'.silent == s.silent
    && s'.unread == (s.unread || (!last && SomeWrites(s.forks, count, s.silent)))
  }

  lemma CommandRunsIff(s: Shell, text: string, place: Place)
    requires s.outcome == Running && |s.children| <= MAX_PROCESS_COUNT && s.answers == []
    ensures var (s', starts) := (RunCommand(s, text, place), StartsOne(text));
            && starts <= 1
            && (s'.outcome == Running <==> Harmless(text) && |s.children| + starts <= MAX_PROCESS_COUNT)
            && (s'.outcome == Running ==> RunsOn(s, s', starts, place.last))
  {
    hide AwaitFrom;
    AwaitingOnlyWaits(s, 0);
    SomeWritesAfter(s.forks, 1, 0, s.silent);
  }

  lemma {:induction false} CommandsRunIff(s: Shell, texts: seq<string>, place: Place)
    requires s.outcome == Running && |s.children| <= MAX_PROCESS_COUNT && s.answers == []
    ensures var s' := RunCommands(s, texts, place);
            && (s'.outcome == Running <==> AllHarmless(texts) && |s.children| + Starts(texts) <= MAX_PROCESS_COUNT)
            && (s'.outcome == Running ==> RunsOn(s, s', Starts(texts), place.last))
    decreases |texts|
  {
    hide RunCommand, StartsOne, Harmless, SomeWrites;
    if texts == [] {
      NoneWrites(s.forks, s.silent);
    } else {
      CommandRunsIff(s, texts[0], place);
      var s1 := RunCommand(s, texts[0], place);
      assert AllHarmless(texts) <==> Harmless(texts[0]) && AllHarmless(texts[1..]) by {
        assert texts == [texts[0]] + texts[1..];
      }
      if s1.outcome == Running {
        CommandsRunIff(s1, texts[1..], place);
        SomeWritesAfter(s.forks, StartsOne(texts[0]), Starts(texts[1..]), s.silent);
        SomeWritesAfter(s.forks, StartsOne(texts[0]), 0, s.silent);
        NoneWrites(s1.forks, s.silent);
      } else {
        StoppedCommands(s1, texts[1..], place);
      }
    }
  }

  lemma NoneWrites(f: nat, silent: set<nat>)
    ensures !SomeWrites(f, 0, silent)
  {
  }

  /** At the end of a block, nothing read yet, when the system grants everything. */
  lemma FinishRunsIff(s: Shell, last: bool)
    requires s.outcome == Running && s.answers == []
    ensures var t := Finish(s, last);
            && (t.outcome == Running <==> last || s.unread)
            && (t.outcome == Running ==>
                  && t.children == [] && t.answers == [] && (!last ==> !t.unread)
                  && t.forks == s.forks && t.silent == s.silent)
            && (!last && !s.unread ==> t.outcome == Stuck)
  {
    AwaitingOnlyWaits(s, 0);
  }

  lemma {:induction false} BlocksRunIff(s: Shell, blocks: seq<string>, i: nat, n: nat)
    requires s.outcome == Running && s.children == [] && s.answers == [] && !s.unread
    requires blocks != [] && n == i + |blocks| - 1
    ensures RunBlocks(s, blocks, i, n).outcome == Running <==> AllRun(blocks, s.forks, s.silent)
    decreases |blocks|
  {
    hide RunCommands, AllHarmless, Starts, Finish, SomeWrites;
    var texts, rest := SplitAt(blocks[0], ';'), blocks[1..];
    CommandsRunIff(s, texts, At(i, n));
    var s1 := RunCommands(s, texts, At(i, n));
    if s1.outcome == Running {
      FinishRunsIff(s1, i == n);
    } else {
      FinishRunsNothing(s1, i == n);
    }
    var s2 := Finish(s1, i == n);
    assert s2.outcome == Running <==> BlockRuns(blocks[0], |blocks| == 1, s.forks, s.silent);
    if s2.outcome != Running {
      StoppedBlocks(s2, rest, i + 1, n);
    } else if rest != [] {
      BlocksRunIff(s2, rest, i + 1, n);
    }
  }

  /**
   Between lines, when the system grants every call, a line leaves the shell running exactly when none of its
   commands quits it or names no directory to change to, no block starts more children than the shell has
   room for, and in every block but the last some child writes something.
   */
  lemma LineRunsOnIff(s: Shell, line: string)
    requires s.outcome == Running && s.children == [] && s.answers == []
    ensures RunLine(s, line).outcome == Running <==> AllRun(SplitAt(line, '|'), s.forks, s.silent)
  {
    BlocksRunIff(Opened(s), SplitAt(line, '|'), 0, |SplitAt(line, '|')| - 1);
  }

  /**
   A first block none of whose children writes leaves the shell waiting for ever for its output, whether it
   starts none or they are all silent.
   */
  lemma SilentBlockHangs(s: Shell, block: string, rest: string)
    requires s.outcome == Running && s.children == [] && s.answers == []
    requires var texts := SplitAt(block, ';');
             && '|' !in block && AllHarmless(texts) && Starts(texts) <= MAX_PROCESS_COUNT
             && !SomeWrites(s.forks, Starts(texts), s.silent)
    ensures RunLine(s, block + ['|'] + rest).outcome == Stuck
  {
    hide RunCommands, AllHarmless, Starts, SomeWrites;
    SplitFirst(block, rest, '|');
    var blocks := SplitAt(block + ['|'] + rest, '|');
    var (texts, n) := (SplitAt(block, ';'), |blocks| - 1);
    assert blocks == [block] + SplitAt(rest, '|');
    var s1 := RunCommands(Opened(s), texts, At(0, n));
    CommandsRunIff(Opened(s), texts, At(0, n));
    FinishRunsIff(s1, false);
    StoppedBlocks(Finish(s1, false), blocks[1..], 1, n);
  }

  /** For one, a line that starts with '|'. */
  lemma LeadingPipeHangs(s: Shell, rest: string)
    requires s.outcome == Running && s.children == [] && s.answers == []
    ensures RunLine(s, "|" + rest).outcome == Stuck
  {
    assert SplitAt("", ';') == [""] && Trimmed("") == [];
    assert Starts([""]) == 0 by {
      assert [""][1..] == [];
    }
    SilentBlockHangs(s, "", rest);
    assert "" + ['|'] + rest == "|" + rest;
  }

  /** For another, a pipe behind a single program that writes nothing. */
  lemma SilentCommandHangs(s: Shell, command: string, rest: string)
    requires s.outcome == Running && s.children == [] && s.answers == [] && s.forks in s.silent
    requires IsPlain(command) && Harmless(command)
    ensures RunLine(s, command + ['|'] + rest).outcome == Stuck
  {
    SplitNone(command, ';');
    assert [command][1..] == [];
    assert Starts([command][1..]) == 0;
    SilentBlockHangs(s, command, rest);
  }

  // -- Children are awaited block by block --------------------------------------------------------------------

  /** A child outstanding, and the number of its block. */
  datatype Child = Child(pid: nat, block: nat)

  ghost function Track(children: seq<Child>, e: Event): seq<Child> {
    if e.Fork? then children + [Child(e.pid, e.place.block)]
    else if e.Wait? && children != [] && children[0].pid == e.pid then children[1..]
    else children
  }

  /** The children forked and not yet awaited. */
  ghost function Outstanding(trace: seq<Event>): seq<Child> {
    if trace == [] then [] else Track(Outstanding(trace[..|trace| - 1]), trace[|trace| - 1])
  }

  /** How often the output of a block has been captured. */
  ghost function Captures(trace: seq<Event>): nat {
    if trace == [] then 0 else Captures(trace[..|trace| - 1]) + if trace[|trace| - 1] == Capture then 1 else 0
  }

  /** After `past`, a child starts only beside children of its own block, and a capture only when none is left. */
  ghost predicate InTurn(past: seq<Event>, e: Event) {
    && (e == Capture ==> Outstanding(past) == [])
    && (e.Fork? ==> forall c :: c in Outstanding(past) ==> c.block == e.place.block)
  }

  ghost predicate Orderly(trace: seq<Event>) {
    forall k :: 0 <= k < |trace| ==> InTurn(trace[..k], trace[k])
  }

  /** Since `start`, each child's block has as many captures before it as its number says. */
  ghost predicate ForksCounted(start: seq<Event>, trace: seq<Event>) {
    && start <= trace
    && forall k :: |start| <= k < |trace| && trace[k].Fork? ==>
         trace[k].place.block + Captures(start) == Captures(trace[..k])
  }

  /** The flags are those of the first and of the last of the blocks 0 to `n`. */
  ghost predicate Flagged(place: Place, n: nat) {
    (place.first <==> place.block == 0) && (place.last <==> place.block == n)
  }

  ghost predicate ForksFlagged(start: seq<Event>, trace: seq<Event>, n: nat) {
    forall k :: |start| <= k < |trace| && trace[k].Fork? ==> Flagged(trace[k].place, n)
  }

  ghost function OfBlock(pids: seq<nat>, b: nat): (children: seq<Child>)
    ensures |children| == |pids|
  {
    seq(|pids|, k requires 0 <= k < |pids| => Child(pids[k], b))
  }

  /** The trace up to now is in order; while the shell goes on, it stands in block number `b`. */
  ghost predicate InBlock(start: seq<Event>, s: Shell, b: nat, n: nat) {
    && Orderly(s.trace) && ForksCounted(start, s.trace) && ForksFlagged(start, s.trace, n)
    && (s.outcome == Quit ==> Outstanding(s.trace) == [])
    && (s.outcome == Running ==>
          Outstanding(s.trace) == OfBlock(s.children, b) && Captures(s.trace) == Captures(start) + b)
  }

  lemma AppendInTurn(start: seq<Event>, trace: seq<Event>, e: Event, n: nat)
    requires Orderly(trace) && ForksCounted(start, trace) && ForksFlagged(start, trace, n) && InTurn(trace, e)
    requires e.Fork? ==> e.place.block + Captures(start) == Captures(trace) && Flagged(e.place, n)
    ensures Orderly(trace + [e]) && ForksCounted(start, trace + [e]) && ForksFlagged(start, trace + [e], n)
    ensures Outstanding(trace + [e]) == Track(Outstanding(trace), e)
    ensures Captures(trace + [e]) == Captures(trace) + if e == Capture then 1 else 0
  {
    hide InTurn, Outstanding, Captures;
    var t := trace + [e];
    assert t[..|t| - 1] == trace && t[|t| - 1] == e;
    assert forall k :: 0 <= k < |trace| ==> t[..k] == trace[..k] && t[k] == trace[k];
    OutstandingAfter(trace, e);
  }

  lemma OutstandingAfter(trace: seq<Event>, e: Event)
    ensures Outstanding(trace + [e]) == Track(Outstanding(trace), e)
    ensures Captures(trace + [e]) == Captures(trace) + if e == Capture then 1 else 0
  {
    assert (trace + [e])[..|trace|] == trace;
  }

  /** Waiting for the children of a block, in order, leaves none outstanding, whatever interrupts it. */
  lemma {:induction false} AwaitingAwaitsAll(start: seq<Event>, s: Shell, i: nat, b: nat, n: nat)
    requires i <= |s.children| && s.outcome == Running && Orderly(s.trace)
    requires ForksCounted(start, s.trace) && ForksFlagged(start, s.trace, n)
    requires Outstanding(s.trace) == OfBlock(s.children[i..], b) && Captures(s.trace) == Captures(start) + b
    ensures InBlock(start, AwaitFrom(s, i), b, n)
    decreases |s.children| - i, |s.answers|
  {
    hide Outstanding, Captures, Orderly, ForksCounted, ForksFlagged;
    if i < |s.children| {
      if IsGranted(s) {
        var e := Wait(s.children[i]);
        AppendInTurn(start, s.trace, e, n);
        assert Track(Outstanding(s.trace), e) == OfBlock(s.children[i + 1..], b);
        AwaitingAwaitsAll(start, Called(s).(trace := s.trace + [e]), i + 1, b, n);
      } else if FirstAnswer(s.answers) == Interrupted {
        AwaitingAwaitsAll(start, Called(s), i, b, n);
      }
    }
  }

  lemma AllAwaited(start: seq<Event>, s: Shell, b: nat, n: nat)
    requires InBlock(start, s, b, n) && s.outcome == Running
    ensures InBlock(start, Awaited(s), b, n)
  {
    assert s.children[0..] == s.children;
    AwaitingAwaitsAll(start, s, 0, b, n);
  }

  lemma ForkStaysInBlock(start: seq<Event>, s: Shell, argv: seq<string>, place: Place, n: nat)
    requires Flagged(place, n) && InBlock(start, s, place.block, n) && s.outcome == Running
    ensures InBlock(start, Forked(s, argv, place), place.block, n)
  {
    hide Outstanding, Captures, Orderly, ForksCounted, ForksFlagged;
    var e := Fork(s.forks, argv, place);
    AppendInTurn(start, s.trace, e, n);
    assert Track(Outstanding(s.trace), e) == OfBlock(s.children + [s.forks], place.block);
  }

  lemma WordsStayInBlock(start: seq<Event>, s: Shell, argv: seq<string>, place: Place, n: nat)
    requires Flagged(place, n) && InBlock(start, s, place.block, n) && s.outcome == Running
    ensures InBlock(start, RunWords(s, argv, place), place.block, n)
  {
    hide Outstanding, Captures, Orderly, ForksCounted, ForksFlagged, AwaitFrom, Forked, OfBlock;
    AllAwaited(start, s, place.block, n);
    AwaitingOnlyWaits(s, 0);
    ForkStaysInBlock(start, s, argv, place, n);
    if |argv| > 1 {
      AppendInTurn(start, s.trace, ChangeDir(argv[1]), n);
    }
  }

  lemma CommandStaysInBlock(start: seq<Event>, s: Shell, text: string, place: Place, n: nat)
    requires Flagged(place, n) && InBlock(start, s, place.block, n)
    ensures InBlock(start, RunCommand(s, text, place), place.block, n)
  {
    hide Outstanding, Captures, Orderly, ForksCounted, ForksFlagged, RunWords, OfBlock, Trimmed, Tokens;
    if s.outcome == Running {
      WordsStayInBlock(start, s.(history := s.history + [Trimmed(text)]), Tokens(Trimmed(text)), place, n);
    }
  }

  lemma {:induction false} CommandsStayInBlock(start: seq<Event>, s: Shell, texts: seq<string>, place: Place, n: nat)
    requires Flagged(place, n) && InBlock(start, s, place.block, n)
    ensures InBlock(start, RunCommands(s, texts, place), place.block, n)
    decreases |texts|
  {
    hide RunCommand, InBlock;
    if texts != [] {
      CommandStaysInBlock(start, s, texts[0], place, n);
      CommandsStayInBlock(start, RunCommand(s, texts[0], place), texts[1..], place, n);
    }
  }

  /** The end of a block leads into the next one, unless it is the last. */
  lemma FinishLeavesBlock(start: seq<Event>, s: Shell, b: nat, n: nat, last: bool)
    requires InBlock(start, s, b, n)
    ensures InBlock(start, Finish(s, last), if last then b else b + 1, n)
    ensures Finish(s, last).outcome == Running ==> Finish(s, last).children == []
  {
    hide Outstanding, Captures, Orderly, ForksCounted, ForksFlagged, AwaitFrom;
    if s.outcome == Running {
      AllAwaited(start, s, b, n);
      AwaitingOnlyWaits(s, 0);
      if !last && Awaited(s).outcome == Running {
        AppendInTurn(start, Awaited(s).trace, Capture, n);
      }
    }
  }

  lemma {:induction false} BlocksAreInTurn(start: seq<Event>, s: Shell, blocks: seq<string>, i: nat, n: nat)
    requires InBlock(start, s, i, n) && blocks != [] && n == i + |blocks| - 1
    ensures InBlock(start, RunBlocks(s, blocks, i, n), n, n)
    ensures RunBlocks(s, blocks, i, n).outcome == Running ==> RunBlocks(s, blocks, i, n).children == []
    decreases |blocks|
  {
    hide RunCommands, InBlock, Finish;
    var texts, rest := SplitAt(blocks[0], ';'), blocks[1..];
    CommandsStayInBlock(start, s, texts, At(i, n), n);
    var s1 := RunCommands(s, texts, At(i, n));
    FinishLeavesBlock(start, s1, i, n, i == n);
    if rest != [] {
      BlocksAreInTurn(start, Finish(s1, i == n), rest, i + 1, n);
    }
  }

  /**
   Wherever a child is started, no child of another block is outstanding, and the number of captures since
   the line began is the number of its block. So all children of a block are awaited, and its output is
   captured, before the next block starts. A child is flagged first exactly if no '|' stands before it, and last
   exactly if none follows. A line that leaves the shell running has captured once for each '|'; it leaves no
   child behind, nor does one that quits the shell.
   */
  lemma LineAwaitsItsChildren(s: Shell, line: string)
    requires s.outcome == Running && s.children == [] && Orderly(s.trace) && Outstanding(s.trace) == []
    ensures var (t, trace) := (RunLine(s, line), RunLine(s, line).trace);
            && s.trace <= trace && Orderly(trace)
            && (forall k, c :: |s.trace| <= k < |trace| && trace[k].Fork? && c in Outstanding(trace[..k]) ==>
                  c.block == trace[k].place.block)
            && (forall k :: |s.trace| <= k < |trace| && trace[k].Fork? ==>
                  Captures(trace[..k]) == Captures(s.trace) + trace[k].place.block)
            && (forall k :: |s.trace| <= k < |trace| && trace[k].Fork? ==>
                  && (trace[k].place.first <==> Captures(trace[..k]) == Captures(s.trace))
                  && (trace[k].place.last <==> Captures(trace[..k]) == Captures(s.trace) + Count(line, '|')))
            && (t.outcome == Quit ==> Outstanding(trace) == [])
            && (t.outcome == Running ==>
                  && t.children == [] && Outstanding(trace) == []
                  && Captures(trace) == Captures(s.trace) + Count(line, '|'))
  {
    hide RunBlocks, Outstanding, Captures;
    SplitCount(line, '|');
    assert OfBlock([], 0) == [];
    BlocksAreInTurn(s.trace, Opened(s), SplitAt(line, '|'), 0, |SplitAt(line, '|')| - 1);
    assert OfBlock([], Count(line, '|')) == [];
    var trace := RunLine(s, line).trace;
    assert forall k :: 0 <= k < |trace| ==> InTurn(trace[..k], trace[k]);
  }
}
