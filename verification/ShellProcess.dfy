/** The shell itself: it walks a line character by character, overwriting it, and runs what it finds. */
module ShellProcesses {
  import opened ShellText
  import opened ShellLines
  import ShellHistory

  /** The words of the command fit the argument array. */
  ghost predicate Fits(text: string) {
    |Tokens(Trimmed(text))| < MAX_ARGS_COUNT
  }

  ghost predicate AllFit(texts: seq<string>) {
    forall k :: 0 <= k < |texts| ==> Fits(texts[k])
  }

  ghost predicate LineFits(line: string) {
    forall k :: 0 <= k < |SplitAt(line, '|')| ==> AllFit(SplitAt(SplitAt(line, '|')[k], ';'))
  }

  lemma FitsUpToSemicolon(x: string, y: string)
    requires IsPlain(x) && LineFits(x + [';'] + y)
    ensures Fits(x) && LineFits(y)
  {
    var b := SplitAt(y, '|');
    SplitPrefix(x + [';'], y, '|');
    SplitFirst(x, b[0], ';');
    var all := SplitAt(x + [';'] + y, '|');
    assert all == [x + [';'] + b[0]] + b[1..];
    var texts := SplitAt(all[0], ';');
    assert AllFit(texts) && texts[0] == x && texts[1..] == SplitAt(b[0], ';');
    forall k | 0 <= k < |b|
      ensures AllFit(SplitAt(b[k], ';'))
    {
      if k == 0 {
        assert forall i :: 0 <= i < |SplitAt(b[0], ';')| ==> SplitAt(b[0], ';')[i] == texts[i + 1];
      } else {
        assert b[k] == all[k];
      }
    }
  }

  lemma FitsUpToPipe(x: string, y: string)
    requires IsPlain(x) && LineFits(x + ['|'] + y)
    ensures Fits(x) && LineFits(y)
  {
    SplitFirst(x, y, '|');
    SplitNone(x, ';');
    var all := SplitAt(x + ['|'] + y, '|');
    assert all[0] == x && AllFit(SplitAt(all[0], ';')) && SplitAt(all[0], ';')[0] == x;
    assert forall k :: 0 <= k < |SplitAt(y, '|')| ==> SplitAt(y, '|')[k] == all[k + 1];
  }

  lemma FitsToEnd(x: string)
    requires IsPlain(x) && LineFits(x)
    ensures Fits(x)
  {
    SplitNone(x, '|');
    SplitNone(x, ';');
    assert SplitAt(x, '|')[0] == x && SplitAt(x, ';')[0] == x;
  }

  /** A trimmed command that is not blank has a first word. */
  lemma TrimmedHasWord(text: string)
    requires Trimmed(text) != []
    ensures Trimmed(text)[0] != ' ' && Tokens(Trimmed(text)) != []
  {
    var t := Trimmed(text);
    var before, after := TrimmedIsMiddle(text);
    SplitFirstChar(t);
  }

  lemma SplitFirstChar(t: string)
    requires t != [] && t[0] != ' '
    ensures Tokens(t) != []
  {
    var rest := SplitAt(t[1..], ' ');
    assert SplitAt(t, ' ')[0] == [t[0]] + rest[0];
  }

  class ShellProcess {
    var isFirstBlock: bool
    var isLastBlock: bool
    const childPids: array<nat>
    var childPidsSize: nat
    const history: ShellHistory.Queue
    var outcome: Outcome
    // the system: forks so far, whether the pipe of the line holds output, the answers to come, silent children
    var forks: nat
    var unread: bool
    var answers: seq<Answer>
    const silent: set<nat>
    ghost var block: nat
    ghost var trace: seq<Event>

    ghost predicate Valid()
      reads this`childPidsSize, childPids, history, history.nodes
    {
      childPids.Length == MAX_PROCESS_COUNT && childPidsSize <= childPids.Length && history.Valid()
    }

    ghost function AsShell(): Shell
      requires Valid()
      reads this`childPidsSize, this`forks, this`unread, this`answers, this`trace, this`outcome,
            childPids, history, history.nodes
    {
      Shell(history.Contents(), childPids[..childPidsSize], forks, unread, answers, silent, trace, outcome)
    }

    /** Where the command about to run stands, going by the shell's own flags. */
    ghost function Here(): Place
      reads this`block, this`isFirstBlock, this`isLastBlock
    {
      Place(block, isFirstBlock, isLastBlock)
    }

    constructor (answers: seq<Answer>, silent: set<nat>)
      ensures Valid() && fresh(childPids) && fresh(history) && history.nodes == []
      ensures AsShell() == Shell([], [], 0, false, answers, silent, [], Running)
    {
      this.answers, this.silent := answers, silent;
      isFirstBlock, isLastBlock, block := true, false, 0;
      childPids := new nat[MAX_PROCESS_COUNT](_ => 0);
      childPidsSize, forks, unread, outcome, trace := 0, 0, false, Running, [];
      history := new ShellHistory.Queue();
    }

    /** How the system answers the next call. */
    method SystemCall() returns (a: Answer)
      requires Valid()
      modifies this`answers
      ensures a == FirstAnswer(old(answers)) && AsShell() == Called(old(AsShell()))
    {
      a := FirstAnswer(answers);
      answers := LaterAnswers(answers);
    }

    /** Waits for one child, again when interrupted. */
    method WaitForChild(i: nat)
      requires Valid() && outcome == Running && i < childPidsSize
      modifies this`answers, this`outcome, this`trace
      ensures Valid()
      ensures AwaitFrom(old(AsShell()), i) == if outcome == Running then AwaitFrom(AsShell(), i + 1) else AsShell()
    {
      hide ShellHistory.Queue.Valid, ShellHistory.Queue.Contents;
      ghost var all := AwaitFrom(AsShell(), i);
      var a := SystemCall();
      while a == Interrupted
        invariant outcome == Running
        invariant a == Interrupted ==> all == AwaitFrom(AsShell(), i)
        invariant a == Refused ==> all == AsShell().(outcome := Failed)
        invariant a == Granted ==> all == AwaitFrom(AsShell().(trace := trace + [Wait(childPids[i])]), i + 1)
        decreases a == Interrupted, |answers|
      {
        a := SystemCall();
      }
      if a == Refused {
        outcome := Failed;
      } else {
        ghost var s := AsShell().(trace := trace + [Wait(childPids[i])]);
        trace := trace + [Wait(childPids[i])];
        assert AsShell() == s;
      }
    }

    method WaitForAllChildProcesses()
      requires Valid() && outcome == Running
      modifies this`childPidsSize, this`answers, this`outcome, this`trace
      ensures Valid() && AsShell() == Awaited(old(AsShell()))
    {
      hide ShellHistory.Queue.Valid, ShellHistory.Queue.Contents;
      for i := 0 to childPidsSize
        invariant childPidsSize == old(childPidsSize) && outcome == Running
        invariant AwaitFrom(AsShell(), i) == Awaited(old(AsShell()))
      {
        WaitForChild(i);
        if outcome != Running {
          return;
        }
      }
      childPidsSize := 0;
    }

    /** Forks a child for the command, unless there are too many already or the system refuses. */
    method CreateChildProcess(ghost argv: seq<string>)
      requires Valid() && outcome == Running
      modifies this`childPidsSize, this`forks, this`unread, this`answers, this`outcome, this`trace, childPids
      ensures Valid() && AsShell() == Forked(old(AsShell()), argv, Here())
    {
      hide ShellHistory.Queue.Valid, ShellHistory.Queue.Contents;
      if childPidsSize >= MAX_PROCESS_COUNT {
        outcome := Failed;
        return;
      }
      var a := SystemCall();
      if a != Granted {
        outcome := Failed;
        return;
      }
      childPids[childPidsSize] := forks;
      childPidsSize := childPidsSize + 1;
      trace := trace + [Fork(forks, argv, Here())];
      unread := unread || (!isLastBlock && forks !in silent);
      forks := forks + 1;
    }

    /** Runs the command that starts at `p`, trimming and cutting it up in place. */
    method ExecuteCommand(line: array<char>, p: nat, ghost n: nat)
      requires Valid() && outcome == Running
      requires CString(line[..], p, n) && Fits(line[p..p + n])
      modifies this`childPidsSize, this`forks, this`unread, this`answers, this`outcome, this`trace,
               childPids, history, history.nodes, line
      ensures Valid() && fresh(history.NodeSet() - old(history.NodeSet()))
      ensures AsShell() == RunCommand(old(AsShell()), old(line[p..p + n]), Here())
      ensures forall k :: 0 <= k < line.Length && (k < p || p + n <= k) ==> line[k] == old(line[k])
    {
      hide Tokens, Trimmed, ShellHistory.Queue.Valid, ShellHistory.Queue.Contents,
           AwaitFrom, RunWords, PointTo, PointsTo;
      ghost var text := line[p..p + n];
      ghost var m := Trim(line, p, n);
      var len := StrLen(line, p, m);
      if len == 0 {
        return;
      }
      ghost var command := line[p..p + m];
      TrimmedHasWord(text);
      history.Enqueue(line[p..p + len]);
      ghost var words;
      var args: seq<nat>;
      args, words := ParseCommand(line, p, m);
      RunParsed(line, p, args, words, p + m);
    }

    /** The built-in commands, or else a child process. */
    method RunParsed(line: array<char>, p: nat, args: seq<nat>, ghost words: seq<string>, ghost e: nat)
      requires Valid() && outcome == Running
      requires words != [] && PointTo(line[..], args, words, e) && args[0] == p
      modifies this`childPidsSize, this`forks, this`unread, this`answers, this`outcome, this`trace, childPids
      ensures Valid() && AsShell() == RunWords(old(AsShell()), words, Here())
    {
      hide ShellHistory.Queue.Valid, ShellHistory.Queue.Contents, AwaitFrom;
      assert PointsTo(line[..], args[0], words[0], e);
      var isCd := StrEq(line, p, "cd", |words[0]|);
      if isCd {
        var a := SystemCall();
        if |args| > 1 && a == Granted {
          trace := trace + [ChangeDir(words[1])];
        } else {
          outcome := Failed;
        }
        return;
      }
      var isQuit := StrEq(line, p, "quit", |words[0]|);
      if isQuit {
        WaitForAllChildProcesses();
        if outcome == Running {
          outcome := Quit;
        }
        return;
      }
      CreateChildProcess(words);
    }

    lemma OutcomeShown()
      requires Valid()
      ensures AsShell().outcome == outcome
    {
    }

    method CountPipes(line: array<char>, ghost n: nat) returns (pipes: nat)
      requires CString(line[..], 0, n)
      ensures pipes == Count(line[..n], '|')
    {
      pipes := 0;
      var k := 0;
      while line[k] != NUL
        invariant k <= n && pipes == Count(line[..k], '|')
        decreases n - k
      {
        CountOfConcat(line[..k], [line[k]], '|');
        assert line[..k + 1] == line[..k] + [line[k]];
        if line[k] == '|' {
          pipes := pipes + 1;
        }
        k := k + 1;
      }
    }

    /** The output of the block is read into the buffer, if there is any to come. */
    method CopyProcessOutputToBuffer()
      requires Valid() && outcome == Running
      modifies this`unread, this`answers, this`outcome, this`trace
      ensures Valid() && AsShell() == Captured(old(AsShell()))
    {
      if !unread {
        outcome := Stuck;
        return;
      }
      var a := SystemCall();
      if a != Granted {
        outcome := Failed;
        return;
      }
      unread := false;
      trace := trace + [Capture];
    }

    /** Ends the piece of `u` from `start` on at position `c` and runs it. */
    method EndAndExecute(line: array<char>, start: nat, c: nat, ghost u: string)
      requires Valid() && outcome == Running
      requires start <= c <= |u| < line.Length && Fits(u[start..c])
      requires forall k :: start <= k < |u| ==> line[k] == u[k] && u[k] != NUL
      modifies this`childPidsSize, this`forks, this`unread, this`answers, this`outcome, this`trace,
               childPids, history, history.nodes, line
      ensures Valid() && fresh(history.NodeSet() - old(history.NodeSet()))
      ensures AsShell() == RunCommand(old(AsShell()), u[start..c], Here())
      ensures AsShell().outcome == outcome
      ensures forall k :: c < k < line.Length ==> line[k] == old(line[k])
    {
      hide RunCommand, Fits, ShellHistory.Queue.Valid, ShellHistory.Queue.Contents;
      line[c] := NUL;
      assert line[start..c] == u[start..c];
      ExecuteCommand(line, start, c - start);
    }

    /** The same for the last piece of a block, whose children are then awaited and its output captured. */
    method EndBlock(line: array<char>, start: nat, c: nat, ghost u: string)
      requires Valid() && outcome == Running
      requires start <= c <= |u| < line.Length && Fits(u[start..c])
      requires forall k :: start <= k < |u| ==> line[k] == u[k] && u[k] != NUL
      modifies this`childPidsSize, this`forks, this`unread, this`answers, this`outcome, this`trace,
               childPids, history, history.nodes, line
      ensures Valid() && fresh(history.NodeSet() - old(history.NodeSet()))
      ensures AsShell() == Finish(RunCommand(old(AsShell()), u[start..c], Here()), false)
      ensures AsShell().outcome == outcome
      ensures forall k :: c < k < line.Length ==> line[k] == old(line[k])
    {
      hide RunCommand, Fits, AwaitFrom, ShellHistory.Queue.Valid, ShellHistory.Queue.Contents;
      EndAndExecute(line, start, c, u);
      if outcome == Running {
        WaitForAllChildProcesses();
      }
      if outcome == Running {
        CopyProcessOutputToBuffer();
      }
    }

    /** The walk stands in block number `i`, the piece starts at `start`, and `line` still holds `u` from there. */
    ghost predicate Walks(line: array<char>, start: nat, i: nat, n: nat, s0: Shell, u: string)
      reads this`childPidsSize, this`forks, this`unread, this`answers, this`trace, this`outcome,
            childPids, history, history.nodes, line
    {
      && start <= |u| < line.Length && Valid() && outcome == Running
      && line[|u|] == NUL && (forall k :: start <= k < |u| ==> line[k] == u[k] && u[k] != NUL)
      && LineFits(u[start..]) && i + Count(u[start..], '|') == n
      && RunFrom(AsShell(), u[start..], i, n) == RunLine(s0, u)
    }

    lemma WalkShows(line: array<char>, start: nat, i: nat, n: nat, s0: Shell, u: string)
      requires Walks(line, start, i, n, s0, u)
      ensures start <= |u| < line.Length && Valid() && outcome == Running && line[|u|] == NUL
      ensures forall k :: start <= k < |u| ==> line[k] == u[k] && u[k] != NUL
    {
    }

    lemma WalkStarts(line: array<char>, s0: Shell, u: string)
      requires Valid() && outcome == Running && CString(line[..], 0, |u|) && u == line[..|u|] && LineFits(u)
      requires AsShell() == Opened(s0)
      ensures Walks(line, 0, 0, Count(u, '|'), s0, u)
    {
      hide RunFrom, RunLine, AsShell, LineFits, Count, ShellHistory.Queue.Valid, ShellHistory.Queue.Contents;
      StartOfLine(s0, u);
    }

    /** A semicolon ends the piece. */
    method AtSemicolon(line: array<char>, start: nat, c: nat, ghost i: nat, ghost n: nat,
                       ghost s0: Shell, ghost u: string)
      requires Walks(line, start, i, n, s0, u) && start <= c < |u| && u[c] == ';' && IsPlain(u[start..c])
      requires Here() == At(i, n)
      modifies this`childPidsSize, this`forks, this`unread, this`answers, this`outcome, this`trace,
               childPids, history, history.nodes, line
      ensures Valid() && fresh(history.NodeSet() - old(history.NodeSet()))
      ensures if outcome == Running then Walks(line, c + 1, i, n, s0, u) else AsShell() == RunLine(s0, u)
      ensures IsPlain(u[c + 1..c + 1])
    {
      hide RunFrom, RunCommand, RunLine, AsShell, AwaitFrom, LineFits, Fits, Count, IsPlain,
           ShellHistory.Queue.Valid, ShellHistory.Queue.Contents;
      OutcomeShown();
      StepAtSemicolon(AsShell(), u, start, c, i, n);
      EndAndExecute(line, start, c, u);
    }

    /** A pipe ends the piece and the block. */
    method AtPipe(line: array<char>, start: nat, c: nat, ghost i: nat, ghost n: nat,
                  ghost s0: Shell, ghost u: string)
      requires Walks(line, start, i, n, s0, u) && start <= c < |u| && u[c] == '|' && IsPlain(u[start..c])
      requires Here() == At(i, n)
      modifies this`childPidsSize, this`forks, this`unread, this`answers, this`outcome, this`trace,
               childPids, history, history.nodes, line
      ensures Valid() && fresh(history.NodeSet() - old(history.NodeSet()))
      ensures if outcome == Running then Walks(line, c + 1, i + 1, n, s0, u) else AsShell() == RunLine(s0, u)
      ensures IsPlain(u[c + 1..c + 1])
    {
      hide RunFrom, RunCommand, RunLine, AsShell, AwaitFrom, Finish, LineFits, Fits, Count, IsPlain,
           ShellHistory.Queue.Valid, ShellHistory.Queue.Contents;
      OutcomeShown();
      StepAtPipe(AsShell(), u, start, c, i, n);
      EndBlock(line, start, c, u);
    }

    /** Runs the line in the buffer, which the commands found in it overwrite as it goes along. */
    method ExecuteLine(line: array<char>, ghost n: nat)
      requires Valid() && outcome == Running
      requires CString(line[..], 0, n) && LineFits(line[..n])
      modifies this, childPids, history, history.nodes, line
      ensures Valid() && fresh(history.NodeSet() - old(history.NodeSet()))
      ensures AsShell() == RunLine(old(AsShell()), old(line[..n]))
      ensures outcome == Running ==> isFirstBlock && !isLastBlock
    {
      hide Walks, Valid, RunFrom, RunCommand, RunLine, AsShell, AwaitFrom, LineFits, Fits, Count, IsPlain,
           ShellHistory.Queue.Valid, ShellHistory.Queue.Contents;
      ghost var u, s0 := line[..n], AsShell();
      OpenPipe();
      OutcomeShown();
      StartOfLine(s0, u);
      if outcome != Running {
        return;
      }
      var pipeCount := CountPipes(line, n);
      var seenPipeCount: nat := 0;
      var start: nat, c: nat := 0, 0;
      WalkStarts(line, s0, u);
      WalkShows(line, 0, 0, pipeCount, s0, u);
      while line[c] != NUL
        invariant start <= c <= n && Walks(line, start, seenPipeCount, pipeCount, s0, u)
        invariant line[c] == NUL <==> c == n
        invariant fresh(history.NodeSet() - old(history.NodeSet())) && IsPlain(u[start..c])
        invariant c > start ==> Here() == At(seenPipeCount, pipeCount)
        decreases n - c
      {
        start, seenPipeCount := PassCharacter(line, start, c, seenPipeCount, pipeCount, s0, u);
        if outcome != Running {
          return;
        }
        c := c + 1;
        WalkShows(line, start, seenPipeCount, pipeCount, s0, u);
      }
      assert u[start..c] == u[start..];
      LastPiece(line, start, c, seenPipeCount, pipeCount, s0, u);
      if outcome == Running {
        isLastBlock := false;
        isFirstBlock := true;
      }
    }

    /** One turn of the walk: the flags for the character at `c`, and what it ends, if anything. */
    method PassCharacter(line: array<char>, start: nat, c: nat, seen: nat, pipeCount: nat,
                         ghost s0: Shell, ghost u: string)
      returns (start': nat, seen': nat)
      requires Walks(line, start, seen, pipeCount, s0, u) && start <= c < |u| && IsPlain(u[start..c])
      modifies this, childPids, history, history.nodes, line
      ensures Valid() && fresh(history.NodeSet() - old(history.NodeSet()))
      ensures outcome == Running ==>
                && Walks(line, start', seen', pipeCount, s0, u) && start' <= c + 1 && IsPlain(u[start'..c + 1])
                && (c + 1 > start' ==> Here() == At(seen', pipeCount))
      ensures outcome != Running ==> AsShell() == RunLine(s0, u)
    {
      hide Walks, Valid, RunFrom, RunCommand, RunLine, AsShell, AwaitFrom, LineFits, Fits, Count, IsPlain,
           ShellHistory.Queue.Valid, ShellHistory.Queue.Contents;
      WalkShows(line, start, seen, pipeCount, s0, u);
      isFirstBlock := seen == 0;
      isLastBlock := seen == pipeCount;
      block := seen;
      start', seen' := start, seen;
      if line[c] == ';' {
        AtSemicolon(line, start, c, seen, pipeCount, s0, u);
        start' := c + 1;
      } else if line[c] == '|' {
        AtPipe(line, start, c, seen, pipeCount, s0, u);
        start', seen' := c + 1, seen + 1;
      } else {
        PlainGoesOn(u, start, c);
        WalkShows(line, start, seen, pipeCount, s0, u);
      }
    }

    /** The pipe every line starts with. */
    method OpenPipe()
      requires Valid() && outcome == Running
      modifies this`unread, this`answers, this`outcome
      ensures Valid() && AsShell() == Opened(old(AsShell()))
    {
      var a := SystemCall();
      if a == Granted {
        unread := false;
      } else {
        outcome := Failed;
      }
    }

    /** The end of the line ends its last piece; when that is empty the flags do not matter. */
    method LastPiece(line: array<char>, start: nat, c: nat, ghost i: nat, ghost n: nat,
                     ghost s0: Shell, ghost u: string)
      requires Walks(line, start, i, n, s0, u) && IsPlain(u[start..]) && c == |u|
      requires start < |u| ==> Here() == At(i, n)
      modifies this`childPidsSize, this`forks, this`unread, this`answers, this`outcome, this`trace,
               childPids, history, history.nodes, line
      ensures Valid() && fresh(history.NodeSet() - old(history.NodeSet()))
      ensures AsShell() == RunLine(s0, u)
    {
      hide RunFrom, RunCommand, RunLine, AsShell, AwaitFrom, LineFits, Fits, Count, IsPlain,
           ShellHistory.Queue.Valid, ShellHistory.Queue.Contents;
      OutcomeShown();
      assert u[start..c] == u[start..];
      StepAtEnd(AsShell(), u, start, i, n, Here());
      EndAndExecute(line, start, c, u);
      if outcome == Running {
        WaitForAllChildProcesses();
      }
    }
  }

  lemma StartOfLine(s: Shell, u: string)
    ensures RunLine(s, u) == RunFrom(Opened(s), u, 0, Count(u, '|')) && u[0..] == u && IsPlain(u[0..0])
    ensures Opened(s).outcome != Running ==> RunLine(s, u) == Opened(s)
  {
    SplitCount(u, '|');
    StoppedFrom(Opened(s), u, 0, Count(u, '|'));
  }

  lemma PlainGoesOn(u: string, start: nat, c: nat)
    requires start <= c < |u| && IsPlain(u[start..c]) && u[c] != ';' && u[c] != '|'
    ensures IsPlain(u[start..c + 1])
  {
    assert u[start..c + 1] == u[start..c] + [u[c]];
  }

  lemma StoppedFrom(s: Shell, text: string, i: nat, n: nat)
    ensures s.outcome != Running ==> RunFrom(s, text, i, n) == s
  {
    if s.outcome != Running {
      StoppedBlocks(s, SplitAt(text, '|'), i, n);
    }
  }

  /** A piece that ends at a semicolon. */
  lemma StepAtSemicolon(s: Shell, u: string, start: nat, c: nat, i: nat, n: nat)
    requires start <= c < |u| && u[c] == ';' && IsPlain(u[start..c]) && LineFits(u[start..]) && s.outcome == Running
    ensures Fits(u[start..c]) && LineFits(u[c + 1..]) && Count(u[c + 1..], '|') == Count(u[start..], '|')
    ensures var s' := RunCommand(s, u[start..c], At(i, n));
            && RunFrom(s, u[start..], i, n) == RunFrom(s', u[c + 1..], i, n)
            && (s'.outcome != Running ==> RunFrom(s, u[start..], i, n) == s')
    ensures IsPlain(u[c + 1..c + 1])
  {
    hide RunFrom, RunCommand, LineFits, Fits, Count, Finish;
    var x, y := u[start..c], u[c + 1..];
    assert u[start..] == x + [';'] + y;
    FitsUpToSemicolon(x, y);
    RunUpToSemicolon(s, x, y, i, n);
    CountPiece(x, ';', y);
    var s' := RunCommand(s, x, At(i, n));
    StoppedFrom(s', y, i, n);
  }

  /** A piece that ends at a pipe, and with it the block. */
  lemma StepAtPipe(s: Shell, u: string, start: nat, c: nat, i: nat, n: nat)
    requires start <= c < |u| && u[c] == '|' && IsPlain(u[start..c]) && LineFits(u[start..]) && s.outcome == Running
    requires i + Count(u[start..], '|') == n
    ensures Fits(u[start..c]) && LineFits(u[c + 1..]) && Count(u[c + 1..], '|') + 1 == Count(u[start..], '|')
    ensures var s' := RunCommand(s, u[start..c], At(i, n));
            && RunFrom(s, u[start..], i, n) == RunFrom(Finish(s', false), u[c + 1..], i + 1, n)
            && (Finish(s', false).outcome != Running ==> RunFrom(s, u[start..], i, n) == Finish(s', false))
    ensures IsPlain(u[c + 1..c + 1])
  {
    hide RunFrom, RunCommand, LineFits, Fits, Count, Finish;
    var x, y := u[start..c], u[c + 1..];
    assert u[start..] == x + ['|'] + y;
    FitsUpToPipe(x, y);
    RunUpToPipe(s, x, y, i, n);
    CountPiece(x, '|', y);
    var s' := RunCommand(s, x, At(i, n));
    StoppedFrom(Finish(s', i == n), y, i + 1, n);
  }

  /** The last piece; when it is empty the flags do not matter. */
  lemma StepAtEnd(s: Shell, u: string, start: nat, i: nat, n: nat, place: Place)
    requires start <= |u| && IsPlain(u[start..]) && LineFits(u[start..]) && s.outcome == Running
    requires i + Count(u[start..], '|') == n
    requires start < |u| ==> place == At(i, n)
    ensures Fits(u[start..])
    ensures var s' := RunCommand(s, u[start..], place);
            RunFrom(s, u[start..], i, n) == if s'.outcome != Running then s' else Awaited(s')
  {
    var x := u[start..];
    FitsToEnd(x);
    RunToEnd(s, x, i, n);
    SplitNone(x, '|');
    SplitCount(x, '|');
    if x == [] {
      assert Trimmed(x) == [];
    }
  }

  lemma CountPiece(x: string, sep: char, y: string)
    requires IsPlain(x)
    ensures Count(x + [sep] + y, '|') == Count(y, '|') + if sep == '|' then 1 else 0
  {
    CountOfConcat(x + [sep], y, '|');
    CountOfConcat(x, [sep], '|');
    SplitNone(x, '|');
    SplitCount(x, '|');
    assert Count([sep], '|') == (if sep == '|' then 1 else 0) + Count([sep][1..], '|');
  }
}
