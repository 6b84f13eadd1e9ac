/**
 Laws of the shell's line engine beyond what runs in which order: how lines end, what each kind of command
 does, and what becomes of the answers of the system.
 */
module ShellLaws {
  import opened ShellText
  import opened ShellLines

  // -- Single commands -----------------------------------------------------------------------------

  /**
   What a command does, by its words. A blank one does nothing; any other goes into the history. `cd` changes
   to the directory named by the second word, and ends the shell if there is none or the change fails. `quit`
   waits for all children of the block. Any other word is the name of a program, which becomes one more child,
   unless there are 128 or the fork fails.
   */
  lemma CommandByWords(s: Shell, text: string, place: Place)
    requires s.outcome == Running
    ensures Trimmed(text) == [] ==> RunCommand(s, text, place) == s
    ensures Trimmed(text) != [] ==>
            var (argv, t) := (Tokens(Trimmed(text)), RunCommand(s, text, place));
            var granted := s.answers == [] || s.answers[0] == Granted;
            && t.history == s.history + [Trimmed(text)]
            && (argv != [] && argv[0] == "cd" ==>
                  if |argv| > 1 && granted then t.outcome == Running && t.trace == s.trace + [ChangeDir(argv[1])]
                  else t.outcome == Failed && t.trace == s.trace)
            && (argv != [] && argv[0] == "quit" && Refused !in s.answers ==>
                  t.outcome == Quit && t.children == [] && t.trace == s.trace + WaitsFor(s.children))
            && (argv == [] || (argv[0] != "cd" && argv[0] != "quit") ==>
                  if |s.children| < 128 && granted then
                    && t.outcome == Running && t.children == s.children + [s.forks]
                    && t.trace == s.trace + [Fork(s.forks, argv, place)]
                  else t.outcome == Failed && t.trace == s.trace)
  {
    hide AwaitFrom, Trimmed, Tokens, WaitsFor;
    var s1 := s.(history := s.history + [Trimmed(text)]);
    AwaitingOnlyWaits(s1, 0);
    if Refused !in s.answers {
      UnrefusedWaitsEnd(s1, 0);
      assert s.children[0..] == s.children;
    }
  }

  ghost function WaitsFor(pids: seq<nat>): (events: seq<Event>)
    ensures |events| == |pids|
  {
    seq(|pids|, k requires 0 <= k < |pids| => Wait(pids[k]))
  }

  /** However often it is interrupted, waiting goes through all children in order if no wait fails. */
  lemma {:induction false} UnrefusedWaitsEnd(s: Shell, i: nat)
    requires i <= |s.children| && s.outcome == Running && Refused !in s.answers
    ensures var t := AwaitFrom(s, i);
            t.outcome == Running && t.children == [] && t.trace == s.trace + WaitsFor(s.children[i..])
    decreases |s.children| - i, |s.answers|
  {
    if i == |s.children| {
      assert WaitsFor(s.children[i..]) == [];
    } else if FirstAnswer(s.answers) == Interrupted {
      UnrefusedWaitsEnd(Called(s), i);
    } else {
      var e := Wait(s.children[i]);
      UnrefusedWaitsEnd(Called(s).(trace := s.trace + [e]), i + 1);
      assert [e] + WaitsFor(s.children[i + 1..]) == WaitsFor(s.children[i..]);
      assert s.trace + [e] + WaitsFor(s.children[i + 1..]) == s.trace + ([e] + WaitsFor(s.children[i + 1..]));
    }
  }

  /** How many of the answers are grants. */
  ghost function Grants(answers: seq<Answer>): nat {
    multiset(answers)[Granted]
  }

  /** An answer is a refusal, and fewer than `n` grants come before it. */
  ghost predicate RefusedBefore(answers: seq<Answer>, n: int) {
    exists k :: 0 <= k < |answers| && answers[k] == Refused && Grants(answers[..k]) < n
  }

  lemma GrantsBehind(answers: seq<Answer>, k: nat)
    requires answers != [] && k < |answers|
    ensures k == 0 ==> Grants(answers[..k]) == 0
    ensures k > 0 ==> Grants(answers[..k]) == Grants(answers[1..][..k - 1]) + if answers[0] == Granted then 1 else 0
  {
    if k > 0 {
      assert answers[..k] == [answers[0]] + answers[1..][..k - 1];
    }
  }

  /** Whether the first answer is that refusal, or one behind it is. */
  lemma RefusedBehind(answers: seq<Answer>, n: nat)
    requires answers != [] && n > 0
    ensures RefusedBefore(answers, n) <==>
              answers[0] == Refused || RefusedBefore(answers[1..], if answers[0] == Granted then n - 1 else n)
  {
    hide Grants;
    var (rest, m) := (answers[1..], if answers[0] == Granted then n - 1 else n);
    if answers[0] == Refused {
      GrantsBehind(answers, 0);
    } else {
      if RefusedBefore(answers, n) {
        var k :| 0 <= k < |answers| && answers[k] == Refused && Grants(answers[..k]) < n;
        GrantsBehind(answers, k);
        assert rest[k - 1] == Refused;
      }
      if RefusedBefore(rest, m) {
        var k :| 0 <= k < |rest| && rest[k] == Refused && Grants(rest[..k]) < m;
        GrantsBehind(answers, k + 1);
        assert answers[k + 1] == Refused;
      }
    }
  }

  lemma {:induction false} AwaitFailsIff(s: Shell, i: nat)
    requires i <= |s.children| && s.outcome == Running
    ensures AwaitFrom(s, i).outcome == Failed <==> RefusedBefore(s.answers, |s.children| - i)
    decreases |s.children| - i, |s.answers|
  {
    hide Grants, RefusedBefore;
    if i == |s.children| {
      NeverBeforeNone(s.answers);
    } else {
      if s.answers == [] {
        NoAnswerRefuses(|s.children| - i);
        NoAnswerRefuses(|s.children| - i - 1);
      } else {
        RefusedBehind(s.answers, |s.children| - i);
      }
      if FirstAnswer(s.answers) == Granted {
        AwaitFailsIff(Called(s).(trace := s.trace + [Wait(s.children[i])]), i + 1);
      } else if FirstAnswer(s.answers) == Interrupted {
        AwaitFailsIff(Called(s), i);
      }
    }
  }

  lemma NeverBeforeNone(answers: seq<Answer>)
    ensures !RefusedBefore(answers, 0)
  {
  }

  lemma NoAnswerRefuses(n: int)
    ensures !RefusedBefore([], n)
  {
  }

  /** Waiting fails exactly when a call is refused before as many as there are children have been granted. */
  lemma WaitFailsIff(s: Shell)
    requires s.outcome == Running
    ensures Awaited(s).outcome == Failed <==>
              exists k :: 0 <= k < |s.answers| && s.answers[k] == Refused &&
                          multiset(s.answers[..k])[Granted] < |s.children|
  {
    hide AwaitFrom;
    AwaitFailsIff(s, 0);
    assert forall k :: 0 <= k < |s.answers| ==> Grants(s.answers[..k]) == multiset(s.answers[..k])[Granted];
  }

  // -- Lines that quit -----------------------------------------------------------------------------

  ghost predicate IsQuit(text: string) {
    Trimmed(text) != [] && Tokens(Trimmed(text)) != [] && Tokens(Trimmed(text))[0] == "quit"
  }

  /** A command of the block is `quit`, and those before it are harmless and start at most `room` children. */
  ghost predicate BlockQuits(texts: seq<string>, room: int) {
    texts != [] &&
    (IsQuit(texts[0]) ||
     (Harmless(texts[0]) && StartsOne(texts[0]) <= room && BlockQuits(texts[1..], room - StartsOne(texts[0]))))
  }

  /** Some block quits, and all blocks before it run and write something into the pipe. */
  ghost predicate LineQuits(blocks: seq<string>, f: nat, silent: set<nat>) {
    blocks != [] &&
    (BlockQuits(SplitAt(blocks[0], ';'), 128) ||
     (|blocks| > 1 && BlockRuns(blocks[0], false, f, silent) &&
      LineQuits(blocks[1..], f + Starts(SplitAt(blocks[0], ';')), silent)))
  }

  lemma QuitCommandQuits(s: Shell, text: string, place: Place)
    requires s.outcome == Running && s.answers == [] && |s.children| <= MAX_PROCESS_COUNT
    ensures RunCommand(s, text, place).outcome == Quit <==> IsQuit(text)
    ensures IsQuit(text) ==> !Harmless(text)
  {
    hide AwaitFrom;
    AwaitingOnlyWaits(s.(history := s.history + [Trimmed(text)]), 0);
  }

  lemma {:induction false} CommandsQuitIff(s: Shell, texts: seq<string>, place: Place)
    requires s.outcome == Running && s.answers == [] && |s.children| <= MAX_PROCESS_COUNT
    ensures RunCommands(s, texts, place).outcome == Quit <==> BlockQuits(texts, MAX_PROCESS_COUNT - |s.children|)
    decreases |texts|
  {
    hide RunCommand, IsQuit, Harmless, StartsOne, SomeWrites;
    if texts != [] {
      var s1 := RunCommand(s, texts[0], place);
      QuitCommandQuits(s, texts[0], place);
      CommandRunsIff(s, texts[0], place);
      if s1.outcome == Running {
        CommandsQuitIff(s1, texts[1..], place);
      } else {
        StoppedCommands(s1, texts[1..], place);
      }
    }
  }

  lemma BlockQuitsOrRuns(texts: seq<string>, room: int)
    requires BlockQuits(texts, room)
    ensures !AllHarmless(texts)
  {
    hide Harmless, StartsOne, IsQuit;
    if IsQuit(texts[0]) {
      QuitIsNotHarmless(texts[0]);
    } else {
      var rest := texts[1..];
      BlockQuitsOrRuns(rest, room - StartsOne(texts[0]));
      var k :| 0 <= k < |rest| && !Harmless(rest[k]);
      assert texts[k + 1] == rest[k];
    }
  }

  lemma QuitIsNotHarmless(text: string)
    requires IsQuit(text)
    ensures !Harmless(text)
  {
  }

  lemma {:induction false} BlocksQuitIff(s: Shell, blocks: seq<string>, i: nat, n: nat)
    requires s.outcome == Running && s.children == [] && s.answers == [] && !s.unread
    requires blocks != [] && n == i + |blocks| - 1
    ensures RunBlocks(s, blocks, i, n).outcome == Quit <==> LineQuits(blocks, s.forks, s.silent)
    decreases |blocks|
  {
    hide RunCommands, AllHarmless, Starts, Finish, SomeWrites, BlockQuits;
    var texts, rest := SplitAt(blocks[0], ';'), blocks[1..];
    CommandsRunIff(s, texts, At(i, n));
    CommandsQuitIff(s, texts, At(i, n));
    var s1 := RunCommands(s, texts, At(i, n));
    var s2 := Finish(s1, i == n);
    if s1.outcome == Running {
      FinishRunsIff(s1, i == n);
    } else {
      FinishStopped(s1, i == n);
    }
    if BlockQuits(texts, MAX_PROCESS_COUNT) {
      BlockQuitsOrRuns(texts, MAX_PROCESS_COUNT);
    }
    if s2.outcome != Running {
      StoppedBlocks(s2, rest, i + 1, n);
    } else if rest != [] {
      BlocksQuitIff(s2, rest, i + 1, n);
    }
  }

  lemma FinishStopped(s: Shell, last: bool)
    requires s.outcome != Running
    ensures Finish(s, last) == s
  {
  }

  /**
   Between lines, when the system grants every call, a line quits the shell exactly when one of its commands is
   `quit` and nothing before that command stops the shell.
   */
  lemma LineQuitsIff(s: Shell, line: string)
    requires s.outcome == Running && s.children == [] && s.answers == []
    ensures RunLine(s, line).outcome == Quit <==> LineQuits(SplitAt(line, '|'), s.forks, s.silent)
  {
    BlocksQuitIff(Opened(s), SplitAt(line, '|'), 0, |SplitAt(line, '|')| - 1);
  }

  // -- What becomes of the answers of the system ------------------------------------------------------

  /**
   While the shell goes on from `s` to `t`, no answer taken was a refusal, and each event is one grant taken,
   as long as the list lasts.
   */
  ghost predicate Accounts(s: Shell, t: Shell) {
    t.outcome == Running ==>
      && s.outcome == Running
      && multiset(t.answers)[Refused] == multiset(s.answers)[Refused]
      && (t.answers != [] ==>
            s.answers != [] && |t.trace| + Grants(t.answers) == |s.trace| + Grants(s.answers))
  }

  lemma OneAnswer(s: Shell)
    ensures s.answers != [] ==>
              multiset(s.answers) == multiset{s.answers[0]} + multiset(Called(s).answers)
  {
    if s.answers != [] {
      assert s.answers == [s.answers[0]] + s.answers[1..];
    }
  }

  lemma {:induction false} AwaitAccounts(s: Shell, i: nat)
    requires i <= |s.children|
    ensures Accounts(s, AwaitFrom(s, i))
    decreases |s.children| - i, |s.answers|
  {
    if i < |s.children| {
      OneAnswer(s);
      if FirstAnswer(s.answers) == Granted {
        AwaitAccounts(Called(s).(trace := s.trace + [Wait(s.children[i])]), i + 1);
      } else if FirstAnswer(s.answers) == Interrupted {
        AwaitAccounts(Called(s), i);
      }
    }
  }

  lemma CommandAccounts(s: Shell, text: string, place: Place)
    ensures Accounts(s, RunCommand(s, text, place))
  {
    hide AwaitFrom;
    OneAnswer(s);
  }

  lemma {:induction false} CommandsAccount(s: Shell, texts: seq<string>, place: Place)
    ensures Accounts(s, RunCommands(s, texts, place))
    decreases |texts|
  {
    hide RunCommand;
    if texts != [] {
      CommandAccounts(s, texts[0], place);
      CommandsAccount(RunCommand(s, texts[0], place), texts[1..], place);
    }
  }

  lemma FinishAccounts(s: Shell, last: bool)
    ensures Accounts(s, Finish(s, last))
  {
    hide AwaitFrom;
    AwaitAccounts(s, 0);
    OneAnswer(Awaited(s));
  }

  lemma {:induction false} BlocksAccount(s: Shell, blocks: seq<string>, i: nat, n: nat)
    ensures Accounts(s, RunBlocks(s, blocks, i, n))
    decreases |blocks|
  {
    hide RunCommands, Finish;
    if blocks != [] {
      var texts := SplitAt(blocks[0], ';');
      var s1 := RunCommands(s, texts, At(i, n));
      CommandsAccount(s, texts, At(i, n));
      FinishAccounts(s1, i == n);
      BlocksAccount(Finish(s1, i == n), blocks[1..], i + 1, n);
    }
  }

  /**
   A line that leaves the shell running has met no refusal, and each event in its trace, with the pipe the line
   begins with, was one call granted.
   */
  lemma EachEventWasGranted(s: Shell, line: string)
    requires RunLine(s, line).outcome == Running
    ensures var t := RunLine(s, line);
            && multiset(t.answers)[Refused] == multiset(s.answers)[Refused]
            && (t.answers != [] ==> |t.trace| - |s.trace| + 1 == Grants(s.answers) - Grants(t.answers))
  {
    hide RunBlocks;
    OneAnswer(s);
    BlocksAccount(Opened(s), SplitAt(line, '|'), 0, |SplitAt(line, '|')| - 1);
  }
}
