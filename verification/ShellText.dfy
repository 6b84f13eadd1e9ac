/**
 Text in the shell: what a line means as pieces and words, and the routines that trim and tokenise a
 C string in place.
 */
module ShellText {

  const NUL := '\0'

  // -- What text means ---------------------------------------------------------------------------------

  predicate IsSpace(c: char) {
    c == ' ' || '\t' <= c <= '\r'
  }

  /** `s` cut at every `sep`; the pieces may be empty, and there is always at least one. */
  ghost function SplitAt(s: string, sep: char): (pieces: seq<string>)
    ensures pieces != []
  {
    if s == [] then [[]]
    else
      var rest := SplitAt(s[1..], sep);
      if s[0] == sep then [[]] + rest else [[s[0]] + rest[0]] + rest[1..]
  }

  ghost function NonEmpty(pieces: seq<string>): seq<string> {
    if pieces == [] then [] else (if pieces[0] == [] then [] else [pieces[0]]) + NonEmpty(pieces[1..])
  }

  /** The words of a command: what lies between blanks. */
  ghost function Tokens(s: string): seq<string> {
    NonEmpty(SplitAt(s, ' '))
  }

  ghost function LeadingSpaces(s: string): (n: nat)
    ensures n <= |s|
  {
    if s != [] && IsSpace(s[0]) then 1 + LeadingSpaces(s[1..]) else 0
  }

  ghost function TrimRight(s: string): string {
    if s != [] && IsSpace(s[|s| - 1]) then TrimRight(s[..|s| - 1]) else s
  }

  ghost function Trimmed(s: string): string {
    TrimRight(s[LeadingSpaces(s)..])
  }

  // -- Laws of splitting -------------------------------------------------------------------------------

  lemma {:induction false} SplitNone(x: string, sep: char)
    requires sep !in x
    ensures SplitAt(x, sep) == [x]
  {
    if x != [] {
      SplitNone(x[1..], sep);
      assert [x[0]] + x[1..] == x;
    }
  }

  /** A first piece and a separator come off the front. */
  lemma {:induction false} SplitFirst(x: string, y: string, sep: char)
    requires sep !in x
    ensures SplitAt(x + [sep] + y, sep) == [x] + SplitAt(y, sep)
  {
    var s := x + [sep] + y;
    if x == [] {
      assert s[1..] == y;
    } else {
      SplitFirst(x[1..], y, sep);
      assert s[1..] == x[1..] + [sep] + y;
      assert [x[0]] + x[1..] == x;
      assert ([x[1..]] + SplitAt(y, sep))[1..] == SplitAt(y, sep);
    }
  }

  /** Text without the separator only lengthens the first piece. */
  lemma {:induction false} SplitPrefix(x: string, y: string, sep: char)
    requires sep !in x
    ensures SplitAt(x + y, sep) == [x + SplitAt(y, sep)[0]] + SplitAt(y, sep)[1..]
  {
    if x == [] {
      assert x + y == y && x + SplitAt(y, sep)[0] == SplitAt(y, sep)[0];
    } else {
      SplitPrefix(x[1..], y, sep);
      assert (x + y)[1..] == x[1..] + y;
      assert [x[0]] + (x[1..] + SplitAt(y, sep)[0]) == x + SplitAt(y, sep)[0];
    }
  }

  ghost function Count(s: string, c: char): nat {
    if s == [] then 0 else (if s[0] == c then 1 else 0) + Count(s[1..], c)
  }

  lemma {:induction false} SplitCount(s: string, sep: char)
    ensures |SplitAt(s, sep)| == Count(s, sep) + 1
  {
    if s != [] {
      SplitCount(s[1..], sep);
    }
  }

  lemma {:induction false} CountOfConcat(x: string, y: string, c: char)
    ensures Count(x + y, c) == Count(x, c) + Count(y, c)
  {
    if x == [] {
      assert x + y == y;
    } else {
      CountOfConcat(x[1..], y, c);
      assert (x + y)[1..] == x[1..] + y;
    }
  }

  lemma TokensSkipBlank(y: string)
    ensures Tokens([' '] + y) == Tokens(y)
  {
    SplitFirst([], y, ' ');
    assert [] + [' '] + y == [' '] + y;
    assert ([[]] + SplitAt(y, ' '))[1..] == SplitAt(y, ' ');
  }

  lemma TokensFirst(x: string, y: string)
    requires x != [] && ' ' !in x
    ensures Tokens(x + [' '] + y) == [x] + Tokens(y)
    ensures Tokens(x) == [x]
  {
    SplitFirst(x, y, ' ');
    assert ([x] + SplitAt(y, ' '))[1..] == SplitAt(y, ' ');
    SplitNone(x, ' ');
    assert [x][1..] == [] && NonEmpty([x][1..]) == [];
  }

  // -- Laws of trimming --------------------------------------------------------------------------------

  ghost predicate AllSpace(s: string) {
    forall i :: 0 <= i < |s| ==> IsSpace(s[i])
  }

  lemma {:induction false} LeadingSpacesLead(s: string)
    ensures var n := LeadingSpaces(s);
            AllSpace(s[..n]) && (n < |s| ==> !IsSpace(s[n]))
  {
    if s != [] && IsSpace(s[0]) {
      LeadingSpacesLead(s[1..]);
      var n := LeadingSpaces(s);
      assert forall i :: 0 < i < n ==> s[i] == s[1..][..n - 1][i - 1];
    }
  }

  lemma {:induction false} TrimRightTrims(s: string)
    ensures var t := TrimRight(s);
            && t <= s && AllSpace(s[|t|..])
            && (t != [] ==> !IsSpace(t[|t| - 1]))
  {
    if s != [] && IsSpace(s[|s| - 1]) {
      var r := s[..|s| - 1];
      TrimRightTrims(r);
      var t := TrimRight(r);
      forall i | 0 <= i < |s[|t|..]|
        ensures IsSpace(s[|t|..][i])
      {
        assert i < |r[|t|..]| ==> s[|t|..][i] == r[|t|..][i];
      }
    }
  }

  /** Trimming takes off spaces at both ends, all of them, and nothing else. */
  lemma TrimmedIsMiddle(s: string) returns (before: string, after: string)
    ensures s == before + Trimmed(s) + after
    ensures forall c :: c in before || c in after ==> c == ' ' || 9 <= c as int <= 13
    ensures var t := Trimmed(s);
            t != [] ==>
              && t[0] != ' ' && !(9 <= t[0] as int <= 13)
              && t[|t| - 1] != ' ' && !(9 <= t[|t| - 1] as int <= 13)
  {
    var n := LeadingSpaces(s);
    LeadingSpacesLead(s);
    TrimRightTrims(s[n..]);
    before, after := s[..n], s[n + |Trimmed(s)|..];
    assert s[n..][|Trimmed(s)|..] == after;
    assert s == s[..n] + s[n..];
    assert Trimmed(s) != [] ==> Trimmed(s)[0] == s[n];
  }

  // -- C strings ---------------------------------------------------------------------------------------

  /** A C string of length `n` starts at `p`. */
  ghost predicate CString(s: string, p: nat, n: nat) {
    p + n < |s| && s[p + n] == NUL && forall k :: p <= k < p + n ==> s[k] != NUL
  }

  method StrLen(line: array<char>, p: nat, ghost n: nat) returns (len: nat)
    requires CString(line[..], p, n)
    ensures len == n
  {
    len := 0;
    while line[p + len] != NUL
      invariant len <= n
      decreases n - len
    {
      len := len + 1;
    }
  }

  /** One step of the scan from the front. */
  lemma LeadStep(s: string, begin: nat)
    requires begin <= |s|
    ensures begin < |s| && IsSpace(s[begin]) ==> LeadingSpaces(s[begin..]) == 1 + LeadingSpaces(s[begin + 1..])
    ensures (begin < |s| && IsSpace(s[begin])) || LeadingSpaces(s[begin..]) == 0
  {
    assert begin < |s| ==> s[begin..][0] == s[begin] && s[begin..][1..] == s[begin + 1..];
  }

  /** One step of the scan from the back. */
  lemma TrailStep(s: string, begin: nat, end: int)
    requires begin <= end + 1 <= |s|
    ensures begin <= end && IsSpace(s[end]) ==> TrimRight(s[begin..end + 1]) == TrimRight(s[begin..end])
    ensures (begin <= end && IsSpace(s[end])) || TrimRight(s[begin..end + 1]) == s[begin..end + 1]
  {
    if begin <= end {
      var t := s[begin..end + 1];
      assert t[|t| - 1] == s[end] && t[..|t| - 1] == s[begin..end];
    }
  }

  /** The first loop of the trimming: how many characters come off the front. */
  method SkipSpaces(line: array<char>, p: nat, ghost n: nat) returns (begin: nat)
    requires CString(line[..], p, n)
    ensures begin == LeadingSpaces(line[p..p + n])
  {
    hide LeadingSpaces;
    ghost var s := line[p..p + n];
    begin := 0;
    assert s[0..] == s;
    while IsSpace(line[p + begin])
      invariant begin <= n && begin + LeadingSpaces(s[begin..]) == LeadingSpaces(s)
      decreases n - begin
    {
      assert begin < n ==> s[begin] == line[p + begin];
      LeadStep(s, begin);
      begin := begin + 1;
    }
    assert begin < n ==> s[begin] == line[p + begin];
    LeadStep(s, begin);
  }

  /** The second loop of the trimming: the last character that stays. */
  method LastKept(line: array<char>, p: nat, begin: nat, ghost n: nat) returns (end: int)
    requires CString(line[..], p, n) && begin <= n
    ensures begin <= end + 1 <= n && line[p..p + n][begin..end + 1] == TrimRight(line[p..p + n][begin..])
  {
    hide TrimRight;
    ghost var s := line[p..p + n];
    var len: int := StrLen(line, p, n);
    end := -1 + len;
    assert s[begin..n] == s[begin..];
    while end >= begin && IsSpace(line[p + end])
      invariant begin - 1 <= end < n && TrimRight(s[begin..end + 1]) == TrimRight(s[begin..])
    {
      assert s[end] == line[p + end];
      TrailStep(s, begin, end);
      end := end - 1;
    }
    assert end >= begin ==> s[end] == line[p + end];
    TrailStep(s, begin, end);
  }

  lemma TrimmedIsBoth(s: string)
    ensures Trimmed(s) == TrimRight(s[LeadingSpaces(s)..])
  {
  }

  /** Moves the string at `p` to its trimmed form; nothing outside the string changes. */
  method Trim(line: array<char>, p: nat, ghost n: nat) returns (ghost m: nat)
    requires CString(line[..], p, n)
    modifies line
    ensures CString(line[..], p, m) && m <= n && line[p..p + m] == Trimmed(old(line[p..p + n]))
    ensures forall k :: 0 <= k < line.Length && (k < p || p + n <= k) ==> line[k] == old(line[k])
  {
    hide Trimmed, TrimRight, LeadingSpaces;
    ghost var s, t := line[p..p + n], Trimmed(line[p..p + n]);
    var begin := SkipSpaces(line, p, n);
    var end := LastKept(line, p, begin, n);
    assert s[begin..end + 1] == t by {
      TrimmedIsBoth(s);
    }
    assert old(line[..])[p + n] == NUL;
    m := end + 1 - begin;
    MoveDown(line, p, begin, end);
    assert forall k :: 0 <= k < m ==>
             line[p + k] == s[begin + k] == t[k] && s[begin + k] == old(line[..])[p + begin + k];
    assert line[p..p + m] == t;
  }

  /** The last loop of the trimming: characters `begin` to `end` move to the front and NUL ends them. */
  method MoveDown(line: array<char>, p: nat, begin: nat, end: int)
    requires begin <= end + 1 && p + end + 1 < line.Length
    modifies line
    ensures forall k :: 0 <= k < line.Length ==>
              line[k] == if p <= k < p + end + 1 - begin then old(line[k + begin])
                         else if k == p + end + 1 - begin then NUL
                         else old(line[k])
  {
    var i := begin;
    while i <= end
      invariant begin <= i <= end + 1
      invariant forall k :: 0 <= k < line.Length ==>
                  line[k] == if p <= k < p + i - begin then old(line[k + begin]) else old(line[k])
    {
      line[p + i - begin] := line[p + i];
      i := i + 1;
    }
    line[p + i - begin] := NUL;
  }

  lemma {:induction false} TokensAllBlank(s: string)
    requires forall i :: 0 <= i < |s| ==> s[i] == ' '
    ensures Tokens(s) == []
  {
    if s != [] {
      TokensAllBlank(s[1..]);
      TokensSkipBlank(s[1..]);
      assert s == [' '] + s[1..];
    }
  }

  lemma {:induction false} TokensSkipBlanks(s: string, k: nat)
    requires k <= |s| && forall i :: 0 <= i < k ==> s[i] == ' '
    ensures Tokens(s) == Tokens(s[k..])
  {
    if k > 0 {
      TokensSkipBlanks(s[1..], k - 1);
      TokensSkipBlank(s[1..]);
      assert s == [' '] + s[1..] && s[1..][k - 1..] == s[k..];
    } else {
      assert s[0..] == s;
    }
  }

  /** A word from `i` to `j`, followed by a blank or the end, is the first word of what starts with it. */
  lemma TokensOfWord(s: string, i: nat, j: nat)
    requires i < j <= |s| && (forall k :: 0 <= k < i ==> s[k] == ' ') && (forall k :: i <= k < j ==> s[k] != ' ')
    requires j == |s| || s[j] == ' '
    ensures Tokens(s) == [s[i..j]] + Tokens(s[if j == |s| then j else j + 1..])
  {
    TokensSkipBlanks(s, i);
    if j == |s| {
      assert s[i..] == s[i..j];
      TokensFirst(s[i..j], []);
      assert s[j..] == [];
      TokensAllBlank([]);
    } else {
      assert s[i..] == s[i..j] + [' '] + s[j + 1..];
      TokensFirst(s[i..j], s[j + 1..]);
    }
  }

  /** `strcmp(s, w) == 0` for the string of length `n` at `p`. */
  method StrEq(line: array<char>, p: nat, w: string, ghost n: nat) returns (equal: bool)
    requires CString(line[..], p, n) && NUL !in w
    ensures equal <==> line[p..p + n] == w
  {
    var i := 0;
    while i < |w| && line[p + i] == w[i]
      invariant i <= n && i <= |w| && line[p..p + i] == w[..i]
    {
      i := i + 1;
    }
    equal := i == |w| && line[p + i] == NUL;
    if i < |w| && i < n {
      assert line[p..p + n][i] == line[p + i];
    }
  }

  lemma SliceOfSlice(s: string, q: nat, e: nat, i: nat, j: nat)
    requires q <= i <= j <= e <= |s|
    ensures s[q..e][i - q..j - q] == s[i..j]
  {
    var t := s[q..e];
    assert forall k :: 0 <= k < |t| ==> t[k] == s[q + k];
    var x := t[i - q..j - q];
    assert forall k :: 0 <= k < |x| ==> x[k] == t[i - q + k] && x[k] == s[i + k];
  }

  /** No NUL before the one at `e`. */
  ghost predicate RunsTo(s: string, q: nat, e: nat) {
    q <= e < |s| && s[e] == NUL && forall k :: q <= k < e ==> s[k] != NUL
  }

  /**
   One call of `strtok` with blank as the only delimiter: finds the next word from `q` on, puts NUL in
   place of the blank after it, and says where the next call goes on. -1 when there is no word left.
   */
  method StrTok(line: array<char>, q: nat, ghost e: nat) returns (token: int, next: nat, ghost word: string)
    requires RunsTo(line[..], q, e)
    modifies line
    ensures token == -1 ==> Tokens(old(line[q..e])) == [] && line[..] == old(line[..])
    ensures token != -1 ==>
              && q <= token < next <= e && 0 < |word| && CString(line[..], token, |word|)
              && line[token..token + |word|] == word && token + |word| <= next
              && Tokens(old(line[q..e])) == [word] + Tokens(line[next..e])
    ensures token != -1 ==> forall k :: 0 <= k < line.Length && (k < q || next <= k) ==> line[k] == old(line[k])
    ensures q < e && old(line[q]) != ' ' ==> token == q
  {
    hide Tokens;
    ghost var s := line[q..e];
    var t := q;
    while line[t] == ' '
      invariant q <= t <= e && forall k :: q <= k < t ==> line[k] == ' '
      decreases e - t
    {
      t := t + 1;
    }
    if line[t] == NUL {
      TokensAllBlank(s);
      return -1, t, [];
    }
    var j := t;
    while line[j] != ' ' && line[j] != NUL
      invariant t <= j <= e && forall k :: t <= k < j ==> line[k] != ' '
      decreases e - j
    {
      j := j + 1;
    }
    word := line[t..j];
    SliceOfSlice(line[..], q, e, t, j);
    TokensOfWord(s, t - q, j - q);
    next := j;
    if line[j] == ' ' {
      line[j] := NUL;
      next := j + 1;
      assert s[j - q + 1..] == line[j + 1..e];
    } else {
      assert s[j - q..] == line[j..e];
    }
    token := t;
  }

  const MAX_ARGS_COUNT := 64

  /** `a` points to `word`, which ends before `q` or at it. */
  ghost predicate PointsTo(s: string, a: nat, word: string, q: nat) {
    0 < |word| && a + |word| <= q && CString(s, a, |word|) && s[a..a + |word|] == word
  }

  /** Each argument points to its word. */
  ghost predicate PointTo(s: string, args: seq<nat>, words: seq<string>, q: nat) {
    && |args| == |words|
    && forall i :: 0 <= i < |args| ==> PointsTo(s, args[i], words[i], q)
  }

  /** Writing from `q` on, where no string ends, leaves the arguments before it alone. */
  lemma PointersKept(s: string, s': string, args: seq<nat>, words: seq<string>, q: nat, q': nat)
    requires PointTo(s, args, words, q) && |s'| == |s| && q <= q'
    requires q < |s| && s[q] != NUL && forall k :: 0 <= k < q ==> s'[k] == s[k]
    ensures PointTo(s', args, words, q')
  {
    forall i | 0 <= i < |args|
      ensures PointsTo(s', args[i], words[i], q')
    {
      var (a, n) := (args[i], |words[i]|);
      assert PointsTo(s, a, words[i], q);
      assert forall k :: a <= k < a + n ==> s'[k] == s[k];
      assert s'[a..a + n] == s[a..a + n];
    }
  }

  lemma NoPointers(s: string, q: nat)
    ensures PointTo(s, [], [], q)
  {
  }

  lemma PointsToIt(s: string, a: nat, word: string, q: nat)
    requires 0 < |word| && a + |word| <= q && CString(s, a, |word|) && s[a..a + |word|] == word
    ensures PointsTo(s, a, word, q)
  {
  }

  lemma PointersBefore(s: string, args: seq<nat>, words: seq<string>, q: nat, q': nat)
    requires PointTo(s, args, words, q) && q <= q'
    ensures PointTo(s, args, words, q') && |args| == |words|
  {
    assert forall i :: 0 <= i < |args| ==> PointsTo(s, args[i], words[i], q);
  }

  lemma OnePointerMore(s: string, args: seq<nat>, words: seq<string>, a: nat, word: string, q: nat)
    requires PointTo(s, args, words, q) && PointsTo(s, a, word, q)
    ensures PointTo(s, args + [a], words + [word], q)
  {
  }

  lemma FewerTokens(words: seq<string>, word: string, rest: seq<string>)
    ensures words + ([word] + rest) == (words + [word]) + rest
  {
  }

  /** Cuts the command at `p` into its words in place and returns where each of them starts. */
  method ParseCommand(line: array<char>, p: nat, ghost n: nat) returns (args: seq<nat>, ghost words: seq<string>)
    requires CString(line[..], p, n) && |Tokens(line[p..p + n])| < MAX_ARGS_COUNT
    modifies line
    ensures words == Tokens(old(line[p..p + n])) && |args| < MAX_ARGS_COUNT
    ensures PointTo(line[..], args, words, p + n)
    ensures 0 < n && old(line[p]) != ' ' ==> args != [] && args[0] == p
    ensures forall k :: 0 <= k < line.Length && (k < p || p + n <= k) ==> line[k] == old(line[k])
  {
    hide Tokens, PointTo, PointsTo;
    ghost var s, e := line[p..p + n], p + n;
    args, words := [], [];
    var arg, q := -1, p;
    ghost var word;
    arg, q, word := StrTok(line, p, e);
    NoPointers(line[..], q);
    NoPointers(line[..], e);
    if arg != -1 {
      PointsToIt(line[..], arg, word, q);
    }
    while arg != -1
      invariant arg == -1 ==> Tokens(s) == words && PointTo(line[..], args, words, e)
      invariant arg != -1 ==>
                  && 0 <= arg && p <= q && RunsTo(line[..], q, e)
                  && PointTo(line[..], args, words, q) && PointsTo(line[..], arg, word, q)
                  && Tokens(s) == words + ([word] + Tokens(line[q..e]))
      invariant 0 < n && old(line[p]) != ' ' ==> if args == [] then arg == p else args[0] == p
      invariant forall k :: 0 <= k < line.Length && (k < p || e <= k) ==> line[k] == old(line[k])
      decreases if arg == -1 then 0 else e - q + 1
    {
      OnePointerMore(line[..], args, words, arg, word, q);
      FewerTokens(words, word, Tokens(line[q..e]));
      args := args + [arg];
      words := words + [word];
      ghost var before, q0 := line[..], q;
      arg, q, word := StrTok(line, q, e);
      if arg != -1 {
        PointersKept(before, line[..], args, words, q0, q);
        PointsToIt(line[..], arg, word, q);
      } else {
        PointersBefore(line[..], args, words, q0, e);
      }
    }
    PointersBefore(line[..], args, words, e, e);
  }
}
