/** Skipping the headers of a request: everything up to and including the first empty line. */
module RequestHeaders {
  import opened RioReaders

  const ROOM := MAXLINE - 1

  /** Reading line by line, cut at the buffer's size, a piece that is just CR LF comes up. */
  ghost predicate EndsSomewhere(s: seq<Byte>)
    decreases |s|
  {
    s != [] &&
    (s[..LineLength(s, ROOM)] == CRLF ||
     (LineLength(s, ROOM) > 0 && EndsSomewhere(s[LineLength(s, ROOM)..])))
  }

  /** How many bytes the reading consumes until then. */
  ghost function Consumed(s: seq<Byte>): (n: nat)
    requires EndsSomewhere(s)
    ensures n <= |s|
    decreases |s|
  {
    var k := LineLength(s, ROOM);
    if s[..k] == CRLF then k else k + Consumed(s[k..])
  }

  /** The same behind the request line, which is read first and cut in the same way. */
  ghost predicate HeadersEnd(s: seq<Byte>) {
    EndsSomewhere(s[LineLength(s, ROOM)..])
  }

  /** How many pieces that takes. */
  ghost function Reads(s: seq<Byte>): (n: nat)
    requires EndsSomewhere(s)
    ensures n > 0
    decreases |s|
  {
    var k := LineLength(s, ROOM);
    if s[..k] == CRLF then 1 else 1 + Reads(s[k..])
  }

  /** `strcmp(buf, "\r\n") == 0`. */
  predicate IsCRLF(buf: seq<Byte>)
    requires |buf| >= 3
  {
    buf[0] == CR && buf[1] == NL && buf[2] == NUL
  }

  /** The comparison of the C strings tells whether the line just read is empty. */
  lemma ComparisonSeesLine(before: seq<Byte>, s: seq<Byte>)
    requires |before| == MAXLINE && s != []
    ensures var k := LineLength(s, ROOM);
            IsCRLF(Patched(before, 0, s[..k])[k := NUL]) <==> s[..k] == CRLF
  {
    LineLengthIsExact(s, ROOM);
    var k := LineLength(s, ROOM);
    var buf := Patched(before, 0, s[..k])[k := NUL];
    assert buf[..k] == s[..k] && buf[k] == NUL;
    assert forall i :: 0 <= i < k ==> buf[i] == s[i];
  }

  /** One `rio_readlineb` into the buffer, which at the end of the stream stays as it is. */
  method ReadPiece(rp: Rio, buf: array<Byte>)
    requires rp.Valid() && NoFailures(rp.fd.events) && buf != rp.buf && buf.Length == MAXLINE
    modifies rp, rp.buf, rp.fd, buf
    ensures rp.Valid() && NoFailures(rp.fd.events)
    ensures old(rp.Undelivered()) == [] ==> rp.Undelivered() == [] && buf[..] == old(buf[..])
    ensures old(rp.Undelivered()) != [] ==>
              var (u, k) := (old(rp.Undelivered()), LineLength(old(rp.Undelivered()), ROOM));
              0 < k <= |u| && rp.Undelivered() == u[k..] && (IsCRLF(buf[..]) <==> u[..k] == CRLF)
  {
    hide Patched, LineLength, Rio.Valid, Rio.Undelivered, IsCRLF;
    ghost var before, u := buf[..], rp.Undelivered();
    LineLengthIsExact(u, ROOM);
    if u != [] {
      ComparisonSeesLine(before, u);
    }
    var n := rp.ReadLineB(buf, MAXLINE);
  }

  /** What a piece means for where the reading ends. */
  lemma NextPiece(s: seq<Byte>, k: nat)
    requires s != [] && 0 < k == LineLength(s, ROOM) <= |s|
    ensures EndsSomewhere(s) <==> s[..k] == CRLF || EndsSomewhere(s[k..])
    ensures s[..k] == CRLF ==> Reads(s) == 1 && Consumed(s) == k
    ensures s[..k] != CRLF && EndsSomewhere(s) ==>
              Reads(s) == 1 + Reads(s[k..]) && s[Consumed(s)..] == s[k..][Consumed(s[k..])..]
  {
    hide LineLength;
  }

  lemma NothingToEnd()
    ensures !EndsSomewhere([])
  {
  }

  /**
   Reads and discards lines until an empty one. On other streams the loop has no end, as the next method
   shows; and the wrapper it calls ends the process when a read fails.
   */
  method ReadHeaders(rp: Rio)
    requires rp.Valid() && NoFailures(rp.fd.events) && EndsSomewhere(rp.Undelivered())
    modifies rp, rp.buf, rp.fd
    ensures rp.Valid() && NoFailures(rp.fd.events)
    ensures rp.Undelivered() == old(rp.Undelivered())[old(Consumed(rp.Undelivered()))..]
  {
    hide LineLength, Rio.Valid, Rio.Undelivered, IsCRLF, EndsSomewhere, Consumed, Reads;
    ghost var u := rp.Undelivered();
    ghost var left := u[Consumed(u)..];
    var buf := new Byte[MAXLINE];
    NothingToEnd();
    NextPiece(u, LineLengthOf(u));
    ReadPiece(rp, buf);
    while !IsCRLF(buf[..])
      invariant rp.Valid() && NoFailures(rp.fd.events)
      invariant if IsCRLF(buf[..]) then rp.Undelivered() == left
                else EndsSomewhere(rp.Undelivered()) && rp.Undelivered()[Consumed(rp.Undelivered())..] == left
      decreases |rp.Undelivered()|
    {
      NextPiece(rp.Undelivered(), LineLengthOf(rp.Undelivered()));
      ReadPiece(rp, buf);
    }
  }

  ghost function LineLengthOf(s: seq<Byte>): (k: nat)
    requires s != []
    ensures 0 < k == LineLength(s, ROOM) <= |s|
  {
    LineLengthIsExact(s, ROOM);
    LineLength(s, ROOM)
  }

  /**
   The same loop, cut off after a number of reads. It has come to its end exactly when a piece that is
   just CR LF comes up and the reads suffice to get there; otherwise it goes on after any number of them.
   The buffer of the source starts out uninitialised; it is taken not to hold an empty line by chance.
   */
  method ReadHeadersFor(rp: Rio, buf: array<Byte>, rounds: nat) returns (ended: bool)
    requires rp.Valid() && NoFailures(rp.fd.events)
    requires buf != rp.buf && buf.Length == MAXLINE && !IsCRLF(buf[..])
    modifies rp, rp.buf, rp.fd, buf
    ensures rp.Valid() && NoFailures(rp.fd.events)
    ensures ended <==> old(EndsSomewhere(rp.Undelivered())) && old(Reads(rp.Undelivered())) <= rounds
    ensures ended ==> rp.Undelivered() == old(rp.Undelivered())[old(Consumed(rp.Undelivered()))..]
  {
    hide LineLength, Rio.Valid, Rio.Undelivered, IsCRLF, EndsSomewhere, Consumed, Reads;
    ghost var u := rp.Undelivered();
    NothingToEnd();
    for i := 0 to rounds
      invariant rp.Valid() && NoFailures(rp.fd.events)
      invariant !IsCRLF(buf[..]) && (EndsSomewhere(u) <==> EndsSomewhere(rp.Undelivered()))
      invariant EndsSomewhere(u) ==>
                  && Reads(u) == i + Reads(rp.Undelivered())
                  && u[Consumed(u)..] == rp.Undelivered()[Consumed(rp.Undelivered())..]
    {
      if rp.Undelivered() != [] {
        NextPiece(rp.Undelivered(), LineLengthOf(rp.Undelivered()));
      }
      ReadPiece(rp, buf);
      if IsCRLF(buf[..]) {
        return true;
      }
    }
    return false;
  }

  // -- Where that is --------------------------------------------------------------------------------

  ghost predicate StartsLine(s: seq<Byte>, q: nat)
    requires q <= |s|
  {
    q == 0 || s[q - 1] == NL
  }

  /** A line starts at `p` and is empty (section 2.1 of RFC 9112). */
  ghost predicate EmptyLineAt(s: seq<Byte>, p: nat) {
    && p + 2 <= |s| && StartsLine(s, p)
    && s[p] == CR && s[p + 1] == NL
  }

  ghost predicate FirstEmptyLineAt(s: seq<Byte>, p: nat) {
    EmptyLineAt(s, p) && forall q: nat :: q < p ==> !EmptyLineAt(s, q)
  }

  ghost predicate NoNewline(s: seq<Byte>, q: nat, e: nat)
    requires q <= e <= |s|
  {
    forall i :: q <= i < e ==> s[i] != NL
  }

  /** A line starts at `q`, and its newline is the last byte before `e`. */
  ghost predicate LineAt(s: seq<Byte>, q: nat, e: nat) {
    q < e <= |s| && StartsLine(s, q) && s[e - 1] == NL && NoNewline(s, q, e - 1)
  }

  /** A line of which the cuts at the buffer's size leave just CR LF in the end. */
  ghost predicate TakenForEmpty(s: seq<Byte>, q: nat, e: nat) {
    LineAt(s, q, e) && e - q >= 2 && (e - q) % ROOM == 2 && s[e - 2] == CR
  }

  /** Such a line that is not empty. */
  ghost predicate LooksEmpty(s: seq<Byte>, q: nat, e: nat) {
    TakenForEmpty(s, q, e) && e - q > 2
  }

  ghost predicate NoneTaken(s: seq<Byte>, at: nat, p: nat) {
    forall q: nat, e: nat :: at < e <= p ==> !TakenForEmpty(s, q, e)
  }

  ghost predicate NoneLooksEmpty(s: seq<Byte>, p: nat) {
    forall q: nat, e: nat :: e <= p ==> !LooksEmpty(s, q, e)
  }

  /** The piece read at `at` stops within the line, at its newline, or at the end of the stream. */
  lemma PieceOfLine(s: seq<Byte>, at: nat) returns (k: nat)
    requires at < |s|
    ensures k == LineLength(s[at..], ROOM) && 0 < k <= |s| - at
    ensures s[at..][..k] == s[at..at + k] && s[at..][k..] == s[at + k..]
    ensures NoNewline(s, at, at + k - 1)
    ensures s[at + k - 1] != NL ==> (k == ROOM || at + k == |s|) && s[at..at + k] != CRLF
  {
    var u := s[at..];
    LineLengthIsExact(u, ROOM);
    k := LineLength(u, ROOM);
    assert forall j :: 0 <= j < k ==> u[j] == s[at + j];
  }

  /** Two lines that end at the same newline start at the same byte. */
  lemma OneLineStart(s: seq<Byte>, q: nat, r: nat, e: nat)
    requires LineAt(s, q, e) && LineAt(s, r, e)
    ensures q == r
  {
  }

  /** A piece without a newline ends no line. */
  lemma CutInside(s: seq<Byte>, at: nat, e: nat, p: nat)
    requires at <= e <= p <= |s| && NoNewline(s, at, e)
    ensures NoneTaken(s, at, p) <==> NoneTaken(s, e, p)
  {
    if NoneTaken(s, e, p) {
      forall r: nat, f: nat | at < f <= p
        ensures !TakenForEmpty(s, r, f)
      {
        if f <= e {
          assert s[f - 1] != NL;
        }
      }
    }
  }

  /** A piece that ends the line from `q` is CR LF exactly if that line is taken for empty; no other line ends in it. */
  lemma CutAtNewline(s: seq<Byte>, q: nat, at: nat, e: nat, p: nat)
    requires q <= at < e <= p <= |s| && LineAt(s, q, e) && e - at <= ROOM && (at - q) % ROOM == 0
    ensures NoneTaken(s, at, p) <==> s[at..e] != CRLF && NoneTaken(s, e, p)
  {
    var k := e - at;
    assert TakenForEmpty(s, q, e) <==> s[at..e] == CRLF by {
      Remainder(at - q, k);
      if k == 2 {
        assert s[at..e][0] == s[e - 2] && s[at..e][1] == NL;
      }
    }
    assert NoneTaken(s, at, p) ==> !TakenForEmpty(s, q, e);
    if !TakenForEmpty(s, q, e) && NoneTaken(s, e, p) {
      forall r: nat, f: nat | at < f <= p
        ensures !TakenForEmpty(s, r, f)
      {
        if f < e {
          assert s[f - 1] != NL;
        } else if f == e && LineAt(s, r, e) {
          OneLineStart(s, q, r, e);
        }
      }
    }
  }

  lemma Remainder(whole: nat, k: nat)
    requires whole % ROOM == 0 && 0 < k <= ROOM
    ensures (whole + k) % ROOM == 2 <==> k == 2
    ensures (whole + k) % ROOM == 0 <==> k == ROOM
  {
  }

  /** What the piece at `at` means for where the reading ends. */
  lemma OneMorePiece(s: seq<Byte>, at: nat, k: nat)
    requires at + k <= |s| && 0 < k == LineLength(s[at..], ROOM) && s[at..][..k] == s[at..at + k]
    ensures EndsSomewhere(s[at..]) <==> s[at..at + k] == CRLF || EndsSomewhere(s[at + k..])
    ensures EndsSomewhere(s[at..]) ==>
              Consumed(s[at..]) == if s[at..at + k] == CRLF then k else k + Consumed(s[at + k..])
  {
    assert s[at..][k..] == s[at + k..];
  }

  // -- When the reading ends ------------------------------------------------------------------------

  lemma {:induction false} EndsFrom(s: seq<Byte>, q: nat, at: nat)
    requires q <= at <= |s| && StartsLine(s, q) && NoNewline(s, q, at) && (at - q) % ROOM == 0
    ensures EndsSomewhere(s[at..]) <==> !NoneTaken(s, at, |s|)
    decreases |s| - at
  {
    hide LineLength, TakenForEmpty, Consumed;
    if at < |s| {
      hide EndsSomewhere, NoneTaken;
      var k := PieceOfLine(s, at);
      var e := at + k;
      OneMorePiece(s, at, k);
      if s[e - 1] == NL {
        CutAtNewline(s, q, at, e, |s|);
        EndsFrom(s, e, e);
      } else {
        CutInside(s, at, e, |s|);
        if e == |s| {
          NothingLeft(s);
        } else {
          Remainder(at - q, k);
          EndsFrom(s, q, e);
        }
      }
    }
  }

  lemma NothingLeft(s: seq<Byte>)
    ensures !EndsSomewhere(s[|s|..]) && NoneTaken(s, |s|, |s|)
  {
  }

  /**
   The skipping comes to an end exactly when some line, up to a CR LF at its end, is empty or one or more
   whole buffers long.
   */
  lemma EndsSomewhereIff(s: seq<Byte>)
    ensures EndsSomewhere(s) <==> exists q: nat, e: nat :: TakenForEmpty(s, q, e)
  {
    EndsFrom(s, 0, 0);
    assert s[0..] == s;
    if q: nat, e: nat :| TakenForEmpty(s, q, e) {
      assert 0 < e <= |s|;
    }
  }

  lemma {:induction false} ConsumedFrom(s: seq<Byte>, q: nat, at: nat)
    requires q <= at <= |s| && StartsLine(s, q) && NoNewline(s, q, at) && (at - q) % ROOM == 0
    requires EndsSomewhere(s[at..])
    ensures var c := at + Consumed(s[at..]); at < c <= |s| && NoneTaken(s, at, c - 1) && !NoneTaken(s, at, c)
    decreases |s| - at
  {
    hide LineLength, TakenForEmpty, Consumed, EndsSomewhere, NoneTaken;
    if at == |s| {
      NothingLeft(s);
    } else {
      var k := PieceOfLine(s, at);
      var e := at + k;
      OneMorePiece(s, at, k);
      CutInside(s, at, e - 1, e - 1);
      NothingBetween(s, e - 1);
      if s[at..e] == CRLF {
        CutAtNewline(s, q, at, e, e);
      } else {
        NothingBetween(s, e);
        if s[e - 1] == NL {
          ConsumedFrom(s, e, e);
          var c := e + Consumed(s[e..]);
          CutAtNewline(s, q, at, e, c - 1);
          CutAtNewline(s, q, at, e, c);
        } else {
          if e == |s| {
            NothingLeft(s);
          }
          Remainder(at - q, k);
          ConsumedFrom(s, q, e);
          var c := e + Consumed(s[e..]);
          CutInside(s, at, e, c - 1);
          CutInside(s, at, e, c);
        }
      }
    }
  }

  lemma NothingBetween(s: seq<Byte>, p: nat)
    ensures NoneTaken(s, p, p)
  {
  }

  /** Wherever the skipping ends, it is right after the first line that is taken for empty. */
  lemma StopsAfterFirstTaken(s: seq<Byte>)
    requires EndsSomewhere(s)
    ensures exists q: nat :: TakenForEmpty(s, q, Consumed(s))
    ensures forall q: nat, e: nat :: TakenForEmpty(s, q, e) ==> Consumed(s) <= e
  {
    ConsumedFrom(s, 0, 0);
    assert s[0..] == s;
    var q: nat, e: nat :| 0 < e <= Consumed(s) && TakenForEmpty(s, q, e);
    assert e == Consumed(s);
  }

  /** For one, it never ends when the stream breaks off after header lines that fit the buffer. */
  lemma BrokenOffNeverEnds(s: seq<Byte>)
    requires forall q: nat, e: nat :: LineAt(s, q, e) ==> e - q <= ROOM && e - q != 2
    ensures !EndsSomewhere(s)
  {
    EndsSomewhereIff(s);
  }

  // -- Where it ends ----------------------------------------------------------------------------------

  /** The reading has come to the empty line. */
  lemma AtEmptyLine(s: seq<Byte>, p: nat)
    requires EmptyLineAt(s, p)
    ensures EndsSomewhere(s[p..]) && Consumed(s[p..]) == 2 && NoneTaken(s, p, p)
  {
    LineLengthStep(s[p..], ROOM, 1);
    assert s[p..][..2] == CRLF;
  }

  /** From `at` on, whole buffers into the line that starts at `q`. */
  lemma {:induction false} StopsFrom(s: seq<Byte>, p: nat, q: nat, at: nat)
    requires EmptyLineAt(s, p) && q <= at <= p && StartsLine(s, q)
    requires NoNewline(s, q, at) && (at - q) % ROOM == 0
    ensures EndsSomewhere(s[at..])
    ensures at + Consumed(s[at..]) == p + 2 <==> NoneTaken(s, at, p)
    decreases p - at
  {
    hide LineLength, NoneTaken, TakenForEmpty, EndsSomewhere, Consumed;
    if at == p {
      AtEmptyLine(s, p);
    } else {
      var k := PieceOfLine(s, at);
      var e := at + k;
      assert e <= p;
      OneMorePiece(s, at, k);
      if s[e - 1] != NL {
        CutInside(s, at, e, p);
        Remainder(at - q, k);
        StopsFrom(s, p, q, e);
      } else {
        CutAtNewline(s, q, at, e, p);
        StopsFrom(s, p, e, e);
      }
    }
  }

  /**
   The reading always comes to an end when there is an empty line, and stops right after the first one
   exactly when no header line before it is, up to a CR LF at its end, one or more whole buffers long.
   */
  lemma StopsAfterFirstEmptyLineIff(s: seq<Byte>, p: nat)
    requires FirstEmptyLineAt(s, p)
    ensures EndsSomewhere(s)
    ensures Consumed(s) == p + 2 <==> NoneLooksEmpty(s, p)
  {
    StopsFrom(s, p, 0, 0);
    assert s[0..] == s;
    forall q: nat, e: nat | e <= p && TakenForEmpty(s, q, e)
      ensures LooksEmpty(s, q, e)
    {
      assert !EmptyLineAt(s, q);
    }
  }

  /** In particular it stops there when every header line, newline included, fits the buffer. */
  lemma StopsAfterFirstEmptyLine(s: seq<Byte>, p: nat)
    requires FirstEmptyLineAt(s, p)
    requires forall q: nat, e: nat :: e <= p && LineAt(s, q, e) ==> e - q <= ROOM
    ensures EndsSomewhere(s) && Consumed(s) == p + 2
  {
    StopsAfterFirstEmptyLineIff(s, p);
  }

  // -- Where it goes wrong ----------------------------------------------------------------------------

  lemma {:induction false} NoNewlineIsCut(s: seq<Byte>, room: nat)
    requires room <= |s| && forall i :: 0 <= i < room ==> s[i] != NL
    ensures LineLength(s, room) == room
  {
    if room > 0 {
      NoNewlineIsCut(s[1..], room - 1);
    }
  }

  /** A header line of exactly the buffer's room, before its CR LF, is taken for the end of the headers. */
  lemma LongLineEndsHeaders(line: seq<Byte>, rest: seq<Byte>)
    requires |line| == 8191 && forall i :: 0 <= i < |line| ==> line[i] != 10 && line[i] != 13
    ensures var s := line + [13, 10] + rest;
            EndsSomewhere(s) && Consumed(s) == 8193 && !EmptyLineAt(s, 8191)
  {
    var s := line + CRLF + rest;
    NoNewlineIsCut(s, ROOM);
    var r := s[ROOM..];
    assert r == CRLF + rest;
    LineLengthStep(r, ROOM, 1);
    assert r[..2] == CRLF;
    assert s[..ROOM][0] != CR;
  }

  // -- Reading a request -----------------------------------------------------------------------------

  /** Each read takes at least a byte. */
  lemma {:induction false} ReadsAreBounded(s: seq<Byte>)
    requires EndsSomewhere(s)
    ensures Reads(s) <= |s|
    decreases |s|
  {
    hide LineLength;
    var k := LineLengthOf(s);
    NextPiece(s, k);
    if s[..k] != CRLF {
      ReadsAreBounded(s[k..]);
    }
  }

  /**
   Headers end exactly when, behind the first piece that is read, the request line, some line is empty or
   comes up as a bare CR LF by the cuts.
   */
  lemma HeadersEndIff(s: seq<Byte>, behind: seq<Byte>)
    requires behind == s[LineLength(s, 8191)..]
    ensures HeadersEnd(s) <==> exists q: nat, e: nat :: TakenForEmpty(behind, q, e)
  {
    hide EndsSomewhere, LineLength;
    EndsSomewhereIff(behind);
  }

  /**
   What `queue_put` reads of a request: the request line, then headers, these cut off after a number of reads. It
   comes to an end within as many reads as there are bytes exactly if the headers end; otherwise never.
   */
  method ReadRequest(rp: Rio, line: array<Byte>, buf: array<Byte>, rounds: nat) returns (ended: bool)
    requires rp.Valid() && NoFailures(rp.fd.events)
    requires line != rp.buf && buf != rp.buf && line != buf && line.Length == MAXLINE == buf.Length
    requires !IsCRLF(buf[..])
    modifies rp, rp.buf, rp.fd, line, buf
    ensures rp.Valid() && NoFailures(rp.fd.events)
    ensures ended ==> old(HeadersEnd(rp.Undelivered()))
    ensures rounds >= |old(rp.Undelivered())| ==> (ended <==> old(HeadersEnd(rp.Undelivered())))
  {
    hide LineLength, Patched, Rio.Valid, Rio.Undelivered, IsCRLF, EndsSomewhere, Reads;
    ghost var u := rp.Undelivered();
    var n := rp.ReadLineB(line, MAXLINE);
    ghost var rest := rp.Undelivered();
    assert rest == u[LineLength(u, ROOM)..];
    ended := ReadHeadersFor(rp, buf, rounds);
    if EndsSomewhere(rest) {
      ReadsAreBounded(rest);
    }
  }

  /** A request that breaks off after its first header line. */
  const BROKEN_OFF: seq<Byte> := [71, 69, 84, 32, 47, 32, 72, 84, 84, 80, 47, 49, 46, 48, 13, 10] + HOST_LINE
  const HOST_LINE: seq<Byte> := [72, 111, 115, 116, 58, 32, 97, 13, 10]

  /** `GET / HTTP/1.0`, `Host: a`, and nothing more. */
  lemma BrokenRequestNeverEnds()
    ensures BROKEN_OFF[14..16] == [13, 10] && BROKEN_OFF[16..] == HOST_LINE
    ensures !HeadersEnd(BROKEN_OFF)
    ensures HeadersEnd(BROKEN_OFF + [13, 10])
  {
    var ended := BROKEN_OFF + [13, 10];
    FirstLineIs16(BROKEN_OFF);
    FirstLineIs16(ended);
    assert BROKEN_OFF[16..] == HOST_LINE;
    BrokenOffNeverEnds(HOST_LINE);
    var rest := ended[16..];
    assert rest == HOST_LINE + CRLF;
    assert EmptyLineAt(rest, 9);
    assert NoNewline(rest, 0, 8);
    assert forall q: nat :: q < 9 ==> !EmptyLineAt(rest, q);
    StopsAfterFirstEmptyLineIff(rest, 9);
  }

  lemma FirstLineIs16(s: seq<Byte>)
    requires |s| > 16 && s[..16] == BROKEN_OFF[..16]
    ensures LineLength(s, ROOM) == 16
  {
    assert forall i :: 0 <= i < 16 ==> s[i] == s[..16][i];
    LineLengthStep(s, ROOM, 15);
  }
}
