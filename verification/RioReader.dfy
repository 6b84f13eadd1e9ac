/**
 The buffered reader of the web server over a descriptor that delivers short reads and interrupts: bytes
 and lines, as consecutive pieces of the source.
 */
module RioReaders {

  newtype Byte = x: int | 0 <= x < 256

  const RIO_BUFSIZE := 8192
  const MAXLINE := 8192

  const NUL: Byte := 0
  const NL: Byte := 10
  const CR: Byte := 13
  const CRLF := [CR, NL]

  datatype Errno = EINTR | OtherError

  // -- The descriptor ------------------------------------------------------------------------------

  /** What the kernel has decided about one `read`: deliver at most so much, be interrupted, or fail. */
  datatype Event = Chunk(limit: nat) | Interrupt | Failure

  ghost predicate NoFailures(events: seq<Event>) {
    forall i :: 0 <= i < |events| ==> !events[i].Failure?
  }

  function Min(x: nat, y: nat): nat {
    if x < y then x else y
  }

  /** `s` with `piece` in place of what was at `at`. */
  ghost function Patched(s: seq<Byte>, at: nat, piece: seq<Byte>): (r: seq<Byte>)
    requires at + |piece| <= |s|
    ensures |r| == |s|
  {
    s[..at] + piece + s[at + |piece|..]
  }

  /** The piece stands at its place, and all around it is as before. */
  lemma PatchedHolds(s: seq<Byte>, at: nat, piece: seq<Byte>)
    requires at + |piece| <= |s|
    ensures var r := Patched(s, at, piece);
            |r| == |s| && r[..at] == s[..at] && r[at..at + |piece|] == piece && r[at + |piece|..] == s[at + |piece|..]
  {
  }

  lemma PatchOneMore(s: seq<Byte>, at: nat, piece: seq<Byte>, b: Byte)
    requires at + |piece| < |s|
    ensures Patched(s, at, piece)[at + |piece| := b] == Patched(s, at, piece + [b])
  {
  }

  lemma PatchNothing(s: seq<Byte>, at: nat)
    requires at <= |s|
    ensures Patched(s, at, []) == s
  {
  }

  class Descriptor {
    var source: seq<Byte>     // what has not been read yet
    var events: seq<Event>    // how the next reads go; once used up, reads are as long as they can be

    constructor (source: seq<Byte>, events: seq<Event>)
      ensures this.source == source && this.events == events
    {
      this.source, this.events := source, events;
    }

    /** The system call: up to `n` bytes into `buf` at `at`, at least one unless the source is used up. */
    method Read(buf: array<Byte>, at: nat, n: nat) returns (r: int, errno: Errno)
      requires 0 < n && at + n <= buf.Length
      modifies this, buf
      ensures |events| == if old(events) == [] then 0 else |old(events)| - 1
      ensures old(NoFailures(events)) ==> NoFailures(events)
      ensures -1 <= r <= n
      ensures r == -1 ==> old(events) != [] && source == old(source) && buf[..] == old(buf[..])
      ensures r == -1 && errno == OtherError ==> old(events)[0].Failure?
      ensures r >= 0 ==> r <= |old(source)| && (r == 0 <==> old(source) == [])
      ensures r >= 0 ==> source == old(source)[r..]
      ensures r >= 0 ==> buf[..] == Patched(old(buf[..]), at, old(source)[..r])
    {
      errno := OtherError;
      var limit := n;
      if events != [] {
        var event := events[0];
        events := events[1..];
        match event {
          case Interrupt => return -1, EINTR;
          case Failure => return -1, OtherError;
          case Chunk(l) => limit := if l == 0 then 1 else l;
        }
      }
      r := Min(n, Min(limit, |source|));
      ghost var before, left := old(buf[..]), events;
      PatchNothing(before, at);
      for i := 0 to r
        invariant source == old(source) && events == left
        invariant buf[..] == Patched(before, at, source[..i])
      {
        PatchOneMore(before, at, source[..i], source[i]);
        buf[at + i] := source[i];
        assert source[..i + 1] == source[..i] + [source[i]];
      }
      source := source[r..];
    }
  }

  /** Taking the first `n` bytes of what is buffered is taking the first `n` bytes of what is to come. */
  lemma SplitPrefix(before: seq<Byte>, buffered: seq<Byte>, rest: seq<Byte>, n: nat)
    requires n <= |buffered|
    ensures (buffered + rest)[..n] == buffered[..n]
    ensures (buffered + rest)[n..] == buffered[n..] + rest
    ensures (before + buffered[..n]) + (buffered[n..] + rest) == before + (buffered + rest)
  {
  }

  method MemCopy(dst: array<Byte>, at: nat, src: array<Byte>, from: nat, n: nat)
    requires dst != src && at + n <= dst.Length && from + n <= src.Length
    modifies dst
    ensures dst[..] == Patched(old(dst[..]), at, src[from..from + n])
  {
    hide Patched;
    PatchNothing(dst[..], at);
    assert src[from..from + 0] == [];
    for i := 0 to n
      invariant dst[..] == Patched(old(dst[..]), at, src[from..from + i])
    {
      PatchOneMore(old(dst[..]), at, src[from..from + i], src[from + i]);
      dst[at + i] := src[from + i];
      assert src[from..from + i + 1] == src[from..from + i] + [src[from + i]];
    }
  }

  // -- Lines -----------------------------------------------------------------------------------------

  /** The bytes up to and including the first newline, at most `room` of them. */
  ghost function LineLength(s: seq<Byte>, room: nat): (k: nat)
    ensures k <= room && k <= |s|
  {
    if s == [] || room == 0 then 0 else if s[0] == NL then 1 else 1 + LineLength(s[1..], room - 1)
  }

  /** The line stops at a newline, at the cut, or at the end of the stream, and holds no other newline. */
  lemma {:induction false} LineLengthIsExact(s: seq<Byte>, room: nat)
    ensures var k := LineLength(s, room);
            && (forall i :: 0 <= i < k - 1 ==> s[i] != NL)
            && (k == room || k == |s| || (k > 0 && s[k - 1] == NL))
            && (k == 0 <==> room == 0 || s == [])
  {
    if s != [] && room > 0 && s[0] != NL {
      LineLengthIsExact(s[1..], room - 1);
    }
  }

  lemma {:induction false} LineLengthStep(s: seq<Byte>, room: nat, i: nat)
    requires i < |s| && i < room
    requires forall j :: 0 <= j < i ==> s[j] != NL
    ensures s[i] == NL ==> LineLength(s, room) == i + 1
    ensures i + 1 == room || i + 1 == |s| ==> LineLength(s, room) == i + 1
  {
    if i > 0 {
      LineLengthStep(s[1..], room - 1, i - 1);
    }
  }

  // -- The reader ----------------------------------------------------------------------------------

  class Rio {
    const fd: Descriptor
    const buf: array<Byte>
    var cnt: int              // unread bytes in the buffer, negative after a failed or interrupted read
    var bufptr: nat           // the next unread byte in the buffer
    ghost const stream: seq<Byte>
    ghost var delivered: seq<Byte>

    ghost function Undelivered(): seq<Byte>
      reads this, buf, fd
    {
      (if cnt > 0 && bufptr + cnt <= buf.Length then buf[bufptr..bufptr + cnt] else []) + fd.source
    }

    /** What was delivered, what is buffered and what the source still holds make up the stream. */
    ghost predicate Valid()
      reads this, buf, fd
    {
      && buf.Length == RIO_BUFSIZE
      && (cnt > 0 ==> bufptr + cnt <= buf.Length)
      && delivered + Undelivered() == stream
    }

    constructor (fd: Descriptor)
      ensures Valid() && this.fd == fd && fresh(buf) && stream == fd.source && delivered == []
      ensures Undelivered() == fd.source
    {
      this.fd, cnt, bufptr := fd, 0, 0;
      buf := new Byte[RIO_BUFSIZE](_ => NUL);
      stream, delivered := fd.source, [];
    }

    /** Reads into the empty buffer until there is something in it, the source is used up or a read fails. */
    method Refill() returns (r: int, errno: Errno)
      requires Valid()
      modifies this`cnt, this`bufptr, buf, fd
      ensures Valid() && Undelivered() == old(Undelivered())
      ensures r == 1 ==> cnt > 0
      ensures r == 0 ==> cnt == 0 && Undelivered() == []
      ensures -1 <= r <= 1 && (r == -1 ==> errno == OtherError && !old(NoFailures(fd.events)))
      ensures old(NoFailures(fd.events)) ==> NoFailures(fd.events)
    {
      errno := OtherError;
      while cnt <= 0
        invariant Valid() && Undelivered() == old(Undelivered())
        invariant old(NoFailures(fd.events)) ==> NoFailures(fd.events)
        decreases |fd.events|, if cnt <= 0 then 1 else 0
      {
        ghost var rest := fd.source;
        cnt, errno := fd.Read(buf, 0, RIO_BUFSIZE);
        if cnt < 0 {
          if errno != EINTR {
            return -1, errno;
          }
        } else if cnt == 0 {
          return 0, errno;
        } else {
          bufptr := 0;
          assert buf[0..cnt] == rest[..cnt];
        }
      }
      return 1, errno;
    }

    /** Delivers what is buffered, up to `n` bytes, reading into the buffer first if that is empty. */
    method Read(usrbuf: array<Byte>, at: nat, n: nat) returns (r: int, errno: Errno)
      requires Valid() && usrbuf != buf && 0 < n && at + n <= usrbuf.Length
      modifies this, buf, fd, usrbuf
      ensures Valid()
      ensures old(NoFailures(fd.events)) ==> NoFailures(fd.events)
      ensures -1 <= r <= n && (r == -1 ==> errno == OtherError && !old(NoFailures(fd.events)))
      ensures r == -1 ==>
                Undelivered() == old(Undelivered()) && usrbuf[..] == old(usrbuf[..]) && delivered == old(delivered)
      ensures r >= 0 ==> r <= |old(Undelivered())| && (r == 0 <==> old(Undelivered()) == [])
      ensures r >= 0 ==> Undelivered() == old(Undelivered())[r..]
      ensures r >= 0 ==> delivered == old(delivered) + old(Undelivered())[..r]
      ensures r >= 0 ==> usrbuf[..] == Patched(old(usrbuf[..]), at, old(Undelivered())[..r])
    {
      hide Patched, Undelivered, Valid;
      r, errno := Refill();
      if r <= 0 {
        PatchNothing(usrbuf[..], at);
        return r, errno;
      }
      r := Deliver(usrbuf, at, n);
    }

    /** Copies out what is in the buffer, which holds something, up to `n` bytes. */
    method Deliver(usrbuf: array<Byte>, at: nat, n: nat) returns (count: nat)
      requires Valid() && cnt > 0 && usrbuf != buf && 0 < n && at + n <= usrbuf.Length
      modifies this`cnt, this`bufptr, this`delivered, usrbuf
      ensures Valid() && 0 < count <= n && count <= |old(Undelivered())|
      ensures Undelivered() == old(Undelivered())[count..]
      ensures delivered == old(delivered) + old(Undelivered())[..count]
      ensures usrbuf[..] == Patched(old(usrbuf[..]), at, old(Undelivered())[..count])
    {
      hide Patched;
      count := if cnt < n then cnt else n;
      ghost var unread := buf[bufptr..bufptr + cnt];
      MemCopy(usrbuf, at, buf, bufptr, count);
      SplitPrefix(delivered, unread, fd.source, count);
      assert buf[bufptr..bufptr + count] == unread[..count];
      delivered := delivered + unread[..count];
      bufptr := bufptr + count;
      cnt := cnt - count;
      assert buf[bufptr..bufptr + cnt] == unread[count..];
    }

    /** Delivers exactly `n` bytes, or all that is left when that is less. */
    method ReadNb(usrbuf: array<Byte>, n: nat) returns (r: int)
      requires Valid() && usrbuf != buf && n <= usrbuf.Length
      modifies this, buf, fd, usrbuf
      ensures Valid()
      ensures old(NoFailures(fd.events)) ==> NoFailures(fd.events) && r >= 0
      ensures r >= 0 ==> r == if n <= |old(Undelivered())| then n else |old(Undelivered())|
      ensures r >= 0 ==> Undelivered() == old(Undelivered())[r..]
      ensures r >= 0 ==> delivered == old(delivered) + old(Undelivered())[..r]
      ensures r >= 0 ==> usrbuf[..] == Patched(old(usrbuf[..]), 0, old(Undelivered())[..r])
    {
      hide Patched, Valid, Undelivered;
      ghost var u, d, before := Undelivered(), delivered, usrbuf[..];
      PatchNothing(before, 0);
      assert u[..0] == [] && u[0..] == u && d + [] == d;
      var nleft, bufp := n, 0;
      while nleft > 0
        invariant 0 <= nleft && bufp == n - nleft && bufp <= |u|
        invariant Valid() && Undelivered() == u[bufp..] && delivered == d + u[..bufp]
        invariant usrbuf[..] == Patched(before, 0, u[..bufp])
        invariant old(NoFailures(fd.events)) ==> NoFailures(fd.events)
      {
        PatchNothing(usrbuf[..], bufp);
        var nread, errno := Read(usrbuf, bufp, nleft);
        if nread < 0 {
          // the reader retries interrupted reads itself, so only other errors get here
          if errno == EINTR {
            nread := 0;
          } else {
            return -1;
          }
        } else if nread == 0 {
          assert u[bufp..][..0] == [];
          break;
        }
        PatchTwice(before, u, bufp, nread);
        assert d + u[..bufp] + u[bufp..bufp + nread] == d + (u[..bufp] + u[bufp..bufp + nread]);
        nleft := nleft - nread;
        bufp := bufp + nread;
      }
      return n - nleft;
    }

    /**
     Delivers a line, cut at `maxlen - 1` bytes, and ends it with NUL. Returns the number of bytes when a
     newline ended it, 0 at the end of the stream (storing nothing), and the number of bytes plus one
     otherwise.
     */
    method ReadLineB(usrbuf: array<Byte>, maxlen: nat) returns (r: int)
      requires Valid() && usrbuf != buf && 0 < usrbuf.Length && maxlen <= usrbuf.Length
      modifies this, buf, fd, usrbuf
      ensures Valid()
      ensures old(NoFailures(fd.events)) ==> NoFailures(fd.events) && r >= 0
      ensures var k := LineLength(old(Undelivered()), if maxlen == 0 then 0 else maxlen - 1);
              r >= 0 ==>
                && Undelivered() == old(Undelivered())[k..]
                && delivered == old(delivered) + old(Undelivered())[..k]
                && if k == 0 && maxlen > 1 then
                     r == 0 && usrbuf[..] == old(usrbuf[..])
                   else
                     && r == (if k > 0 && old(Undelivered())[k - 1] == NL then k else k + 1)
                     && usrbuf[..] == Patched(old(usrbuf[..]), 0, old(Undelivered())[..k])[k := NUL]
    {
      hide Patched, LineLength, Valid, Undelivered;
      ghost var u, d, before := Undelivered(), delivered, usrbuf[..];
      ghost var room := if maxlen == 0 then 0 else maxlen - 1;
      PatchNothing(before, 0);
      LineLengthIsExact(u, room);
      assert u[..0] == [] && u[0..] == u && d + [] == d;
      var c := new Byte[1];
      var n, bufp := 1, 0;
      while n < maxlen
        invariant 1 <= n && bufp == n - 1 && bufp <= room && bufp <= |u|
        invariant Valid() && Undelivered() == u[bufp..] && delivered == d + u[..bufp]
        invariant usrbuf[..] == Patched(before, 0, u[..bufp])
        invariant forall j :: 0 <= j < bufp ==> u[j] != NL
        invariant bufp == room || bufp == |u| ==> LineLength(u, room) == bufp
        invariant old(NoFailures(fd.events)) ==> NoFailures(fd.events)
      {
        var rc, errno := Read(c, 0, 1);
        if rc == 1 {
          PatchByte(before, d, u, bufp);
          LineLengthStep(u, room, bufp);
          CopiedByte(c[..], u[bufp]);
          usrbuf[bufp] := c[0];
          bufp := bufp + 1;
          if c[0] == NL {
            break;
          }
        } else if rc == 0 {
          if n == 1 {
            return 0;
          } else {
            break;
          }
        } else {
          return -1;
        }
        n := n + 1;
      }
      usrbuf[bufp] := NUL;
      return n;
    }
  }

  lemma CopiedByte(c: seq<Byte>, b: Byte)
    requires |c| == 1 && exists s: seq<Byte> :: |s| == 1 && c == Patched(s, 0, [b])
    ensures c[0] == b
  {
  }

  /** One byte of the stream delivered after the first `k`. */
  lemma PatchByte(s: seq<Byte>, d: seq<Byte>, u: seq<Byte>, k: nat)
    requires k < |u| && k < |s|
    ensures u[k..][..1] == [u[k]] && u[k..][1..] == u[k + 1..] && u[..k] + [u[k]] == u[..k + 1]
    ensures d + u[..k] + [u[k]] == d + u[..k + 1]
    ensures Patched(s, 0, u[..k])[k := u[k]] == Patched(s, 0, u[..k + 1])
  {
  }

  /** Two pieces of the stream delivered one after the other are one longer piece. */
  lemma PatchTwice(s: seq<Byte>, u: seq<Byte>, k: nat, n: nat)
    requires k + n <= |u| && k + n <= |s|
    ensures u[k..][..n] == u[k..k + n] && u[k..][n..] == u[k + n..] && u[..k] + u[k..k + n] == u[..k + n]
    ensures Patched(Patched(s, 0, u[..k]), k, u[k..k + n]) == Patched(s, 0, u[..k + n])
  {
  }
}
