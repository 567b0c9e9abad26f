/** The Rio buffered reader (csapp.c): whatever way the kernel cuts the input into short reads and
    interrupts them, callers get the same bytes. */
module Rio {
  type byte = b: int | 0 <= b < 256

  const NEWLINE: byte := 10
  const RIO_BUFSIZE: nat := 8192

  /** What the kernel does on one call of read(): interrupt it, fail it, or deliver at most that
      many bytes (and at least one, unless the input is at its end). */
  datatype Outcome = Interrupted | Failed | Short(most: nat)

  /** No call of read() fails for a reason other than a signal. */
  ghost predicate Clean(script: seq<Outcome>) {
    forall i :: 0 <= i < |script| ==> script[i] != Failed
  }

  /** A descriptor: the input still in the kernel and the outcomes of the coming calls.  When the
      script has run out, read() delivers as much as it can. */
  class Descriptor {
    var unread: seq<byte>
    var script: seq<Outcome>

    constructor (input: seq<byte>, script: seq<Outcome>)
      ensures unread == input && this.script == script
    {
      unread := input;
      this.script := script;
    }

    /** read(fd, buf, sizeof(buf)); `eintr` is errno == EINTR after a result of -1. */
    method Read(buf: array<byte>) returns (rc: int, eintr: bool)
      requires buf.Length > 0
      modifies this, buf
      ensures rc >= 0 ==> rc <= buf.Length && rc <= |old(unread)|
      ensures rc >= 0 ==> unread == old(unread)[rc..] && buf[..rc] == old(unread)[..rc]
      ensures rc == 0 <==> old(unread) == [] && (old(script) == [] || old(script)[0].Short?)
      ensures rc < 0 ==> unread == old(unread) && old(script) != [] && old(script)[0] == (if eintr then Interrupted else Failed)
      ensures script == if old(script) == [] then [] else old(script)[1..]
    {
      var most := buf.Length;
      eintr := false;
      if script != [] {
        var o := script[0];
        script := script[1..];
        match o
        case Interrupted => return -1, true;
        case Failed => return -1, false;
        case Short(k) => most := if k < 1 then 1 else if k < buf.Length then k else buf.Length;
      }
      rc := if |unread| < most then |unread| else most;
      var i := 0;
      while i < rc
        invariant 0 <= i <= rc && buf[..i] == unread[..i]
        modifies buf
      {
        buf[i] := unread[i];
        i := i + 1;
      }
      unread := unread[rc..];
    }
  }

  // ---------- What the calls promise ----------

  /** The bytes up to and including the first newline, but no more than `n`. */
  function LineOf(s: seq<byte>, n: nat): (r: seq<byte>)
    ensures r <= s && |r| <= n
    ensures forall i :: 0 <= i < |r| - 1 ==> r[i] != NEWLINE
    ensures |r| == n || r == s || (r != [] && r[|r| - 1] == NEWLINE)
  {
    if n == 0 || s == [] then []
    else if s[0] == NEWLINE then [s[0]]
    else assert s == [s[0]] + s[1..]; [s[0]] + LineOf(s[1..], n - 1)
  }

  /** Where a line ends: at the bound, at the end of the input or behind the first newline. */
  lemma LineEnds(s: seq<byte>, k: nat, n: nat)
    requires k <= n && k <= |s| && forall i :: 0 <= i < k - 1 ==> s[i] != NEWLINE
    requires k == n || k == |s| || (k > 0 && s[k - 1] == NEWLINE)
    ensures LineOf(s, n) == s[..k]
  {
    hide LineOf;
    var r := LineOf(s, n);
    assert forall i :: 0 <= i < |r| ==> r[i] == s[i];
    assert |r| == k;
  }

  lemma SliceOfSlice(b: seq<byte>, pos: nat, cnt: nat, c: nat)
    requires c <= cnt && pos + cnt <= |b|
    ensures b[pos..pos + cnt][..c] == b[pos..pos + c] && b[pos..pos + cnt][c..] == b[pos + c..pos + cnt]
  {
  }

  lemma TakeDrop(a: seq<byte>, b: seq<byte>, c: nat)
    requires c <= |a|
    ensures (a + b)[..c] == a[..c] && (a + b)[c..] == a[c..] + b
  {
  }

  ghost predicate Suffix(t: seq<byte>, s: seq<byte>) { |t| <= |s| && t == s[|s| - |t|..] }

  function Take(s: seq<byte>, n: nat): (r: seq<byte>)
    ensures r <= s && |r| == if n <= |s| then n else |s|
  {
    if n <= |s| then s[..n] else s
  }

  /** The bytes of a line that fit with the terminating 0. */
  function Cap(maxlen: nat): nat { if maxlen == 0 then 0 else maxlen - 1 }

  // ---------- Any mix of calls ----------

  datatype Call = Bytes(n: nat) | Line(maxlen: nat)

  /** What one call must deliver when `s` is all that has not been delivered yet. */
  function Served(s: seq<byte>, c: Call): (r: seq<byte>)
    ensures r <= s
  {
    match c
    case Bytes(n) => Take(s, n)
    case Line(maxlen) => LineOf(s, Cap(maxlen))
  }

  /** `part` is a line, or as much of one as `maxlen` bytes hold with the terminating 0: no newline
      but possibly its last byte, and no reason but room, end of input or a newline to stop. */
  ghost predicate IsLine(part: seq<byte>, s: seq<byte>, maxlen: nat) {
    && part <= s && (part == [] || |part| < maxlen)
    && (forall i :: 0 <= i < |part| - 1 ==> part[i] != NEWLINE)
    && (maxlen <= |part| + 1 || part == s || (part != [] && part[|part| - 1] == NEWLINE))
  }

  /** `part` is what a caller may expect of one call when `s` is still to come. */
  ghost predicate Answers(part: seq<byte>, s: seq<byte>, c: Call) {
    match c
    case Bytes(n) => part <= s && |part| == if n <= |s| then n else |s|
    case Line(maxlen) => IsLine(part, s, maxlen)
  }

  lemma LineIsLine(s: seq<byte>, maxlen: nat)
    ensures IsLine(LineOf(s, Cap(maxlen)), s, maxlen)
  {
    hide LineOf;
  }

  lemma ServedAnswers(s: seq<byte>, c: Call)
    ensures Answers(Served(s, c), s, c)
  {
    hide IsLine;
    if c.Line? { LineIsLine(s, c.maxlen); }
  }

  /** Each call answers from where the calls before it have stopped. */
  ghost predicate AnswersAll(parts: seq<seq<byte>>, s: seq<byte>, calls: seq<Call>) {
    && |parts| == |calls|
    && forall i :: 0 <= i < |calls| ==> AnswersAt(parts, s, calls, i)
  }

  ghost predicate AnswersAt(parts: seq<seq<byte>>, s: seq<byte>, calls: seq<Call>, i: nat)
    requires i < |calls| == |parts|
  {
    var given := |Concat(parts[..i])|;
    given <= |s| && Answers(parts[i], s[given..], calls[i])
  }

  lemma {:induction false} ServeAnswers(s: seq<byte>, calls: seq<Call>)
    ensures AnswersAll(Serve(s, calls), s, calls)
    decreases |calls|
  {
    if calls != [] {
      var r, parts := Served(s, calls[0]), Serve(s, calls);
      var t := s[|r|..];
      ServeAnswers(t, calls[1..]);
      ServedAnswers(s, calls[0]);
      var rest := Serve(t, calls[1..]);
      assert parts == [r] + rest;
      hide Serve, Served, Answers;
      forall i | 0 <= i < |calls| ensures AnswersAt(parts, s, calls, i) {
        if i > 0 {
          assert AnswersAt(rest, t, calls[1..], i - 1);
          assert parts[..i][0] == r && parts[..i][1..] == rest[..i - 1];
          assert t[|Concat(rest[..i - 1])|..] == s[|Concat(parts[..i])|..];
        }
      }
    }
  }

  function Serve(s: seq<byte>, calls: seq<Call>): seq<seq<byte>> {
    if calls == [] then []
    else [Served(s, calls[0])] + Serve(s[|Served(s, calls[0])|..], calls[1..])
  }

  function Left(s: seq<byte>, calls: seq<Call>): seq<byte> {
    if calls == [] then s else Left(s[|Served(s, calls[0])|..], calls[1..])
  }

  lemma ServeStep(s: seq<byte>, calls: seq<Call>, i: nat)
    requires i < |calls|
    ensures Serve(s, calls[i..]) == [Served(s, calls[i])] + Serve(s[|Served(s, calls[i])|..], calls[i + 1..])
    ensures Left(s, calls[i..]) == Left(s[|Served(s, calls[i])|..], calls[i + 1..])
  {
    assert calls[i..][1..] == calls[i + 1..];
  }

  lemma ServeNothing(s: seq<byte>)
    ensures Serve(s, []) == [] && Left(s, []) == s
  {
  }

  function Concat(parts: seq<seq<byte>>): seq<byte> {
    if parts == [] then [] else parts[0] + Concat(parts[1..])
  }

  /** Every byte is delivered once, in order, or still to come. */
  lemma {:induction false} Conserved(s: seq<byte>, calls: seq<Call>)
    ensures Concat(Serve(s, calls)) + Left(s, calls) == s
  {
    if calls != [] {
      var r := Served(s, calls[0]);
      var t := s[|r|..];
      Conserved(t, calls[1..]);
      assert Serve(s, calls)[1..] == Serve(t, calls[1..]);
      hide *;
      assert s == r + t;
    }
  }

  /** A caller that makes as many calls as there are bytes, each with room for one, gets them all. */
  lemma {:induction false} EnoughCalls(s: seq<byte>, calls: seq<Call>)
    requires forall i :: 0 <= i < |calls| ==> calls[i] != Bytes(0) && calls[i] != Line(0) && calls[i] != Line(1)
    requires |s| <= |calls|
    ensures Left(s, calls) == [] && Concat(Serve(s, calls)) == s
    decreases |calls|
  {
    if calls != [] {
      var t := s[|Served(s, calls[0])|..];
      assert s != [] ==> |t| < |s|;
      EnoughCalls(t, calls[1..]);
    }
    Conserved(s, calls);
  }

  class Reader {
    const fd: Descriptor
    const buf: array<byte>
    var cnt: int      // rio_cnt
    var pos: int      // rio_bufptr - rio_buf

    ghost predicate Valid()
      reads this
    {
      buf.Length == RIO_BUFSIZE && 0 <= pos <= buf.Length && pos + cnt <= buf.Length
    }

    /** Everything the caller has not been given yet: what is buffered, then what is unread. */
    ghost function Pending(): seq<byte>
      requires Valid()
      reads this, buf, fd
    {
      (if cnt > 0 then buf[pos..pos + cnt] else []) + fd.unread
    }

    /** rio_readinitb. */
    constructor (fd: Descriptor)
      ensures Valid() && this.fd == fd && fresh(buf) && Pending() == fd.unread
    {
      this.fd := fd;
      buf := new byte[RIO_BUFSIZE];
      cnt := 0;
      pos := 0;
    }

    /** Lines 798-809: refills an empty buffer, however often that is interrupted. */
    method Refill() returns (rc: int)
      requires Valid()
      modifies this, buf, fd
      ensures Valid() && Pending() == old(Pending())
      ensures rc > 0 <==> cnt > 0
      ensures old(cnt) > 0 ==> cnt == old(cnt) && fd.unread == old(fd.unread) && fd.script == old(fd.script)
      ensures rc == 0 ==> Pending() == []
      ensures rc < 0 ==> !Clean(old(fd.script))
      ensures Clean(old(fd.script)) ==> Clean(fd.script)
    {
      while cnt <= 0
        invariant Valid() && Pending() == old(Pending())
        invariant old(cnt) > 0 ==> cnt == old(cnt) && fd.unread == old(fd.unread) && fd.script == old(fd.script)
        invariant Clean(old(fd.script)) ==> Clean(fd.script)
        decreases cnt <= 0, |fd.script|
      {
        ghost var script := fd.script;
        var eintr;
        cnt, eintr := fd.Read(buf);
        if cnt < 0 {
          if !eintr {
            assert script[0] == Failed;
            return -1;
          }
        } else if cnt == 0 {
          return 0;
        } else {
          pos := 0;
        }
      }
      rc := 1;
    }

    /** memcpy(usrbuf + at, rio_bufptr, c). */
    method CopyOut(usrbuf: array<byte>, at: nat, c: nat)
      requires usrbuf != buf && at + c <= usrbuf.Length && 0 <= pos <= pos + c <= buf.Length
      modifies usrbuf
      ensures usrbuf[at..at + c] == buf[..][pos..pos + c]
      ensures forall k :: 0 <= k < usrbuf.Length && !(at <= k < at + c) ==> usrbuf[k] == old(usrbuf[k])
    {
      var i := 0;
      while i < c
        invariant 0 <= i <= c
        invariant forall k :: at <= k < at + i ==> usrbuf[k] == buf[pos + (k - at)]
        invariant forall k :: 0 <= k < usrbuf.Length && !(at <= k < at + i) ==> usrbuf[k] == old(usrbuf[k])
      {
        usrbuf[at + i] := buf[pos + i];
        i := i + 1;
      }
    }

    /** Lines 815-817: gives away the first `c` of the buffered bytes. */
    method GiveOut(usrbuf: array<byte>, at: nat, c: nat)
      requires Valid() && c <= cnt && at + c <= usrbuf.Length && usrbuf != buf
      modifies `cnt, `pos, usrbuf
      ensures Valid() && c <= |old(Pending())| && cnt == old(cnt) - c
      ensures usrbuf[at..at + c] == old(Pending())[..c] && Pending() == old(Pending())[c..]
      ensures forall i :: 0 <= i < usrbuf.Length && !(at <= i < at + c) ==> usrbuf[i] == old(usrbuf[i])
    {
      ghost var bytes := buf[..];
      ghost var held := bytes[pos..pos + cnt];
      assert Pending() == held + fd.unread;
      TakeDrop(held, fd.unread, c);
      SliceOfSlice(bytes, pos, cnt, c);
      CopyOut(usrbuf, at, c);
      assert buf[..] == bytes;
      pos := pos + c;
      cnt := cnt - c;
      assert Pending() == bytes[pos..pos + cnt] + fd.unread;
    }

    /** rio_read (lines 794-819): hands out the next bytes, as many as are buffered and asked for. */
    method Read(usrbuf: array<byte>, at: nat, n: nat) returns (rc: int)
      requires Valid() && n > 0 && at + n <= usrbuf.Length && usrbuf != buf
      modifies this, buf, fd, usrbuf
      ensures Valid()
      ensures rc > 0 ==> rc <= n && rc <= |old(Pending())| && (rc == n || cnt == 0)
      ensures old(cnt) > 0 ==> rc > 0 && fd.unread == old(fd.unread) && fd.script == old(fd.script)
      ensures rc > 0 ==> usrbuf[at..at + rc] == old(Pending())[..rc] && Pending() == old(Pending())[rc..]
      ensures rc == 0 ==> old(Pending()) == [] && Pending() == []
      ensures rc < 0 ==> Pending() == old(Pending()) && !Clean(old(fd.script))
      ensures forall i :: 0 <= i < usrbuf.Length && !(at <= i < at + n) ==> usrbuf[i] == old(usrbuf[i])
      ensures Clean(old(fd.script)) ==> Clean(fd.script)
    {
      hide Clean, Pending;
      rc := Refill();
      if rc > 0 {
        rc := n;
        if cnt < n {
          rc := cnt;
        }
        GiveOut(usrbuf, at, rc);
      }
    }

    /** rio_readnb (lines 838-853): the next `n` bytes, or all there are. */
    method ReadN(usrbuf: array<byte>, n: nat) returns (rc: int)
      requires Valid() && n <= usrbuf.Length && usrbuf != buf
      modifies this, buf, fd, usrbuf
      ensures Valid()
      ensures rc >= 0 ==> rc == (if n <= |old(Pending())| then n else |old(Pending())|)
      ensures rc >= 0 ==> usrbuf[..rc] == old(Pending())[..rc] && Pending() == old(Pending())[rc..]
      ensures forall i :: n <= i < usrbuf.Length ==> usrbuf[i] == old(usrbuf[i])
      ensures rc < 0 ==> rc == -1 && !Clean(old(fd.script)) && Suffix(Pending(), old(Pending()))
      ensures Clean(old(fd.script)) ==> Clean(fd.script)
    {
      hide Clean, Pending, LineOf;
      var nleft := n;
      ghost var pending := Pending();
      var bufp := 0;
      while nleft > 0
        invariant Valid() && 0 <= nleft <= n && bufp == n - nleft <= |pending|
        invariant usrbuf[..bufp] == pending[..bufp] && Pending() == pending[bufp..]
        invariant forall i :: n <= i < usrbuf.Length ==> usrbuf[i] == old(usrbuf[i])
        invariant Clean(old(fd.script)) ==> Clean(fd.script)
        decreases nleft
      {
        ghost var done := usrbuf[..bufp];
        var nread := Read(usrbuf, bufp, nleft);
        if nread < 0 {
          return -1;
        } else if nread == 0 {
          break;
        }
        assert usrbuf[..bufp] == done;
        assert usrbuf[..bufp + nread] == usrbuf[..bufp] + usrbuf[bufp..bufp + nread];
        assert pending[..bufp + nread] == pending[..bufp] + pending[bufp..][..nread];
        nleft := nleft - nread;
        bufp := bufp + nread;
      }
      rc := n - nleft;
    }

    /** rio_read(rp, &c, 1): the next byte. */
    method ReadByte() returns (r: int, c: byte)
      requires Valid()
      modifies this, buf, fd
      ensures Valid() && r <= 1
      ensures r == 1 ==> old(Pending()) != [] && c == old(Pending())[0] && Pending() == old(Pending())[1..]
      ensures r == 0 ==> old(Pending()) == [] && Pending() == []
      ensures r < 0 ==> Pending() == old(Pending()) && !Clean(old(fd.script))
      ensures Clean(old(fd.script)) ==> Clean(fd.script)
    {
      hide Clean, LineOf;
      var cell := new byte[1];
      r := Read(cell, 0, 1);
      c := cell[0];
      if r == 1 {
        assert cell[0..1][0] == old(Pending())[..1][0];
      }
    }

    /** rio_readlineb (lines 860-882): the next line, newline included, cut at maxlen-1 bytes, and
        a terminating 0; at the end of the input, 0 and nothing stored.  With maxlen 0 the 0 goes
        to the first byte all the same, behind the room given. */
    method ReadLine(usrbuf: array<byte>, maxlen: nat) returns (rc: int)
      requires Valid() && maxlen <= usrbuf.Length && 1 <= usrbuf.Length && usrbuf != buf
      modifies this, buf, fd, usrbuf
      ensures Valid()
      ensures rc >= 0 ==> rc == |LineOf(old(Pending()), Cap(maxlen))| && usrbuf[..rc] == LineOf(old(Pending()), Cap(maxlen))
      ensures rc >= 0 ==> IsLine(usrbuf[..rc], old(Pending()), maxlen) && Pending() == old(Pending())[rc..]
      ensures rc > 0 || (rc == 0 && maxlen <= 1) ==> usrbuf[rc] == 0
      ensures rc == 0 && maxlen > 1 ==> usrbuf[..] == old(usrbuf[..])
      ensures forall i :: 1 <= i && maxlen <= i < usrbuf.Length ==> usrbuf[i] == old(usrbuf[i])
      ensures (forall i :: maxlen <= i < usrbuf.Length ==> usrbuf[i] == old(usrbuf[i])) <==> maxlen > 0 || old(usrbuf[0]) == 0
      ensures rc < 0 ==> rc == -1 && !Clean(old(fd.script)) && Suffix(Pending(), old(Pending()))
      ensures Clean(old(fd.script)) ==> Clean(fd.script)
    {
      hide Clean, LineOf, Pending, IsLine;
      ghost var pending := Pending();
      LineIsLine(pending, maxlen);
      var n := 1;
      var bufp := 0;
      while n < maxlen
        invariant Valid() && 1 <= n && (n == 1 || n <= maxlen) && bufp == n - 1 <= |pending|
        invariant usrbuf[..bufp] == pending[..bufp] && Pending() == pending[bufp..]
        invariant n == 1 ==> usrbuf[..] == old(usrbuf[..])
        invariant forall i :: 1 <= i && maxlen <= i < usrbuf.Length ==> usrbuf[i] == old(usrbuf[i])
        invariant forall i :: 0 <= i < bufp ==> pending[i] != NEWLINE
        invariant Clean(old(fd.script)) ==> Clean(fd.script)
      {
        var r, c := ReadByte();
        if r == 1 {
          usrbuf[bufp] := c;
          bufp := bufp + 1;
          if c == NEWLINE {
            n := n + 1;
            break;
          }
        } else if r == 0 {
          if n == 1 {
            LineEnds(pending, 0, Cap(maxlen));
            return 0;
          } else {
            break;
          }
        } else {
          return -1;
        }
        n := n + 1;
      }
      LineEnds(pending, bufp, Cap(maxlen));
      usrbuf[bufp] := 0;
      rc := n - 1;
    }

    method Remaining() returns (buffered: seq<byte>, unread: seq<byte>)
      requires Valid()
      ensures buffered + unread == Pending()
    {
      buffered := if cnt > 0 then buf[pos..pos + cnt] else [];
      unread := fd.unread;
    }

    /** One call, whichever it is. */
    method Answer(c: Call, usrbuf: array<byte>) returns (part: seq<byte>)
      requires Valid() && Clean(fd.script) && usrbuf != buf
      requires match c case Bytes(n) => n <= usrbuf.Length case Line(maxlen) => maxlen <= usrbuf.Length && 1 <= usrbuf.Length
      modifies this, buf, fd, usrbuf
      ensures Valid() && Clean(fd.script)
      ensures part == Served(old(Pending()), c) && Pending() == old(Pending())[|part|..]
    {
      hide Clean, Pending, LineOf, IsLine;
      var rc;
      match c {
        case Bytes(n) => rc := ReadN(usrbuf, n);
        case Line(maxlen) => rc := ReadLine(usrbuf, maxlen);
      }
      part := usrbuf[..rc];
    }
  }

  /** A reader opened on any input, whose reads are cut short and interrupted in any way, answers
      any calls with exactly what Serve says of the input alone, and so each call with the next
      bytes or the next line. */
  method Session(input: seq<byte>, script: seq<Outcome>, calls: seq<Call>, size: nat)
    returns (got: seq<seq<byte>>, buffered: seq<byte>, unread: seq<byte>)
    requires Clean(script)
    requires forall i :: 0 <= i < |calls| ==> match calls[i] case Bytes(n) => n <= size case Line(maxlen) => maxlen <= size && 1 <= size
    ensures got == Serve(input, calls)
    ensures AnswersAll(got, input, calls)
    ensures buffered + unread == Left(input, calls)
    ensures Concat(got) + buffered + unread == input
  {
    hide Serve, Left, Served, Clean, AnswersAll, Reader.Pending;
    var fd := new Descriptor(input, script);
    var r := new Reader(fd);
    var usrbuf := new byte[size];
    got := [];
    var i := 0;
    while i < |calls|
      invariant 0 <= i <= |calls| && |got| == i && r.Valid() && Clean(fd.script)
      invariant got + Serve(r.Pending(), calls[i..]) == Serve(input, calls)
      invariant Left(r.Pending(), calls[i..]) == Left(input, calls)
    {
      ghost var s := r.Pending();
      ServeStep(s, calls, i);
      var part := r.Answer(calls[i], usrbuf);
      got := got + [part];
      i := i + 1;
    }
    ServeNothing(r.Pending());
    assert calls[i..] == [];
    Conserved(input, calls);
    ServeAnswers(input, calls);
    buffered, unread := r.Remaining();
  }
}
