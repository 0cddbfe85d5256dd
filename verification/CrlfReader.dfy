/** Lines of a byte stream that end in CR LF, as section 2.3.7 of RFC 2821 has them. */
module CrlfLines {
  type Byte = b: int | 0 <= b < 256 witness 0
  type Bytes = seq<Byte>

  const CR: Byte := 0x0d
  const LF: Byte := 0x0a

  predicate CrlfAt(s: Bytes, i: nat) { i + 1 < |s| && s[i] == CR && s[i + 1] == LF }

  predicate NoCrlf(s: Bytes) { forall i :: 0 <= i < |s| ==> !CrlfAt(s, i) }

  /** The shortest prefix that ends in CR LF has this length; 0 if there is none. */
  function LineLength(s: Bytes): (n: nat)
    ensures n == 0 ==> NoCrlf(s)
    ensures n > 0 ==> 2 <= n <= |s| && CrlfAt(s, n - 2) && forall i :: 0 <= i < n - 2 ==> !CrlfAt(s, i)
  {
    LineLengthFrom(s, 0)
  }

  function LineLengthFrom(s: Bytes, k: nat): (n: nat)
    requires forall i :: 0 <= i < k ==> !CrlfAt(s, i)
    ensures n == 0 ==> NoCrlf(s)
    ensures n > 0 ==> 2 <= n <= |s| && CrlfAt(s, n - 2) && forall i :: 0 <= i < n - 2 ==> !CrlfAt(s, i)
    decreases |s| - k
  {
    if k + 1 >= |s| then 0 else if CrlfAt(s, k) then k + 2 else LineLengthFrom(s, k + 1)
  }

  /** The successive shortest prefixes that end in CR LF, and what is left. */
  function Lines(s: Bytes): seq<Bytes>
    decreases |s|
  {
    var n := LineLength(s);
    if n == 0 then [] else [s[..n]] + Lines(s[n..])
  }

  function Rest(s: Bytes): Bytes
    decreases |s|
  {
    var n := LineLength(s);
    if n == 0 then s else Rest(s[n..])
  }

  function Concat(ls: seq<Bytes>): Bytes {
    if ls == [] then [] else Concat(ls[..|ls| - 1]) + ls[|ls| - 1]
  }

  lemma {:induction false} NoLine(s: Bytes, k: nat)
    requires NoCrlf(s)
    ensures LineLengthFrom(s, k) == 0
    decreases |s| - k
  {
    if k + 1 < |s| { NoLine(s, k + 1); }
  }

  lemma LineLengthIs(s: Bytes, n: nat)
    requires 2 <= n <= |s| && CrlfAt(s, n - 2) && forall i :: 0 <= i < n - 2 ==> !CrlfAt(s, i)
    ensures LineLength(s) == n
  {
    assert !NoCrlf(s);
    var m := LineLength(s);
    assert CrlfAt(s, m - 2);
  }

  /** Taking a line off what is still to come. */
  lemma LineOff(buffered: Bytes, future: Bytes, n: nat)
    requires 2 <= n <= |buffered| && CrlfAt(buffered, n - 2) && forall i :: 0 <= i < n - 2 ==> !CrlfAt(buffered, i)
    ensures Lines(buffered + future) == [buffered[..n]] + Lines(buffered[n..] + future)
    ensures Rest(buffered + future) == Rest(buffered[n..] + future)
  {
    var s := buffered + future;
    forall i | 0 <= i < n - 2 ensures !CrlfAt(s, i) { assert !CrlfAt(buffered, i); }
    LineLengthIs(s, n);
    assert s[..n] == buffered[..n] && s[n..] == buffered[n..] + future;
  }

  lemma Regroup(a: Bytes, b: Bytes, c: Bytes)
    ensures (a + b) + c == a + (b + c)
  {
  }

  /** Nothing but complete lines and a rest. */
  lemma {:induction false} LinesAndRest(s: Bytes)
    ensures Concat(Lines(s)) + Rest(s) == s && NoCrlf(Rest(s))
    decreases |s|
  {
    hide Concat, Lines, Rest, NoCrlf;
    var n := LineLength(s);
    if n == 0 {
      NoLines(s);
    } else {
      OneLine(s);
      LinesAndRest(s[n..]);
      ConcatFirst(s[..n], Lines(s[n..]));
      Regroup(s[..n], Concat(Lines(s[n..])), Rest(s[n..]));
    }
  }

  lemma NoLines(s: Bytes)
    requires LineLength(s) == 0
    ensures Concat(Lines(s)) + Rest(s) == s && NoCrlf(Rest(s))
  {
    assert Concat([]) + s == s;
  }

  lemma OneLine(s: Bytes)
    requires LineLength(s) > 0
    ensures var n := LineLength(s);
      Lines(s) == [s[..n]] + Lines(s[n..]) && Rest(s) == Rest(s[n..]) && s == s[..n] + s[n..]
  {
    hide CrlfAt;
  }

  // ----- a stream put together from lines

  /** Carriage return and line feed are not next to each other. */
  predicate Unbroken(b: Bytes) { forall i :: 0 <= i < |b| - 1 ==> !(b[i] == 13 && b[i + 1] == 10) }

  function Terminated(bodies: seq<Bytes>): seq<Bytes> {
    if bodies == [] then [] else Terminated(bodies[..|bodies| - 1]) + [bodies[|bodies| - 1] + [13, 10]]
  }

  lemma UnbrokenIs(b: Bytes)
    ensures Unbroken(b) <==> NoCrlf(b)
  {
    forall i | 0 <= i < |b| - 1 ensures CrlfAt(b, i) <==> b[i] == 13 && b[i + 1] == 10 {}
  }

  /** The first line is the first body and its terminator. */
  lemma BodyFirst(body: Bytes, more: Bytes)
    requires Unbroken(body)
    ensures var s := body + [13, 10] + more;
      LineLength(s) == |body| + 2 && s[..|body| + 2] == body + [13, 10] && s[|body| + 2..] == more
  {
    var s := body + [13, 10] + more;
    forall i | 0 <= i < |body| ensures !CrlfAt(s, i) {
      if i + 1 < |body| { assert s[i] == body[i] && s[i + 1] == body[i + 1]; }
    }
    assert CrlfAt(s, |body|);
    LineLengthIs(s, |body| + 2);
  }

  /** Bodies without CR LF, each with CR LF behind it, and a rest without: these are the lines. */
  lemma {:induction false} LinesOfBodies(bodies: seq<Bytes>, rest: Bytes)
    requires Unbroken(rest) && forall k :: 0 <= k < |bodies| ==> Unbroken(bodies[k])
    ensures var s := Concat(Terminated(bodies)) + rest;
      Lines(s) == Terminated(bodies) && Rest(s) == rest
    decreases |bodies|
  {
    if bodies == [] {
      assert Concat(Terminated(bodies)) + rest == rest;
      UnbrokenIs(rest);
      NoLine(rest, 0);
    } else {
      var l, more := bodies[0] + [13, 10], Concat(Terminated(bodies[1..])) + rest;
      FirstTerminated(bodies);
      ConcatFirst(l, Terminated(bodies[1..]));
      assert Concat(Terminated(bodies)) + rest == bodies[0] + [13, 10] + more;
      BodyFirst(bodies[0], more);
      LinesOfBodies(bodies[1..], rest);
    }
  }

  lemma {:induction false} FirstTerminated(bodies: seq<Bytes>)
    requires bodies != []
    ensures Terminated(bodies) == [bodies[0] + [13, 10]] + Terminated(bodies[1..])
    decreases |bodies|
  {
    if |bodies| == 1 {
      assert bodies[..0] == [] && bodies[1..] == [];
    } else {
      var front := bodies[..|bodies| - 1];
      FirstTerminated(front);
      assert front[1..] == bodies[1..][..|bodies| - 2];
    }
  }

  lemma {:induction false} ConcatFirst(l: Bytes, ls: seq<Bytes>)
    ensures Concat([l] + ls) == l + Concat(ls)
    decreases |ls|
  {
    if ls == [] {
      assert ([l] + ls)[..0] == [];
    } else {
      var front, last := ls[..|ls| - 1], ls[|ls| - 1];
      ConcatFirst(l, front);
      assert ([l] + ls)[..|ls|] == [l] + front;
      Regroup(l, Concat(front), last);
    }
  }
}

/** libdank/objects/crlfreader.c over a socket that hands out the stream in any pieces. */
module CrlfReaders {
  import opened CrlfLines

  /** What one read() does: up to n bytes, EAGAIN, EINTR, or some other error.  A script that has
      run out says EAGAIN; a stream that has run out reads as 0 bytes. */
  datatype Event = Give(n: nat) | Again | Interrupted | Failed
  datatype ReadResult = Got(n: nat) | Error(e: Event)

  class Socket {
    ghost const stream: Bytes
    var sent: nat
    var wire: Bytes
    var script: seq<Event>
    /** How often it has been read, and what the last time gave. */
    ghost var asked: nat
    ghost var said: ReadResult

    ghost predicate Valid() reads this { sent <= |stream| && wire == stream[sent..] }

    /** The script gives data for as long as there are any, and then their end. */
    ghost predicate Willing() reads this {
      |script| + sent > |stream| && forall i :: 0 <= i < |script| ==> script[i].Give?
    }

    constructor (stream: Bytes, script: seq<Event>)
      ensures Valid() && this.stream == stream && sent == 0 && this.script == script
    {
      this.stream, sent, wire, this.script := stream, 0, stream, script;
      asked, said := 0, Got(0);
    }

    /** n bytes go from the wire to buf + at. */
    method Deliver(buf: array<Byte>, at: nat, n: nat)
      requires Valid() && at + n <= buf.Length && n <= |wire|
      modifies this`sent, this`wire, buf
      ensures Valid() && sent == old(sent) + n
      ensures buf[..at] == old(buf[..at]) && buf[at + n..] == old(buf[at + n..])
      ensures buf[at..at + n] == stream[old(sent)..sent]
    {
      forall k | at <= k < at + n { buf[k] := wire[k - at]; }
      assert buf[at..at + n] == wire[..n];
      SplitWire(stream, sent, n);
      wire := wire[n..];
      sent := sent + n;
    }

    static lemma SplitWire(stream: Bytes, sent: nat, n: nat)
      requires sent + n <= |stream|
      ensures stream[sent..][..n] == stream[sent..sent + n] && stream[sent..][n..] == stream[sent + n..]
    {
    }

    static lemma Further(was: Bytes, now: Bytes, i: nat, j: nat)
      requires i <= j <= |was| == |now| && now[i..] == was[i..]
      ensures now[j..] == was[j..]
    {
      assert now[j..] == now[i..][j - i..] && was[j..] == was[i..][j - i..];
    }

    /** read(sd, buf + at, len) */
    method Read(buf: array<Byte>, at: nat, len: nat) returns (r: ReadResult)
      requires Valid() && at + len <= buf.Length && len > 0
      modifies this, buf
      ensures Valid() && |script| <= |old(script)|
      ensures asked == old(asked) + 1 && said == r
      ensures old(Willing()) && sent <= |stream| ==> r.Got? && (r.n > 0 ==> Willing())
      ensures buf[..at] == old(buf[..at]) && buf[at + len..] == old(buf[at + len..])
      ensures match r
        case Got(n) =>
          n <= len && sent == old(sent) + n && sent <= |stream| && buf[at..at + n] == stream[old(sent)..sent]
          && (n == 0 ==> sent == |stream|)
        case Error(e) =>
          !e.Give? && sent == old(sent) && buf[..] == old(buf[..])
          && (e.Interrupted? ==> |script| < |old(script)|)
    {
      var e := if script == [] then Again else script[0];
      script := if script == [] then [] else script[1..];
      asked := asked + 1;
      if !e.Give? {
        said := Error(e);
        return Error(e);
      }
      var n := if e.n == 0 then 1 else e.n;
      n := if n < len then n else len;
      n := if n < |wire| then n else |wire|;
      ghost var was := buf[..];
      Deliver(buf, at, n);
      assert buf[at + n..] == buf[..][at + n..] && was[at + n..] == old(buf[at + n..]);
      Further(was, buf[..], at + n, at + len);
      assert buf[..][at + len..] == buf[at + len..];
      said := Got(n);
      return Got(n);
    }
  }

  datatype Result = SUCCESS | SHORTLINE | LONGLINE | MOREDATA | EOF | NBLOCK | SYSERR

  const MAX_LINE_SIZE: nat := 0x100000

  /** What a full buffer grows to; None if it is not allowed to grow. */
  function Grown(total: nat): (r: nat)
    ensures total >= MAX_LINE_SIZE ==> r == total
    ensures total < MAX_LINE_SIZE ==> total < r <= MAX_LINE_SIZE
  {
    if total >= MAX_LINE_SIZE then total
    else if total + 8192 > MAX_LINE_SIZE then MAX_LINE_SIZE else total + 8192
  }

  class CrlfReader {
    /** total is buf.Length. */
    var buf: array<Byte>
    var count: nat
    var base: nat
    var examined: nat
    var eof: bool
    var readreq: bool
    /** The line last returned. */
    var iv: Bytes
    /** All lines returned so far, and the socket that they come from. */
    ghost var returned: seq<Bytes>
    ghost const sd: Socket

    ghost function Buffered(): Bytes
      reads this, buf
      requires base + count <= buf.Length
    {
      buf[base..base + count]
    }

    ghost predicate Valid() reads this, buf, sd {
      && base + count <= buf.Length && examined <= count && sd.Valid()
      && Accounts(sd.stream, sd.sent, returned, Buffered(), examined)
      && (eof ==> sd.sent == |sd.stream| && examined == count < buf.Length)
      && LastLine(returned, iv)
    }

    /** As long as a line, or data without CR LF, can get. */
    ghost function Limit(): nat reads this { if buf.Length > MAX_LINE_SIZE then buf.Length else MAX_LINE_SIZE }

    /** init_crlf_reader gives total 8192; setup_crlf_reader takes any buffer. */
    constructor (total: nat, ghost sd: Socket)
      requires sd.Valid() && sd.sent == 0
      ensures Valid() && returned == [] && this.sd == sd && fresh(buf) && buf.Length == total && !eof && count == 0
    {
      buf := new Byte[total];
      count, base, examined, eof, readreq, iv := 0, 0, 0, false, false, [];
      returned := [];
      this.sd := sd;
      AccountsForNothing(sd.stream);
    }

    /** The larger buffer of grow_buf; false if the line may not grow. */
    method GrowBuf() returns (ok: bool)
      requires base + count <= buf.Length
      modifies this`buf
      ensures base + count <= buf.Length && Buffered() == old(Buffered())
      ensures ok == (old(buf.Length) < 0x100000) && buf.Length == Grown(old(buf.Length))
      ensures ok ==> buf.Length == if old(buf.Length) + 8192 < 0x100000 then old(buf.Length) + 8192 else 0x100000
      ensures if ok then fresh(buf) else buf == old(buf)
    {
      if buf.Length >= MAX_LINE_SIZE { return false; }
      var heap := buf.Length + 8192;
      if heap > MAX_LINE_SIZE { heap := MAX_LINE_SIZE; }
      var tmp := new Byte[heap];
      forall k | 0 <= k < buf.Length { tmp[k] := buf[k]; }
      buf := tmp;
      return true;
    }

    /** Moves what is buffered to the front. */
    method Shift()
      requires base + count <= buf.Length
      modifies this`base, buf
      ensures base == 0 && Buffered() == old(Buffered())
    {
      if base > 0 && count > 0 {
        forall k | 0 <= k < count { buf[k] := buf[base + k]; }
      }
      base := 0;
    }

    /** Room for at least one more byte behind what is buffered, which moves to the front. */
    method MakeRoom() returns (ok: bool)
      requires base + count <= buf.Length
      modifies this`buf, this`base, buf
      ensures base + count <= buf.Length && Buffered() == old(Buffered()) && (buf == old(buf) || fresh(buf))
      ensures Limit() == old(Limit())
      ensures ok ==> base == 0 && count < buf.Length
      ensures !ok ==> count == buf.Length >= MAX_LINE_SIZE
    {
      if count == buf.Length {
        ok := GrowBuf();
        if !ok { return false; }
      }
      Shift();
      return true;
    }

    method ReadCrData(s: Socket) returns (res: Result)
      requires Valid() && s == sd && examined == count
      modifies this, buf, s
      ensures Valid() && (buf == old(buf) || fresh(buf))
      ensures returned == old(returned) && iv == old(iv) && examined == old(examined) && Limit() == old(Limit())
      ensures Explains(res, old(s.asked), s.asked, s.said) && (s.asked == old(s.asked) ==> s.said == old(s.said))
      ensures old(s.Willing()) ==> !res.NBLOCK? && !res.SYSERR? && (res.SUCCESS? ==> s.Willing())
      ensures match res
        case SUCCESS => sd.sent > old(sd.sent) && count > old(count) && !eof
        case EOF => eof && sd.sent == old(sd.sent)
        case LONGLINE => sd.sent == old(sd.sent) && count == buf.Length >= MAX_LINE_SIZE
        case NBLOCK => sd.sent == old(sd.sent)
        case SYSERR => sd.sent == old(sd.sent)
        case _ => false
      ensures !res.SUCCESS? ==> Buffered() == old(Buffered())
    {
      hide Accounts;
      if eof { return EOF; }
      var ok := MakeRoom();
      if !ok { return LONGLINE; }
      res := Receive(s);
    }

    method Receive(s: Socket) returns (res: Result)
      requires Valid() && s == sd && examined == count && base == 0 && count < buf.Length && !eof
      modifies this`eof, this`count, this`readreq, buf, s
      ensures Valid() && Explains(res, old(s.asked), s.asked, s.said) && s.asked > old(s.asked)
      ensures old(s.Willing()) ==> !res.NBLOCK? && !res.SYSERR? && (res.SUCCESS? ==> s.Willing())
      ensures match res
        case SUCCESS => sd.sent > old(sd.sent) && count > old(count) && !eof
        case EOF => eof && sd.sent == old(sd.sent)
        case NBLOCK => sd.sent == old(sd.sent) && !eof
        case SYSERR => sd.sent == old(sd.sent) && !eof
        case _ => false
      ensures !res.SUCCESS? ==> Buffered() == old(Buffered())
    {
      hide Accounts, LastLine;
      ghost var was := Buffered();
      var r := ReadRetrying(s);
      assert buf[0..count] == was;
      if r.Error? { return if r.e.Again? then NBLOCK else SYSERR; }
      if r.n == 0 {
        eof := true;
        return EOF;
      }
      Accept(r.n, old(sd.sent));
      return SUCCESS;
    }

    /** n bytes have arrived behind those buffered. */
    method Accept(n: nat, ghost sent: nat)
      requires base == 0 && count + n <= buf.Length && 0 < n && examined <= count && sd.Valid() && !eof
      requires sent <= sd.sent && buf[count..count + n] == sd.stream[sent..sd.sent]
      requires Accounts(sd.stream, sent, returned, Buffered(), examined)
      requires LastLine(returned, iv)
      modifies this`count, this`readreq
      ensures Valid() && count == old(count) + n
    {
      hide Accounts;
      ghost var more := Buffered() + sd.stream[sent..sd.sent];
      MoreAccounts(sd.stream, sent, sd.sent, returned, Buffered(), examined);
      Adjoin(buf, count, n);
      readreq := n == buf.Length - count;
      count := count + n;
      assert Buffered() == more;
    }

    /** What one read() did, after sent bytes, to the n bytes behind those buffered. */
    ghost predicate Received(s: Socket, sent: nat, r: ReadResult)
      reads this, buf, s
    {
      match r
      case Got(n) =>
        count + n <= buf.Length && s.sent == sent + n && s.sent <= |s.stream|
        && buf[count..count + n] == s.stream[sent..s.sent] && (n == 0 ==> s.sent == |s.stream|)
      case Error(e) => !e.Give? && s.sent == sent
    }

    /** read() at the end of what is buffered, again after every EINTR. */
    method ReadRetrying(s: Socket) returns (r: ReadResult)
      requires base == 0 && count < buf.Length && s.Valid()
      modifies buf, s
      ensures s.Valid() && buf[..count] == old(buf[..count]) && Received(s, old(s.sent), r)
      ensures !(r.Error? && r.e.Interrupted?) && s.said == r && s.asked > old(s.asked)
      ensures old(s.Willing()) ==> r.Got? && (r.n > 0 ==> s.Willing())
    {
      r := s.Read(buf, count, buf.Length - count);
      while r.Error? && r.e.Interrupted?
        invariant s.Valid() && buf[..count] == old(buf[..count]) && Received(s, old(s.sent), r)
        invariant s.said == r && s.asked > old(s.asked)
        invariant old(s.Willing()) ==> r.Got? && (r.n > 0 ==> s.Willing())
        decreases |s.script| + if r.Error? && r.e.Interrupted? then 1 else 0
      {
        r := s.Read(buf, count, buf.Length - count);
      }
    }

    /** strnchr for LF among the bytes that have not been examined. */
    method FindLinefeed() returns (at: int)
      requires base + count <= buf.Length && examined <= count
      ensures -1 <= at < count
      ensures at < 0 ==> forall k :: examined <= k < count ==> Buffered()[k] != LF
      ensures at >= 0 ==> examined <= at && Buffered()[at] == LF && forall k :: examined <= k < at ==> Buffered()[k] != LF
    {
      at := examined;
      while at < count
        invariant examined <= at <= count
        invariant forall k :: examined <= k < at ==> Buffered()[k] != LF
      {
        if buf[base + at] == LF {
          assert Buffered()[at] == LF;
          return;
        }
        assert Buffered()[at] != LF;
        at := at + 1;
      }
      return -1;
    }

    method Cut(n: nat)
      requires base + count <= buf.Length && n <= count
      modifies this`iv, this`count, this`base, this`examined, this`returned
      ensures base + count <= buf.Length && examined == 0 && count == old(count) - n && returned == old(returned) + [iv]
      ensures iv == old(Buffered())[..n] && Buffered() == old(Buffered())[n..]
    {
      TakeOff(buf, base, count, n);
      iv := buf[base..base + n];
      returned := returned + [iv];
      count, base, examined := count - n, base + n, 0;
    }

    /** The first n bytes buffered are a line: copied to iv and taken off. */
    method TakeLine(n: nat) returns (res: Result)
      requires Valid() && n <= count && IsLine(Buffered(), n)
      modifies this
      ensures Valid() && buf == old(buf) && !eof
      ensures iv == old(Buffered())[..n] && returned == old(returned) + [iv] && Buffered() == old(Buffered())[n..]
      ensures res == if count > 0 then MOREDATA else SUCCESS
    {
      LineNotExamined(Buffered(), examined, n);
      hide Accounts, IsLine, CrlfAt, Concat, Lines, Rest;
      LineAccounts(sd.stream, sd.sent, returned, Buffered(), examined, n);
      LineAlone(Buffered(), n);
      Cut(n);
      return if count > 0 || eof then MOREDATA else SUCCESS;
    }

    /** One search for LF: the length of a line, or 0 and something more has been examined. */
    method FindLine() returns (n: nat)
      requires base + count <= buf.Length && Examined(Buffered(), examined) && examined < count
      modifies this`examined
      ensures Examined(Buffered(), examined) && n <= count
      ensures if n > 0 then IsLine(Buffered(), n) && examined == old(examined) else examined > old(examined)
    {
      var at := FindLinefeed();
      if at < 0 {
        NothingFound(Buffered(), examined, count);
        examined := count;
      } else if examined == 0 && at == 0 {
        NothingFound(Buffered(), 0, 1);
        examined := 1;
      } else if buf[base + at - 1] != CR {
        assert Buffered()[at - 1] != CR;
        NothingFound(Buffered(), examined, at + 1);
        examined := at + 1;
      } else {
        assert Buffered()[at - 1] == CR;
        NothingFound(Buffered(), examined, at);
        return at + 1;
      }
      return 0;
    }

    method Examine() returns (n: nat)
      requires Valid() && !eof && examined < count
      modifies this`examined
      ensures Valid() && n <= count
      ensures if n > 0 then IsLine(Buffered(), n) else examined > old(examined)
    {
      hide LastLine, IsLine, Lines, Rest, Concat, CrlfAt;
      n := FindLine();
      Reexamined(sd.stream, sd.sent, returned, Buffered(), old(examined), examined);
    }

    /** More bytes, or the result with which the call ends. */
    method Fetch(s: Socket) returns (res: Result)
      requires Valid() && s == sd && examined == count
      modifies this, buf, s
      ensures Valid() && (buf == old(buf) || fresh(buf)) && returned == old(returned)
      ensures iv == old(iv) && Limit() == old(Limit())
      ensures Explains(res, old(s.asked), s.asked, s.said) && (s.asked == old(s.asked) ==> s.said == old(s.said))
      ensures old(s.Willing()) ==> !res.NBLOCK? && !res.SYSERR? && (res.SUCCESS? ==> s.Willing())
      ensures if res.SUCCESS? then sd.sent > old(sd.sent) && examined < count && !eof else NoCrlf(Buffered()) && !res.MOREDATA?
      ensures res.LONGLINE? ==> count == buf.Length >= MAX_LINE_SIZE
      ensures res.EOF? || res.SHORTLINE? ==>
        eof && returned == Lines(sd.stream) && Buffered() == Rest(sd.stream) && (res.EOF? <==> Rest(sd.stream) == [])
    {
      AllExamined(Buffered());
      res := ReadCrData(s);
      if res.EOF? {
        AtTheEnd(sd.stream, sd.sent, returned, Buffered(), examined);
        if count > 0 { return SHORTLINE; }
      }
    }

    /** read_crlf_line.  However the stream comes in, Valid() says that the lines returned are the
        first lines of the stream and that no byte is lost.  Where the socket does not stop it, the
        bytes that follow those lines decide: the next line is returned if it fits in the limit, and
        data that reach the limit without CR LF are a LONGLINE.  iv is the line if there is one and
        is otherwise left alone, so that after a LONGLINE it is never the data read. */
    method ReadCrlfLine(s: Socket) returns (res: Result)
      requires Valid() && s == sd
      modifies this, buf, s
      ensures Valid() && (buf == old(buf) || fresh(buf)) && Limit() == old(Limit())
      ensures if res.SUCCESS? || res.MOREDATA? then returned == old(returned) + [iv] && (res.SUCCESS? <==> count == 0)
              else returned == old(returned) && iv == old(iv) && NoCrlf(Buffered())
      ensures res.LONGLINE? ==> count == buf.Length >= MAX_LINE_SIZE && iv != Buffered()
      ensures res.EOF? || res.SHORTLINE? ==>
        eof && returned == Lines(sd.stream) && Buffered() == Rest(sd.stream) && (res.EOF? <==> Rest(sd.stream) == [])
      ensures Decided(res, Unread(sd.stream, old(returned)), Limit(), iv)
      ensures Explains(res, old(s.asked), s.asked, s.said)
      ensures old(s.Willing()) ==> !res.NBLOCK? && !res.SYSERR? && (res.SUCCESS? || res.MOREDATA? ==> s.Willing())
    {
      hide Accounts, LastLine, IsLine, NoCrlf, Decided, Unread, Lines, Rest, Explains;
      while true
        invariant Valid() && returned == old(returned) && iv == old(iv) && (buf == old(buf) || fresh(buf))
        invariant Limit() == old(Limit()) && (old(s.Willing()) ==> s.Willing())
        invariant s.asked >= old(s.asked) && (s.asked > old(s.asked) ==> s.said.Got?)
        decreases |sd.stream| - sd.sent, count - examined
      {
        if examined == count {
          ghost var asked, said := s.asked, s.said;
          res := Fetch(s);
          ExplainsAll(res, old(s.asked), asked, said, s.asked, s.said);
          if !res.SUCCESS? {
            NoLineDecided(sd.stream, sd.sent, returned, Buffered(), examined, res, Limit(), iv);
            return;
          }
        }
        var n := Examine();
        if n > 0 {
          LineDecided(sd.stream, sd.sent, returned, Buffered(), examined, n, Limit());
          res := TakeLine(n);
          ExplainsAll(res, old(s.asked), s.asked, s.said, s.asked, s.said);
          return;
        }
      }
    }
  }

  /** NBLOCK is the answer exactly if the last read() of the call said EAGAIN, SYSERR if it failed;
      after any other answer it gave data or their end. */
  predicate Explains(res: Result, before: nat, after: nat, said: ReadResult) {
    && before <= after
    && (res.NBLOCK? <==> before < after && said == Error(Again))
    && (res.SYSERR? <==> before < after && said == Error(Failed))
    && (before < after && !res.NBLOCK? && !res.SYSERR? ==> said.Got?)
  }

  /** Reads that gave data before the last step explain nothing else. */
  lemma ExplainsAll(res: Result, first: nat, before: nat, saidBefore: ReadResult, after: nat, said: ReadResult)
    requires first <= before && (before > first ==> saidBefore.Got?) && (after == before ==> said == saidBefore)
    requires Explains(res, before, after, said) || (before == after && !res.NBLOCK? && !res.SYSERR?)
    ensures Explains(res, first, after, said)
    ensures res.SUCCESS? && after > first ==> said.Got?
  {
  }

  /** What one call makes of the bytes that no line has been made of yet. */
  predicate Decided(res: Result, unread: Bytes, limit: nat, iv: Bytes) {
    var n := LineLength(unread);
    match res
    case SUCCESS => 0 < n <= limit && iv == unread[..n]
    case MOREDATA => 0 < n <= limit && iv == unread[..n]
    case LONGLINE => |unread| >= limit && (n == 0 || n > limit)
    case EOF => unread == []
    case SHORTLINE => n == 0 && 0 < |unread| < limit
    case _ => true
  }

  /** The header wants the data in iv after a LONGLINE; over a socket that always gives data, the
      first call on a new reader is one, and leaves iv empty, exactly for a stream without CR LF
      in its first 0x100000 bytes that has as many. */
  method FirstCall(stream: Bytes) returns (res: Result, iv: Bytes)
    ensures var n := LineLength(stream);
      if 0 < n <= 0x100000 then
        iv == stream[..n] && (res.SUCCESS? || res.MOREDATA?)
      else
        iv == [] && res == if |stream| >= 0x100000 then LONGLINE else if stream == [] then EOF else SHORTLINE
  {
    var sd := new Socket(stream, seq(|stream| + 1, i => Give(1)));
    var cr := new CrlfReader(8192, sd);
    assert Unread(stream, []) == stream;
    res := cr.ReadCrlfLine(sd);
    iv := cr.iv;
  }

  lemma NoBodies(bodies: seq<Bytes>)
    ensures Terminated(bodies[..0]) == []
  {
  }

  /** A socket that gives data reads all lines of a stream put together from them, whatever pieces
      script cuts it into, and says at the end whether there was a rest. */
  method ReadAll(bodies: seq<Bytes>, rest: Bytes, pieces: seq<nat>) returns (lines: seq<Bytes>, last: Result)
    requires Unbroken(rest) && |rest| < 0x100000
    requires forall k :: 0 <= k < |bodies| ==> Unbroken(bodies[k]) && |bodies[k]| + 2 <= 0x100000
    requires |pieces| > |Concat(Terminated(bodies)) + rest|
    ensures lines == Terminated(bodies) && last == if rest == [] then EOF else SHORTLINE
  {
    ghost var stream := Concat(Terminated(bodies)) + rest;
    hide Decided, Explains, Lines, Rest, Unread, Terminated, Concat, Accounts, LastLine, Unbroken;
    LinesOfBodies(bodies, rest);
    NoBodies(bodies);
    var sd := new Socket(Concat(Terminated(bodies)) + rest, seq(|pieces|, i requires 0 <= i < |pieces| => Give(pieces[i])));
    var cr := new CrlfReader(8192, sd);
    lines, last := [], SUCCESS;
    while last.SUCCESS? || last.MOREDATA?
      invariant fresh(cr) && fresh(cr.buf) && fresh(sd) && cr.sd == sd && sd.stream == stream
      invariant cr.Valid() && cr.Limit() == 0x100000 && cr.returned == lines && |lines| <= |bodies|
      invariant lines == Terminated(bodies[..|lines|])
      invariant if last.SUCCESS? || last.MOREDATA? then sd.Willing()
                else lines == Terminated(bodies) && last == if rest == [] then EOF else SHORTLINE
      decreases |bodies| - |lines|, if last.SUCCESS? || last.MOREDATA? then 1 else 0
    {
      ghost var k := |lines|;
      UnreadBodies(bodies, rest, k);
      last := cr.ReadCrlfLine(sd);
      NextOfBodies(bodies, rest, k, last, cr.iv);
      if last.SUCCESS? || last.MOREDATA? { lines := lines + [cr.iv]; }
    }
  }

  lemma UnreadBodies(bodies: seq<Bytes>, rest: Bytes, k: nat)
    requires k <= |bodies|
    ensures Unread(Concat(Terminated(bodies)) + rest, Terminated(bodies[..k])) == Concat(Terminated(bodies[k..])) + rest
  {
    hide Concat, Terminated;
    TerminatedSplits(bodies, k);
    var a, b := Concat(Terminated(bodies[..k])), Concat(Terminated(bodies[k..]));
    Regroup(a, b, rest);
    FrontOff(a, b + rest);
  }

  lemma {:induction false} TerminatedSplits(bodies: seq<Bytes>, k: nat)
    requires k <= |bodies|
    ensures Concat(Terminated(bodies)) == Concat(Terminated(bodies[..k])) + Concat(Terminated(bodies[k..]))
    decreases |bodies|
  {
    if k == 0 {
      assert bodies[..0] == [] && bodies[0..] == bodies && Concat(Terminated([])) == [];
    } else {
      hide Concat, Terminated;
      var l, more := bodies[0] + [13, 10], bodies[1..];
      BodyThenMore(bodies);
      BodyThenMore(bodies[..k]);
      TerminatedSplits(more, k - 1);
      SliceOfRest(bodies, k);
      Regroup(l, Concat(Terminated(more[..k - 1])), Concat(Terminated(more[k - 1..])));
    }
  }

  lemma SliceOfRest<T>(s: seq<T>, k: nat)
    requires 0 < k <= |s|
    ensures s[..k][1..] == s[1..][..k - 1] && s[k..] == s[1..][k - 1..] && s[..k][0] == s[0]
  {
  }

  lemma BodyThenMore(bodies: seq<Bytes>)
    requires bodies != []
    ensures Concat(Terminated(bodies)) == (bodies[0] + [13, 10]) + Concat(Terminated(bodies[1..]))
  {
    FirstTerminated(bodies);
    ConcatFirst(bodies[0] + [13, 10], Terminated(bodies[1..]));
  }

  lemma NextOfBodies(bodies: seq<Bytes>, rest: Bytes, k: nat, res: Result, iv: Bytes)
    requires k <= |bodies| && Unbroken(rest) && |rest| < 0x100000 && !res.NBLOCK? && !res.SYSERR?
    requires forall i :: 0 <= i < |bodies| ==> Unbroken(bodies[i]) && |bodies[i]| + 2 <= 0x100000
    requires Decided(res, Concat(Terminated(bodies[k..])) + rest, 0x100000, iv)
    ensures if k < |bodies| then (res.SUCCESS? || res.MOREDATA?) && Terminated(bodies[..k]) + [iv] == Terminated(bodies[..k + 1])
            else bodies[..k] == bodies && res == if rest == [] then EOF else SHORTLINE
  {
    if k < |bodies| {
      var l, more := bodies[k] + [13, 10], Concat(Terminated(bodies[k + 1..])) + rest;
      FirstTerminated(bodies[k..]);
      assert bodies[k..][1..] == bodies[k + 1..];
      ConcatFirst(l, Terminated(bodies[k + 1..]));
      assert Concat(Terminated(bodies[k..])) + rest == bodies[k] + [13, 10] + more;
      BodyFirst(bodies[k], more);
      assert bodies[..k + 1][..k] == bodies[..k];
    } else {
      assert Concat(Terminated(bodies[k..])) + rest == rest;
      UnbrokenIs(rest);
      NoLine(rest, 0);
    }
  }

  lemma Adjoin(buf: array<Byte>, c: nat, n: nat)
    requires c + n <= buf.Length
    ensures buf[0..c + n] == buf[0..c] + buf[c..c + n]
  {
  }

  lemma TakeOff(buf: array<Byte>, b: nat, c: nat, n: nat)
    requires n <= c && b + c <= buf.Length
    ensures buf[b..b + c][..n] == buf[b..b + n] && buf[b..b + c][n..] == buf[b + n..b + n + (c - n)]
  {
  }

  /** iv holds the line last returned, if there is one. */
  predicate LastLine(returned: seq<Bytes>, iv: Bytes) {
    if returned == [] then iv == [] else iv == returned[|returned| - 1] && IsLine(iv, |iv|)
  }

  predicate IsLine(buffered: Bytes, n: nat) {
    2 <= n <= |buffered| && CrlfAt(buffered, n - 2) && forall i :: 0 <= i < n - 2 ==> !CrlfAt(buffered, i)
  }

  /** No CR LF ends within the first examined bytes. */
  predicate Examined(buffered: Bytes, examined: nat) {
    examined <= |buffered| && forall i :: 0 <= i < examined - 1 ==> !CrlfAt(buffered, i)
  }

  /** Bytes read are bytes returned and bytes buffered; with the bytes still to come, what is
      buffered makes up all the lines that have not been returned. */
  ghost predicate Accounts(stream: Bytes, sent: nat, returned: seq<Bytes>, buffered: Bytes, examined: nat) {
    && sent <= |stream| && Examined(buffered, examined)
    && Concat(returned) + buffered == stream[..sent]
    && Lines(stream) == returned + Lines(buffered + stream[sent..])
    && Rest(stream) == Rest(buffered + stream[sent..])
  }

  /** What follows the lines returned. */
  ghost function Unread(stream: Bytes, returned: seq<Bytes>): Bytes {
    var n := |Concat(returned)|;
    if n <= |stream| then stream[n..] else []
  }

  lemma UnreadIs(stream: Bytes, sent: nat, returned: seq<Bytes>, buffered: Bytes, examined: nat)
    requires Accounts(stream, sent, returned, buffered, examined)
    ensures Unread(stream, returned) == buffered + stream[sent..]
  {
    hide Concat, Lines, Rest, Examined, CrlfAt;
    var c, future := Concat(returned), stream[sent..];
    assert stream == stream[..sent] + future;
    Regroup(c, buffered, future);
    FrontOff(c, buffered + future);
  }

  lemma FrontOff(a: Bytes, b: Bytes)
    ensures (a + b)[|a|..] == b
  {
  }

  lemma LineTooLong(buffered: Bytes, future: Bytes)
    requires NoCrlf(buffered)
    ensures LineLength(buffered + future) == 0 || LineLength(buffered + future) > |buffered|
  {
    var n := LineLength(buffered + future);
    if n > 0 { assert CrlfAt(buffered + future, n - 2) && (n <= |buffered| ==> CrlfAt(buffered, n - 2)); }
  }

  lemma LineIsNot(line: Bytes, data: Bytes)
    requires NoCrlf(data) && data != [] && (line == [] || IsLine(line, |line|))
    ensures line != data
  {
    if line != [] { assert CrlfAt(line, |line| - 2); }
  }

  lemma LineAlone(buffered: Bytes, n: nat)
    requires IsLine(buffered, n)
    ensures IsLine(buffered[..n], n)
  {
    forall i | 0 <= i < n - 2 ensures !CrlfAt(buffered[..n], i) { assert !CrlfAt(buffered, i); }
  }

  lemma FirstLine(buffered: Bytes, future: Bytes, n: nat)
    requires IsLine(buffered, n)
    ensures LineLength(buffered + future) == n && (buffered + future)[..n] == buffered[..n]
  {
    var s := buffered + future;
    forall i | 0 <= i < n - 2 ensures !CrlfAt(s, i) { assert !CrlfAt(buffered, i); }
    LineLengthIs(s, n);
  }

  lemma LineDecided(stream: Bytes, sent: nat, returned: seq<Bytes>, buffered: Bytes, examined: nat, n: nat, limit: nat)
    requires Accounts(stream, sent, returned, buffered, examined) && IsLine(buffered, n) && |buffered| <= limit
    ensures forall res: Result :: res.SUCCESS? || res.MOREDATA? ==> Decided(res, Unread(stream, returned), limit, buffered[..n])
  {
    UnreadIs(stream, sent, returned, buffered, examined);
    FirstLine(buffered, stream[sent..], n);
  }

  lemma NoLineDecided(stream: Bytes, sent: nat, returned: seq<Bytes>, buffered: Bytes, examined: nat, res: Result,
                      limit: nat, iv: Bytes)
    requires Accounts(stream, sent, returned, buffered, examined) && NoCrlf(buffered)
    requires !res.SUCCESS? && !res.MOREDATA? && (res.LONGLINE? ==> |buffered| == limit > 0) && LastLine(returned, iv)
    requires res.EOF? || res.SHORTLINE? ==> sent == |stream| && |buffered| < limit && (res.EOF? <==> buffered == [])
    ensures Decided(res, Unread(stream, returned), limit, iv) && (res.LONGLINE? ==> iv != buffered)
  {
    UnreadIs(stream, sent, returned, buffered, examined);
    LineTooLong(buffered, stream[sent..]);
    if res.LONGLINE? { LineIsNot(iv, buffered); }
    if sent == |stream| { assert buffered + stream[sent..] == buffered; }
  }

  lemma AccountsForNothing(stream: Bytes)
    ensures Accounts(stream, 0, [], [], 0)
  {
    assert [] + stream[0..] == stream;
    assert [] + Lines(stream) == Lines(stream);
  }

  lemma MoreAccounts(stream: Bytes, sent: nat, sent': nat, returned: seq<Bytes>, buffered: Bytes, examined: nat)
    requires Accounts(stream, sent, returned, buffered, examined) && sent <= sent' <= |stream|
    ensures Accounts(stream, sent', returned, buffered + stream[sent..sent'], examined)
  {
    var more := stream[sent..sent'];
    Regroup(buffered, more, stream[sent'..]);
    assert more + stream[sent'..] == stream[sent..];
    Regroup(Concat(returned), buffered, more);
    assert stream[..sent] + more == stream[..sent'];
    forall i | 0 <= i < examined - 1 ensures !CrlfAt(buffered + more, i) { assert !CrlfAt(buffered, i); }
  }

  lemma LineAccounts(stream: Bytes, sent: nat, returned: seq<Bytes>, buffered: Bytes, examined: nat, n: nat)
    requires Accounts(stream, sent, returned, buffered, examined) && IsLine(buffered, n)
    ensures Accounts(stream, sent, returned + [buffered[..n]], buffered[n..], 0)
  {
    hide Lines, Rest, CrlfAt;
    var l := buffered[..n];
    LineOff(buffered, stream[sent..], n);
    assert (returned + [l])[..|returned|] == returned;
    assert (Concat(returned) + l) + buffered[n..] == Concat(returned) + buffered;
    assert returned + ([l] + Lines(buffered[n..] + stream[sent..])) == (returned + [l]) + Lines(buffered[n..] + stream[sent..]);
  }

  lemma Reexamined(stream: Bytes, sent: nat, returned: seq<Bytes>, buffered: Bytes, e: nat, e': nat)
    requires Accounts(stream, sent, returned, buffered, e) && Examined(buffered, e')
    ensures Accounts(stream, sent, returned, buffered, e')
  {
  }

  lemma LineNotExamined(buffered: Bytes, examined: nat, n: nat)
    requires Examined(buffered, examined) && IsLine(buffered, n)
    ensures examined < |buffered|
  {
    assert CrlfAt(buffered, n - 2);
  }

  lemma AllExamined(buffered: Bytes)
    requires Examined(buffered, |buffered|)
    ensures NoCrlf(buffered)
  {
    forall i | 0 <= i < |buffered| ensures !CrlfAt(buffered, i) {}
  }

  /** Only a CR before an LF would make a line. */
  lemma NothingFound(buffered: Bytes, examined: nat, upto: nat)
    requires Examined(buffered, examined) && examined <= upto <= |buffered|
    requires forall k :: examined <= k < upto && k > 0 && buffered[k] == LF ==> buffered[k - 1] != CR
    ensures Examined(buffered, upto)
  {
  }

  lemma AtTheEnd(stream: Bytes, sent: nat, returned: seq<Bytes>, buffered: Bytes, examined: nat)
    requires Accounts(stream, sent, returned, buffered, examined) && sent == |stream| && NoCrlf(buffered)
    ensures returned == Lines(stream) && buffered == Rest(stream)
  {
    assert buffered + stream[sent..] == buffered;
    NoLine(buffered, 0);
  }

  /** Two readers of one stream never disagree about a line, whatever their sockets did. */
  lemma ChunkingDoesNotMatter(a: CrlfReader, b: CrlfReader)
    requires a.Valid() && b.Valid() && a.sd.stream == b.sd.stream && |a.returned| <= |b.returned|
    ensures a.returned <= b.returned
  {
    var ls := Lines(a.sd.stream);
    assert a.returned == ls[..|a.returned|] && b.returned == ls[..|b.returned|];
  }
}
