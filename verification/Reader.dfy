// The reply reader of src/reply.cpp over the buffered socket. Each method is
// proved against the reader of module Resp, which sees the whole stream.
module Reader {
  import opened Decimal
  import opened Resp
  import S = Socket

  /** What a run of the reader owes its specification: unless a refill recv came
      up short, it ends as the specification does and leaves the same stream. */
  ghost predicate Follows(sock: S.Socket, r: S.Result<Rep>, spec: Outcome)
    reads sock, sock.buf
  {
    match spec
    case Got(rep, rest) => r == S.Ok(rep) && sock.Valid() && sock.Stream() == rest
    case Raised(error, rest) => r == S.Fail(S.Thrown(error)) && sock.Valid() && sock.Stream() == rest
    case Starved => r == S.Fail(S.Blocked)
  }

  /** No byte of `line` ends it, and `line` has been taken off `whole`. */
  ghost predicate Progress(whole: string, line: string, stream: string) {
    '\r' !in line && whole == line + stream
  }

  /** The line ends right where the unread part begins. */
  lemma LineEnds(whole: string, line: string, more: string, stream: string)
    requires Progress(whole, line, stream)
    requires '\r' !in more && |more| + 2 <= |stream|
    requires stream[..|more|] == more && stream[|more|] == '\r'
    ensures Line(whole) == Some((line + more, stream[|more| + 2..]))
  {
    var tail := stream[|more|..];
    assert whole == line + more + tail;
    FirstCRAt(line + more, tail);
    assert whole[..|line + more|] == line + more;
    assert whole[|line + more| + 2..] == stream[|more| + 2..];
  }

  lemma NothingTaken(whole: string)
    ensures Progress(whole, "", whole)
  {
  }

  lemma ProgressMore(whole: string, line: string, more: string, stream: string)
    requires Progress(whole, line, stream)
    requires '\r' !in more && |more| <= |stream| && stream[..|more|] == more
    ensures Progress(whole, line + more, stream[|more|..])
  {
    assert stream == more + stream[|more|..];
  }

  /** A line still to be completed leaves at least two bytes to read. */
  lemma LineNeedsTwo(whole: string, line: string, stream: string)
    requires Progress(whole, line, stream) && Line(whole).Some?
    ensures |stream| >= 2
  {
    var k := FirstCR(whole);
    assert forall j :: 0 <= j < |line| ==> whole[j] == line[j] && line[j] != '\r';
  }

  /** The CR is the n-th buffered byte; the byte behind it may not be buffered
      yet, and then it takes a recv of one byte, which is never short. */
  method EndInBuffer(sock: S.Socket, ghost whole: string, line: string, n: nat) returns (r: S.Result<string>)
    requires sock.Valid() && Progress(whole, line, sock.Stream())
    requires n < |sock.Peek()| && '\r' !in sock.Peek()[..n] && sock.Peek()[n] == '\r'
    modifies sock`pos, sock`incoming, sock`recvs, sock.buf
    ensures r.Ok? ==> sock.Valid() && Line(whole) == Some((r.value, sock.Stream()))
    ensures r.Fail? ==> r.failure == S.Blocked && Line(whole).None?
  {
    var buf := sock.Peek();
    ghost var stream := sock.Stream();
    assert stream[..n] == buf[..n] && stream[n] == '\r';
    if n + 2 <= |stream| {
      LineEnds(whole, line, buf[..n], stream);
      if n + 2 > |buf| {
        sock.DiscardOneMore(n + 2);
      }
    } else {
      LineCutOff(whole, line, stream, n);
    }
    var _ :- sock.Discard(n + 2);
    return S.Ok(line + buf[..n]);
  }

  /** The CR is the second byte of a pair: the first one belongs to the line,
      and one more byte is read. */
  method EndInSecond(sock: S.Socket, ghost whole: string, line: string, c: string) returns (r: S.Result<string>)
    requires sock.Valid() && |c| == 2 && c[0] != '\r' && c[1] == '\r'
    requires Progress(whole, line, c + sock.Stream())
    modifies sock`size, sock`pos, sock`incoming, sock`recvs, sock.buf
    ensures r.Ok? ==> sock.Valid() && Line(whole) == Some((r.value, sock.Stream()))
    ensures r.Fail? ==> r.failure == S.Blocked && Line(whole).None?
  {
    ghost var stream := c + sock.Stream();
    assert stream[..1] == c[..1];
    if sock.Stream() != "" {
      LineEnds(whole, line, c[..1], stream);
      assert sock.Covered(1);
    } else {
      LineCutOff(whole, line, stream, 1);
    }
    ghost var before := sock.Stream();
    var x :- sock.Read(1);
    assert before[1..] == sock.Stream() && stream[3..] == before[1..];
    return S.Ok(line + c[..1]);
  }

  /** A CR that is the last byte there will ever be ends no line. */
  lemma LineCutOff(whole: string, line: string, stream: string, n: nat)
    requires Progress(whole, line, stream)
    requires n + 1 == |stream| && '\r' !in stream[..n] && stream[n] == '\r'
    ensures Line(whole).None?
  {
    var more := stream[..n];
    FirstCRAt(line + more, stream[n..]);
    assert whole == line + more + stream[n..];
  }

  /** Before a pair is read: if the line can be completed at all, the pair is
      there, and a peer that grants two bytes delivers it. */
  lemma PairIsComing(sock: S.Socket, whole: string, line: string)
    requires sock.Valid() && Progress(whole, line, sock.Stream())
    ensures Line(whole).Some? ==> |sock.Stream()| >= 2
    ensures Line(whole).Some? && sock.Grants(2) ==> sock.Covered(2)
  {
    if Line(whole).Some? {
      LineNeedsTwo(whole, line, sock.Stream());
      if sock.Grants(2) {
        sock.GrantsCover(2);
      }
    }
  }

  /** The part of _read_line's loop behind an empty buffer: a pair of bytes is
      read, and the CR can be either of them. `done` tells whether it was. */
  method ReadPair(sock: S.Socket, ghost whole: string, line: string) returns (r: S.Result<string>, done: bool)
    requires sock.Valid() && Progress(whole, line, sock.Stream())
    modifies sock`size, sock`pos, sock`incoming, sock`recvs, sock.buf
    ensures r.Ok? ==> sock.Valid()
    ensures r.Ok? && done ==> Line(whole) == Some((r.value, sock.Stream()))
    ensures r.Ok? && !done ==> Progress(whole, r.value, sock.Stream()) && |sock.Stream()| < |old(sock.Stream())|
    ensures r.Fail? ==> r.failure == S.Short || (r.failure == S.Blocked && Line(whole).None?)
    ensures sock.Grants(2) && Line(whole).Some? ==> r.Ok?
  {
    PairIsComing(sock, whole, line);
    ghost var stream := sock.Stream();
    r := sock.Read(2);
    done := true;
    if r.Fail? {
      return;
    }
    var c := r.value;
    assert stream == c + sock.Stream() && stream[2..] == sock.Stream();
    if c[0] == '\r' {
      LineEnds(whole, line, "", stream);
      assert line + "" == line;
      r := S.Ok(line);
    } else if c[1] == '\r' {
      r := EndInSecond(sock, whole, line, c);
    } else {
      ProgressMore(whole, line, c, stream);
      r, done := S.Ok(line + c), false;
    }
  }

  /** The part of _read_line's loop that empties a buffer without a CR. */
  method TakeBuffered(sock: S.Socket, ghost whole: string, line: string) returns (longer: string)
    requires sock.Valid() && Progress(whole, line, sock.Stream()) && '\r' !in sock.Peek()
    modifies sock`pos, sock`incoming, sock`recvs, sock.buf
    ensures sock.Valid() && Progress(whole, longer, sock.Stream())
    ensures |sock.Stream()| <= |old(sock.Stream())|
  {
    var buf := sock.Peek();
    assert sock.Stream()[..|buf|] == buf;
    ProgressMore(whole, line, buf, sock.Stream());
    longer := line + buf;
    if |buf| > 0 {
      var _ := sock.Discard(|buf|);
    } else {
      assert sock.Stream()[0..] == sock.Stream();
    }
  }

  /** _read_line. It scans what is buffered, and falls back to pairs of bytes
      when the buffer runs out. */
  method ReadLine(sock: S.Socket) returns (r: S.Result<string>)
    requires sock.Valid()
    modifies sock`size, sock`pos, sock`incoming, sock`recvs, sock.buf
    ensures r.Ok? ==> sock.Valid() && Line(old(sock.Stream())) == Some((r.value, sock.Stream()))
    ensures r.Fail? ==> r.failure == S.Short || (r.failure == S.Blocked && Line(old(sock.Stream())).None?)
    ensures sock.Grants(2) && Line(old(sock.Stream())).Some? ==> r.Ok?
  {
    hide FirstCR, Line, Progress;
    ghost var whole := sock.Stream();
    NothingTaken(whole);
    var line := "";
    while true
      invariant sock.Valid() && Progress(whole, line, sock.Stream())
      decreases |sock.Stream()|
    {
      var buf := sock.Peek();
      for n := 0 to |buf|
        invariant '\r' !in buf[..n]
      {
        if buf[n] == '\r' {
          r := EndInBuffer(sock, whole, line, n);
          return;
        }
      }
      assert buf[..|buf|] == buf;
      line := TakeBuffered(sock, whole, line);
      var done;
      r, done := ReadPair(sock, whole, line);
      if r.Fail? || done {
        return;
      }
      line := r.value;
    }
  }

  /** _read_integer. */
  method ReadInteger(sock: S.Socket) returns (r: S.Result<int>)
    requires sock.Valid()
    modifies sock`size, sock`pos, sock`incoming, sock`recvs, sock.buf
    ensures var spec := Line(old(sock.Stream()));
            match r
            case Ok(i) =>
              && sock.Valid() && spec.Some? && spec.value.1 == sock.Stream()
              && FromChars(spec.value.0) == Some(i)
            case Fail(Thrown(error)) =>
              && sock.Valid() && spec.Some? && spec.value.1 == sock.Stream()
              && FromChars(spec.value.0).None? && error == BadInteger(spec.value.0)
            case Fail(Blocked) => spec.None?
            case Fail(Short) => !(sock.Grants(2) && spec.Some?)
  {
    var line :- ReadLine(sock);
    match FromChars(line)
    case None => return S.Fail(S.Thrown(BadInteger(line)));
    case Some(i) => return S.Ok(i);
  }

  /** A payload and the stream that should begin with its delimiter. */
  function Delimited(data: string, s: string): Outcome {
    if |s| < 2 then Starved
    else if s[..2] != CRLF then Raised(BadDelimiter, s[2..])
    else Got(Text(data), s[2..])
  }

  lemma BulkIsDelimited(size: nat, stream: string)
    requires size <= |stream|
    ensures ParseBulk(size, stream) == Delimited(stream[..size], stream[size..])
  {
    if size + 2 <= |stream| {
      assert stream[size..][..2] == stream[size..size + 2];
      assert stream[size..][2..] == stream[size + 2..];
    }
  }

  /** The delimiter of a bulk string. */
  method ReadDelimiter(sock: S.Socket, data: string) returns (r: S.Result<Rep>)
    requires sock.Valid()
    modifies sock`size, sock`pos, sock`incoming, sock`recvs, sock.buf
    ensures r != S.Fail(S.Short) ==> Follows(sock, r, Delimited(data, old(sock.Stream())))
    ensures sock.Grants(2) && |old(sock.Stream())| >= 2 ==> r != S.Fail(S.Short)
  {
    ghost var stream := sock.Stream();
    if sock.Grants(2) && |stream| >= 2 {
      sock.GrantsCover(2);
    }
    var delim :- sock.Read(2);
    assert stream[..2] == delim && stream[2..] == sock.Stream();
    if delim[0] != '\r' || delim[1] != '\n' {
      assert delim[0] != CRLF[0] || delim[1] != CRLF[1];
      return S.Fail(S.Thrown(BadDelimiter));
    }
    assert delim == CRLF;
    return S.Ok(Text(data));
  }

  /** The payload of a bulk string and its delimiter. */
  method ReadBulk(sock: S.Socket, size: int) returns (r: S.Result<Rep>)
    requires sock.Valid() && size != -1
    modifies sock`size, sock`pos, sock`incoming, sock`recvs, sock.buf
    ensures r != S.Fail(S.Short) ==> Follows(sock, r, ParseBulk(size, old(sock.Stream())))
    ensures sock.Grants(2) && (size >= 0 ==> sock.Grants(size)) && !ParseBulk(size, old(sock.Stream())).Starved? ==>
              r != S.Fail(S.Short)
  {
    if size < -1 {
      return S.Fail(S.Thrown(NegativeBulkSize(size)));
    }
    ghost var stream := sock.Stream();
    if size <= |stream| {
      BulkIsDelimited(size, stream);
      if sock.Grants(size) {
        sock.GrantsCover(size);
      }
    }
    var data :- sock.Read(size);
    assert stream[..size] == data && stream[size..] == sock.Stream();
    r := ReadDelimiter(sock, data);
  }

  /** Refills large enough for what is to be read: as large as they can be, or as
      large as two bytes and any bulk string up to `n`. */
  ghost predicate Suffices(sock: S.Socket, n: nat, within: bool) {
    sock.Prompt() || (n >= 2 && sock.Grants(n) && within)
  }

  lemma SufficientFor(sock: S.Socket, n: nat, size: nat)
    requires Suffices(sock, n, size <= n)
    ensures sock.Grants(2) && sock.Grants(size)
  {
  }

  /** The element loop of read_array. */
  method ReadElements(sock: S.Socket, size: nat, ghost n: nat) returns (r: S.Result<Rep>)
    requires sock.Valid()
    modifies sock`size, sock`pos, sock`incoming, sock`recvs, sock.buf
    ensures r != S.Fail(S.Short) ==> Follows(sock, r, ParseElems([], size, old(sock.Stream())))
    ensures !ParseElems([], size, old(sock.Stream())).Starved? ==>
              Suffices(sock, n, ElementsWithin(n, size, old(sock.Stream()))) ==> r != S.Fail(S.Short)
    decreases |sock.Stream()|, 1
  {
    hide Parse, ParseElems;
    var elements := [];
    for i := 0 to size
      invariant sock.Valid() && |sock.Stream()| <= |old(sock.Stream())|
      invariant ParseElems([], size, old(sock.Stream())) == ParseElems(elements, size - i, sock.Stream())
      invariant ElementsWithin(n, size, old(sock.Stream())) ==> ElementsWithin(n, size - i, sock.Stream())
    {
      FirstElement(elements, size - i, sock.Stream());
      var rep :- ReadReply(sock, n);
      elements := elements + [rep];
    }
    NoElement(elements, sock.Stream());
    return S.Ok(Array(elements));
  }

  /** read_bulk_string, its type byte having been read. */
  method ReadBulkString(sock: S.Socket, ghost n: nat) returns (r: S.Result<Rep>)
    requires sock.Valid()
    modifies sock`size, sock`pos, sock`incoming, sock`recvs, sock.buf
    ensures r != S.Fail(S.Short) ==> Follows(sock, r, Parse(['$'] + old(sock.Stream())))
    ensures !Parse(['$'] + old(sock.Stream())).Starved? ==>
              Suffices(sock, n, PayloadsWithin(n, ['$'] + old(sock.Stream()))) ==> r != S.Fail(S.Short)
  {
    ghost var stream := ['$'] + sock.Stream();
    assert stream[1..] == sock.Stream();
    if Suffices(sock, n, PayloadsWithin(n, stream)) {
      SufficientFor(sock, n, 2);
    }
    var size :- ReadInteger(sock);
    if size == -1 {
      return S.Ok(Nil);
    }
    if size >= 0 && Suffices(sock, n, PayloadsWithin(n, stream)) {
      SufficientFor(sock, n, size);
    }
    r := ReadBulk(sock, size);
  }

  /** read_array, its type byte having been read. */
  method ReadArray(sock: S.Socket, ghost n: nat) returns (r: S.Result<Rep>)
    requires sock.Valid()
    modifies sock`size, sock`pos, sock`incoming, sock`recvs, sock.buf
    ensures r != S.Fail(S.Short) ==> Follows(sock, r, Parse(['*'] + old(sock.Stream())))
    ensures !Parse(['*'] + old(sock.Stream())).Starved? ==>
              Suffices(sock, n, PayloadsWithin(n, ['*'] + old(sock.Stream()))) ==> r != S.Fail(S.Short)
    decreases |sock.Stream()|, 2
  {
    ghost var stream := ['*'] + sock.Stream();
    assert stream[1..] == sock.Stream();
    if Suffices(sock, n, PayloadsWithin(n, stream)) {
      SufficientFor(sock, n, 2);
    }
    var size :- ReadInteger(sock);
    if size == -1 {
      return S.Ok(Nil);
    }
    if size < -1 {
      return S.Fail(S.Thrown(NegativeArraySize(size)));
    }
    r := ReadElements(sock, size, n);
  }

  /** read_simple_string. */
  method ReadSimpleString(sock: S.Socket) returns (r: S.Result<Rep>)
    requires sock.Valid()
    modifies sock`size, sock`pos, sock`incoming, sock`recvs, sock.buf
    ensures r != S.Fail(S.Short) ==> Follows(sock, r, Parse(['+'] + old(sock.Stream())))
    ensures sock.Grants(2) && !Parse(['+'] + old(sock.Stream())).Starved? ==> r != S.Fail(S.Short)
  {
    assert (['+'] + sock.Stream())[1..] == sock.Stream();
    var line :- ReadLine(sock);
    return S.Ok(Text(line));
  }

  /** read_error. */
  method ReadError(sock: S.Socket) returns (r: S.Result<Rep>)
    requires sock.Valid()
    modifies sock`size, sock`pos, sock`incoming, sock`recvs, sock.buf
    ensures r != S.Fail(S.Short) ==> Follows(sock, r, Parse(['-'] + old(sock.Stream())))
    ensures sock.Grants(2) && !Parse(['-'] + old(sock.Stream())).Starved? ==> r != S.Fail(S.Short)
  {
    assert (['-'] + sock.Stream())[1..] == sock.Stream();
    var msg :- ReadLine(sock);
    return S.Fail(S.Thrown(ServerError(msg)));
  }

  /** read_integer. */
  method ReadIntegerReply(sock: S.Socket) returns (r: S.Result<Rep>)
    requires sock.Valid()
    modifies sock`size, sock`pos, sock`incoming, sock`recvs, sock.buf
    ensures r != S.Fail(S.Short) ==> Follows(sock, r, Parse([':'] + old(sock.Stream())))
    ensures sock.Grants(2) && !Parse([':'] + old(sock.Stream())).Starved? ==> r != S.Fail(S.Short)
  {
    assert ([':'] + sock.Stream())[1..] == sock.Stream();
    var i :- ReadInteger(sock);
    return S.Ok(Integer(i));
  }

  /** read_reply: the constructor of Reply. No refill is short if the peer is
      prompt, or grants two bytes and as many as the longest bulk string has. */
  method ReadReply(sock: S.Socket, ghost n: nat) returns (r: S.Result<Rep>)
    requires sock.Valid()
    modifies sock`size, sock`pos, sock`incoming, sock`recvs, sock.buf
    ensures r != S.Fail(S.Short) ==> Follows(sock, r, Parse(old(sock.Stream())))
    ensures !Parse(old(sock.Stream())).Starved? ==>
              Suffices(sock, n, PayloadsWithin(n, old(sock.Stream()))) ==> r != S.Fail(S.Short)
    decreases |sock.Stream()|, 0
  {
    hide S.Socket.Refilled, Parse, PayloadsWithin;
    ghost var stream := sock.Stream();
    NothingParsed();
    if stream != "" {
      assert sock.Covered(1);
    }
    if Suffices(sock, n, PayloadsWithin(n, stream)) {
      SufficientFor(sock, n, 2);
    }
    var type_ :- sock.Read(1);
    assert stream == [type_[0]] + sock.Stream();
    match type_[0]
    case '+' => r := ReadSimpleString(sock);
    case '-' => r := ReadError(sock);
    case ':' => r := ReadIntegerReply(sock);
    case '$' => r := ReadBulkString(sock, n);
    case '*' => r := ReadArray(sock, n);
    case _ =>
      UnknownTypeIsRefused(type_[0], sock.Stream());
      return S.Fail(S.Thrown(BadType(type_[0])));
  }

  lemma NothingParsed()
    ensures Parse("") == Starved
  {
  }
}
