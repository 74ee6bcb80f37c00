// The connection of include/red1z/context.h: the queue of commands not yet
// sent, the number of requests in flight, and the handle on both that
// pipelines hold (CommandQueue).
module Context {
  import opened Decimal
  import opened Resp
  import opened Server
  import S = Socket
  import Reader

  /** m_in_flight is an int. */
  const INT_MAX: int := 0x7FFF_FFFF

  /** What get_reply makes of a reply. */
  function ReadNode(t: Node): S.Result<Rep> {
    if ErrorFree(t) then S.Ok(RepOf(t)) else S.Fail(S.Thrown(ServerError(FirstError(t))))
  }

  /** The first reply that is thrown when it is read, or |ts|. */
  function FirstBad(ts: seq<Node>): (k: nat)
    ensures k <= |ts| && AllErrorFree(ts[..k])
    ensures k < |ts| ==> !ErrorFree(ts[k])
  {
    if ts == [] || !ErrorFree(ts[0]) then 0
    else
      var k := FirstBad(ts[1..]);
      assert ts[..k + 1] == [ts[0]] + ts[1..][..k];
      FirstElementFree(ts[..k + 1]);
      k + 1
  }

  /** What is still to be read of `ts` when its first `k` replies have been looked
      at: where the last of them was thrown, that begins behind its error. */
  function Remains(ts: seq<Node>, k: nat): (left: seq<Node>)
    requires k <= |ts|
    ensures |left| >= |ts| - k
  {
    if k == 0 then ts else Leftover(ts[k - 1]) + ts[k..]
  }

  /** Nothing but the other replies, exactly if that last one is in step. */
  lemma RemainsInStep(ts: seq<Node>, k: nat)
    requires k <= |ts|
    ensures |Remains(ts, k)| == |ts| - k <==> k == 0 || InStep(ts[k - 1])
    ensures |Remains(ts, k)| == |ts| - k ==> Remains(ts, k) == ts[k..]
  {
    if k > 0 {
      NothingLeftOver(ts[k - 1]);
    }
  }

  lemma RemainsLater(ts: seq<Node>, i: nat)
    requires i < |ts|
    ensures ts[i..][0] == ts[i] && Remains(ts[i..], 1) == Remains(ts, i + 1)
  {
    assert ts[i..][1..] == ts[i + 1..];
  }

  /** An error-free run of replies in front does not change which is first. */
  lemma {:induction false} FirstBadAt(ts: seq<Node>, i: nat)
    requires i <= |ts| && AllErrorFree(ts[..i])
    ensures FirstBad(ts) >= i
    ensures i < |ts| && !ErrorFree(ts[i]) ==> FirstBad(ts) == i
  {
    if i == 0 {
    } else {
      assert ts[..i][0] == ts[0];
      assert ts[1..][..i - 1] == ts[..i][1..];
      FirstBadAt(ts[1..], i - 1);
    }
  }

  lemma NextOne(ts: seq<Node>, i: nat)
    requires i < |ts| && AllErrorFree(ts[..i]) && ErrorFree(ts[i])
    ensures AllErrorFree(ts[..i + 1])
    ensures Remains(ts, i + 1) == ts[i + 1..]
  {
    NothingLeftOver(ts[i]);
    assert ts[..i + 1] == ts[..i] + [ts[i]];
  }

  /** The reader on printed replies: what the first reads as, and what is to be
      read then. */
  lemma NextIsRead(ts: seq<Node>)
    requires AllPrintable(ts) && ts != []
    ensures var next := Remains(ts, 1);
            && AllPrintable(next)
            && match Parse(PrintAll(ts))
               case Got(rep, rest) => ReadNode(ts[0]) == S.Ok(rep) && rest == PrintAll(next)
               case Raised(error, rest) => ReadNode(ts[0]) == S.Fail(S.Thrown(error)) && rest == PrintAll(next)
               case Starved => false
  {
    var t := ts[0];
    ParsePrint(t, PrintAll(ts[1..]));
    PrintAllAppend(Leftover(t), ts[1..]);
    LeftoverPrintable(t);
    NothingLeftOver(t);
    assert [] + ts[1..] == ts[1..];
  }

  lemma OneMore(a: seq<Node>, b: seq<Node>, t: Node)
    requires AllPrintable(a + b) && Printable(t)
    ensures a + (b + [t]) == a + b + [t] && AllPrintable(a + b + [t])
  {
  }

  lemma {:induction false} ConcatWire(queue: seq<string>, rs: seq<Request>)
    requires |queue| == |rs| && forall k :: 0 <= k < |rs| ==> queue[k] == Wire(rs[k])
    ensures S.Concat(queue) == WireAll(rs)
  {
    if rs == [] {
    } else {
      ConcatWire(queue[1..], rs[1..]);
    }
  }

  class Context {
    const sock: S.Socket
    var inFlight: int
    var queue: seq<string>

    /** The requests in the queue, and the replies on their way back. */
    ghost var waiting: seq<Request>
    ghost var owed: seq<Node>

    /** The connection invariant: the unread bytes are the printing of the
        replies owed, every command in the queue waits for its own, and these
        make up at least the requests in flight. */
    ghost predicate Valid()
      reads this, sock, sock.buf
    {
      Linked() && |waiting| <= inFlight <= |owed| + |waiting|
    }

    /** No reply is left over from before: the requests in flight are just those
        whose replies are to be expected. */
    ghost predicate InOrder()
      reads this, sock, sock.buf
    {
      Valid() && inFlight == |owed| + |waiting|
    }

    /** The invariant without the count, which get_reply lowers first. */
    ghost predicate Linked()
      reads this, sock, sock.buf
    {
      && sock.Valid()
      && sock.peer.partial == ""
      && |queue| == |waiting|
      && (forall k :: 0 <= k < |waiting| ==> SendableRequest(waiting[k]) && queue[k] == Wire(waiting[k]))
      && sock.Stream() == PrintAll(owed)
      && AllPrintable(Expected())
    }

    /** The replies that are going to be read, in order: those the server has
        sent, and those the queued commands get. */
    ghost function Expected(): (ts: seq<Node>)
      reads this, sock
      ensures |ts| == |owed| + |waiting|
    {
      owed + Replies(sock.rules, sock.peer.state, waiting)
    }

    /** The state of the server once it has seen all of them. */
    ghost function Final(): State
      reads this, sock
    {
      After(sock.rules, sock.peer.state, waiting)
    }

    constructor (sock: S.Socket)
      requires sock.Valid() && sock.Stream() == "" && sock.peer.partial == ""
      ensures this.sock == sock && InOrder() && inFlight == 0
      ensures waiting == [] && Final() == sock.peer.state
    {
      this.sock := sock;
      inFlight := 0;
      queue, waiting, owed := [], [], [];
    }

    predicate Ready()
      reads this
    {
      inFlight == 0
    }

    /** start_pipeline: refused while requests are pending. */
    method StartPipeline() returns (r: S.Result<()>)
      ensures r == if inFlight == 0 then S.Ok(()) else S.Fail(S.Thrown(RequestsPending))
    {
      if !Ready() {
        return S.Fail(S.Thrown(RequestsPending));
      }
      return S.Ok(());
    }

    /** Queues a command. The reply it will get is the one the server gives
        after everything that is already under way. */
    method Append(cmd: string, ghost r: Request)
      requires Valid() && inFlight < INT_MAX
      requires SendableRequest(r) && cmd == Wire(r)
      requires Printable(Step(sock.rules, Final(), r).1)
      modifies this`inFlight, this`queue, this`waiting
      ensures Valid()
      ensures inFlight == old(inFlight) + 1 && waiting == old(waiting) + [r] && queue == old(queue) + [cmd]
      ensures Expected() == old(Expected()) + [Step(sock.rules, old(Final()), r).1]
      ensures Final() == Step(sock.rules, old(Final()), r).0
    {
      ghost var before, t := Expected(), Step(sock.rules, Final(), r).1;
      RunAppend(sock.rules, sock.peer.state, waiting, [r]);
      One(sock.rules, Final(), r);
      queue := queue + [cmd];
      waiting := waiting + [r];
      inFlight := inFlight + 1;
      OneMore(owed, Replies(sock.rules, sock.peer.state, old(waiting)), t);
      assert Expected() == before + [t];
    }

    /** The call of write_many: the server runs the queued requests, and its
        answers join the stream. */
    method Transmit()
      requires Linked()
      modifies sock
      ensures sock.Valid() && sock.peer == Peer(old(Final()), "")
      ensures sock.Stream() == old(sock.Stream())
                             + PrintAll(Replies(sock.rules, old(sock.peer.state), waiting))
    {
      ghost var out := PrintAll(Replies(sock.rules, sock.peer.state, waiting));
      QueueReceived();
      sock.WriteMany(queue);
      SameBuffer(old(sock.Peek()), old(sock.incoming), out, sock.incoming);
    }

    /** What the server makes of the queue. */
    lemma QueueReceived()
      requires Linked()
      ensures Receive(sock.rules, sock.peer, S.Concat(queue))
           == (Peer(Final(), ""), PrintAll(Replies(sock.rules, sock.peer.state, waiting)))
      ensures queue == [] ==> Final() == sock.peer.state && Replies(sock.rules, sock.peer.state, waiting) == []
    {
      ConcatWire(queue, waiting);
      ReceiveRequests(sock.rules, sock.peer.state, waiting);
    }

    lemma SameBuffer(buffered: string, before: string, out: string, incoming: string)
      requires incoming == before + out
      ensures buffered + incoming == buffered + before + out
    {
    }

    /** Sends the queue and forgets it. */
    method Send()
      requires Linked()
      modifies this`queue, this`waiting, this`owed, sock
      ensures Linked() && waiting == [] && owed == old(Expected())
      ensures Expected() == old(Expected()) && Final() == old(Final())
    {
      PrintAllAppend(owed, Replies(sock.rules, sock.peer.state, waiting));
      Transmit();
      owed := old(Expected());
      queue, waiting := [], [];
      assert Expected() == owed;
    }

    /** get_reply: counts the reply, flushes the queue and reads. The k-th reply
        read is the k-th of those to be expected; if it holds an error, what
        stands behind that in its array is to be expected next. */
    method GetReply() returns (r: S.Result<Rep>)
      requires Valid()
      modifies this, sock, sock.buf
      ensures old(inFlight) == 0 ==>
                && r == S.Fail(S.Thrown(NoRequestInFlight)) && Valid() && inFlight == 0
                && Expected() == old(Expected()) && Final() == old(Final())
      ensures old(inFlight) > 0 ==>
                && inFlight == old(inFlight) - 1 && Final() == old(Final()) && waiting == []
                && (r != S.Fail(S.Short) ==> NextRead(r, old(Expected())))
      ensures sock.Prompt() ==> r != S.Fail(S.Short)
    {
      if inFlight == 0 {
        return S.Fail(S.Thrown(NoRequestInFlight));
      }
      inFlight := inFlight - 1;
      Send();
      r := ReadOwed();
    }

    /** The first of `ts` has been read. */
    ghost predicate NextRead(r: S.Result<Rep>, ts: seq<Node>)
      requires ts != []
      reads this, sock, sock.buf
    {
      Valid() && r == ReadNode(ts[0]) && Expected() == Remains(ts, 1)
    }

    /** The construction of the Reply from the socket. */
    method ReadOwed() returns (r: S.Result<Rep>)
      requires Linked() && waiting == [] && 0 <= inFlight < |owed|
      modifies this`owed, sock`size, sock`pos, sock`incoming, sock`recvs, sock.buf
      ensures r != S.Fail(S.Short) ==> NextRead(r, old(owed))
      ensures sock.Prompt() ==> r != S.Fail(S.Short)
    {
      assert Expected() == owed;
      NextIsRead(owed);
      r := Reader.ReadReply(sock, 2);
      owed := Remains(owed, 1);
      assert Expected() == owed;
    }

    /** CommandQueue::discard(n): n replies are thrown away, or all up to the
        first bad one among them, which is raised. */
    method Discard(n: nat) returns (r: S.Result<()>)
      requires Valid()
      modifies this, sock, sock.buf
      ensures n > old(inFlight) ==>
                && r == S.Fail(S.Thrown(CannotDiscard)) && Valid() && inFlight == old(inFlight)
                && Expected() == old(Expected()) && Final() == old(Final()) && waiting == old(waiting)
      ensures n <= old(inFlight) ==>
                && Final() == old(Final()) && inFlight <= old(inFlight)
                && (r != S.Fail(S.Short) ==> Drained(r, old(Expected()), old(inFlight), n))
      ensures sock.Prompt() ==> r != S.Fail(S.Short)
    {
      if inFlight < n {
        return S.Fail(S.Thrown(CannotDiscard));
      }
      ghost var ts, m := Expected(), inFlight;
      for i := 0 to n
        invariant Valid() && inFlight == m - i && Final() == old(Final())
        invariant Expected() == ts[i..] && AllErrorFree(ts[..i])
      {
        r := DiscardReply(ts, i);
        if r.Fail? {
          return;
        }
      }
      FirstBadAt(ts, n);
      return S.Ok(());
    }

    /** discard_reply, as the i-th of the replies `ts`. */
    method DiscardReply(ghost ts: seq<Node>, ghost i: nat) returns (r: S.Result<()>)
      requires Valid() && inFlight > 0 && i < |ts| && AllErrorFree(ts[..i]) && Expected() == ts[i..]
      modifies this, sock, sock.buf
      ensures inFlight == old(inFlight) - 1 && Final() == old(Final())
      ensures r.Ok? ==> Valid() && AllErrorFree(ts[..i + 1]) && Expected() == ts[i + 1..]
      ensures r.Fail? && r != S.Fail(S.Short) ==>
                && FirstBad(ts) == i && r == S.Fail(S.Thrown(ServerError(FirstError(ts[i]))))
                && Valid() && Expected() == Remains(ts, i + 1)
      ensures sock.Prompt() ==> r != S.Fail(S.Short)
    {
      FirstBadAt(ts, i);
      RemainsLater(ts, i);
      var rep := GetReply();
      if rep.Fail? {
        return S.Fail(rep.failure);
      }
      NextOne(ts, i);
      return S.Ok(());
    }

    /** Of `ts`, with `m` requests in flight, `n` replies have been thrown away,
        or all up to the first bad one among them, which has been raised. */
    ghost predicate Drained(r: S.Result<()>, ts: seq<Node>, m: int, n: nat)
      requires n <= |ts|
      reads this, sock, sock.buf
    {
      var k := FirstBad(ts);
      && Valid()
      && if k < n then
           && r == S.Fail(S.Thrown(ServerError(FirstError(ts[k]))))
           && inFlight == m - k - 1 && Expected() == Remains(ts, k + 1)
         else r == S.Ok(()) && inFlight == m - n && Expected() == ts[n..]
    }

    /** CommandQueue::discard() without a count. */
    method DiscardAll() returns (r: S.Result<()>)
      requires Valid()
      modifies this, sock, sock.buf
      ensures r != S.Fail(S.Short) ==> Drained(r, old(Expected()), old(inFlight), old(inFlight))
      ensures Final() == old(Final())
      ensures sock.Prompt() ==> r != S.Fail(S.Short)
    {
      r := Discard(inFlight);
    }

    /** Context::execute: one command, and the next reply, which is that to the
        command if none is left over from before. */
    method Execute(cmd: string, ghost req: Request) returns (r: S.Result<Rep>)
      requires Valid() && SendableRequest(req) && cmd == Wire(req)
      requires Printable(Step(sock.rules, Final(), req).1)
      modifies this, sock, sock.buf
      ensures old(inFlight) > 0 ==>
                && r == S.Fail(S.Thrown(RequestsPending)) && Valid() && inFlight == old(inFlight)
                && Expected() == old(Expected()) && Final() == old(Final())
      ensures old(inFlight) == 0 ==>
                var (st, t) := Step(sock.rules, old(Final()), req);
                && Final() == st && inFlight == 0
                && (r != S.Fail(S.Short) ==> NextRead(r, old(Expected()) + [t]))
      ensures sock.Prompt() ==> r != S.Fail(S.Short)
    {
      if !Ready() {
        return S.Fail(S.Thrown(RequestsPending));
      }
      Append(cmd, req);
      r := GetReply();
    }
  }
}
