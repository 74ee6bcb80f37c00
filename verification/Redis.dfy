// The client object of include/red1z/red1z.h, and what its four ways of running
// commands come to: one at a time, in a pipeline, and in a transaction, the
// last two in their static and dynamic forms.
module Redis {
  import opened Decimal
  import opened Resp
  import opened Server
  import S = Socket
  import C = Context
  import opened Pipeline

  /** A command object: its bytes, and what makes a result of its reply. */
  datatype Command<!T> = Command(bytes: string, process: Resolver<T>)

  ghost predicate Carries<T>(cmds: seq<Command<T>>, rs: seq<Request>) {
    && |cmds| == |rs|
    && forall k :: 0 <= k < |rs| ==> SendableRequest(rs[k]) && cmds[k].bytes == Wire(rs[k])
  }

  function Processors<T>(cmds: seq<Command<T>>): (fs: seq<Resolver<T>>)
    ensures |fs| == |cmds|
    ensures forall k :: 0 <= k < |cmds| ==> fs[k] == cmds[k].process
  {
    seq(|cmds|, k requires 0 <= k < |cmds| => cmds[k].process)
  }

  // --------------------------------------------- what the caller is promised

  /** Result k is what command k makes of reply k. */
  ghost predicate EachResult<T>(cmds: seq<Command<T>>, ts: seq<Node>, values: seq<T>) {
    && |values| == |cmds| == |ts|
    && forall k :: 0 <= k < |cmds| ==>
         ErrorFree(ts[k]) && cmds[k].process(RepOf(ts[k])) == Value(values[k])
  }

  /** The first `k` replies are processed by their commands, and reply k throws:
      the error it holds, or the one its command throws. */
  ghost predicate ThrowsAt<T>(cmds: seq<Command<T>>, ts: seq<Node>, k: nat, error: Resp.Error) {
    && k < |cmds| == |ts|
    && (forall j :: 0 <= j < k ==> ErrorFree(ts[j]) && cmds[j].process(RepOf(ts[j])).Value?)
    && (if ErrorFree(ts[k]) then cmds[k].process(RepOf(ts[k])) == Error(error)
        else error == ServerError(FirstError(ts[k])))
  }

  /** Every reply goes to its own command, up to the first that throws. */
  ghost predicate EachInTurn<T>(r: S.Result<seq<T>>, cmds: seq<Command<T>>, ts: seq<Node>) {
    match r
    case Ok(values) => EachResult(cmds, ts, values)
    case Fail(Thrown(error)) => exists k :: ThrowsAt(cmds, ts, k, error)
    case Fail(Short) => true
    case Fail(Blocked) => false
  }

  /** The same once all replies have been read: an error among them is thrown
      before any is processed. */
  ghost predicate ReadThenProcessed<T>(r: S.Result<seq<T>>, cmds: seq<Command<T>>, ts: seq<Node>) {
    if forall k :: 0 <= k < |ts| ==> ErrorFree(ts[k]) then EachInTurn(r, cmds, ts)
    else
      r == S.Fail(S.Short)
      || exists k :: 0 <= k < |ts| && !ErrorFree(ts[k]) && (forall j :: 0 <= j < k ==> ErrorFree(ts[j]))
                     && r == S.Fail(S.Thrown(ServerError(FirstError(ts[k]))))
  }

  /** From the resolvers of commands to the commands. */
  lemma InTurnFromNodes<T>(r: S.Result<seq<T>>, cmds: seq<Command<T>>, ts: seq<Node>)
    requires |cmds| == |ts| && (r != S.Fail(S.Short) ==> r == Thrown(ResolveNodes(ts, Processors(cmds))))
    ensures EachInTurn(r, cmds, ts)
  {
    var fs := Processors(cmds);
    ResolvedEach(ts, fs);
    match ResolveNodes(ts, fs)
    case Value(values) =>
    case Error(error) => assert ThrowsAt(cmds, ts, Consumed(ts, fs) - 1, error);
  }

  lemma FromStatic<T>(r: S.Result<seq<T>>, cmds: seq<Command<T>>, ts: seq<Node>)
    requires |cmds| == |ts| && (r != S.Fail(S.Short) ==> r == Thrown(ResolveStatic(ts, Processors(cmds))))
    ensures ReadThenProcessed(r, cmds, ts)
  {
    StaticOutcome(ts);
    if AllErrorFree(ts) {
      RepsAreNodes(ts, Processors(cmds));
      InTurnFromNodes(r, cmds, ts);
    } else {
      var k := C.FirstBad(ts);
      assert forall j :: 0 <= j < k ==> ts[..k][j] == ts[j];
    }
  }

  // ------------------------------------------------------ the reference

  /** The commands executed one after the other, each result before the next
      command, up to the first that throws: the results, and the server. */
  function OneByOne<T>(rules: Rules, st: State, rs: seq<Request>, fs: seq<Resolver<T>>): (State, Try<seq<T>>)
    requires |rs| == |fs|
    decreases |rs|
  {
    if rs == [] then (st, Value([]))
    else
      var (st', t) := Step(rules, st, rs[0]);
      match ResolveNode(t, fs[0])
      case Error(error) => (st', Error(error))
      case Value(value) =>
        var (last, more) := OneByOne(rules, st', rs[1..], fs[1..]);
        match more
        case Error(error) => (last, Error(error))
        case Value(values) => (last, Value([value] + values))
  }

  /** A pipeline gives what executing its commands in turn gives, results and
      errors alike. The server differs only in having run the commands behind
      the first one that throws as well. */
  lemma {:induction false} PipelineIsOneByOne<T>(rules: Rules, st: State, rs: seq<Request>, fs: seq<Resolver<T>>)
    requires |rs| == |fs|
    ensures var ts := Replies(rules, st, rs);
            OneByOne(rules, st, rs, fs) == (After(rules, st, rs[..Consumed(ts, fs)]), ResolveNodes(ts, fs))
    decreases |rs|
  {
    var ts := Replies(rules, st, rs);
    if rs != [] {
      var (st', t) := Step(rules, st, rs[0]);
      assert ts[0] == t && ts[1..] == Replies(rules, st', rs[1..]);
      var k := Consumed(ts, fs);
      if ResolveNode(t, fs[0]).Error? {
        assert rs[..1][1..] == [];
      } else {
        PipelineIsOneByOne(rules, st', rs[1..], fs[1..]);
        assert rs[..k][0] == rs[0] && rs[..k][1..] == rs[1..][..k - 1];
      }
    } else {
      assert rs[..0] == [];
    }
  }

  // --------------------------------------------- static against dynamic form

  /** The static pipeline has read every reply before it processes the first. */
  function ResolveStatic<T>(ts: seq<Node>, fs: seq<Resolver<T>>): Try<seq<T>>
    requires |ts| == |fs|
  {
    if !AllErrorFree(ts) then Error(ServerError(FirstErrorOf(ts)))
    else ResolveReps(RepsOf(ts), fs)
  }

  lemma {:induction false} FirstErrorAt(ts: seq<Node>)
    requires !AllErrorFree(ts)
    ensures var k := C.FirstBad(ts); k < |ts| && FirstErrorOf(ts) == FirstError(ts[k])
  {
    if ErrorFree(ts[0]) {
      FirstElementFree(ts);
      FirstErrorAt(ts[1..]);
    }
  }

  /** Where both forms of a pipeline give the same: always, errors of processing
      included, unless a reply is processed in vain before the first error reply;
      then the dynamic form throws what processing threw. With an error reply the
      static form throws the first, whatever processing would throw. */
  lemma {:induction false} StaticAgainstDynamic<T>(ts: seq<Node>, fs: seq<Resolver<T>>)
    requires |ts| == |fs|
    ensures var k := C.FirstBad(ts);
            var early := ResolveReps(RepsOf(ts[..k]), fs[..k]);
            && (k == |ts| ==> ResolveStatic(ts, fs) == ResolveNodes(ts, fs))
            && (k < |ts| ==> ResolveStatic(ts, fs) == Error(ServerError(FirstError(ts[k]))))
            && ResolveNodes(ts, fs) == if early.Value? then ResolveStatic(ts, fs) else early
  {
    var k := C.FirstBad(ts);
    if k == |ts| {
      assert ts[..k] == ts && fs[..k] == fs;
      RepsAreNodes(ts, fs);
    } else {
      assert !AllErrorFree(ts);
      FirstErrorAt(ts);
      StopsAt(ts, fs, k);
    }
  }

  /** Without an error reply the static form gives what executing the commands in
      turn gives. */
  lemma StaticIsOneByOne<T>(rules: Rules, st: State, rs: seq<Request>, fs: seq<Resolver<T>>)
    requires |rs| == |fs|
    ensures var ts := Replies(rules, st, rs);
            AllErrorFree(ts) ==> ResolveStatic(ts, fs) == OneByOne(rules, st, rs, fs).1
  {
    var ts := Replies(rules, st, rs);
    PipelineIsOneByOne(rules, st, rs, fs);
    if AllErrorFree(ts) {
      RepsAreNodes(ts, fs);
    }
  }

  lemma {:induction false} StopsAt<T>(ts: seq<Node>, fs: seq<Resolver<T>>, k: nat)
    requires |ts| == |fs| && k < |ts| && AllErrorFree(ts[..k]) && !ErrorFree(ts[k])
    ensures var early := ResolveReps(RepsOf(ts[..k]), fs[..k]);
            ResolveNodes(ts, fs) == if early.Value? then Error(ServerError(FirstError(ts[k]))) else early
  {
    if k == 0 {
    } else {
      assert ts[..k][0] == ts[0] && ts[..k][1..] == ts[1..][..k - 1] && fs[..k][1..] == fs[1..][..k - 1];
      StopsAt(ts[1..], fs[1..], k - 1);
      assert RepsOf(ts[..k])[1..] == RepsOf(ts[..k][1..]);
    }
  }

  /** What process_transaction_reply makes of the reply to EXEC. */
  function ResolveExecStatic<T>(t: Node, fs: seq<Resolver<T>>): Try<seq<T>> {
    if !ErrorFree(t) then Error(ServerError(FirstError(t)))
    else if (if t.List? then |t.elems| else 0) != |fs| then Error(UnexpectedReplies)
    else if !t.List? then Error(NotAnArray)
    else ResolveReps(RepsOf(t.elems), fs)
  }

  /** A transaction gives what executing its commands in turn gives when no
      answer holds an error; with an error in an answer it gives no result at
      all, although every command has been executed. */
  lemma TransactionIsOneByOne<T>(rules: Rules, data: Data, rs: seq<Request>, fs: seq<Resolver<T>>)
    requires AllData(rs) && NoneRefused(rules, rs) && |rs| == |fs|
    ensures var t := ExecReply(rules, data, rs);
            var answers: seq<Node> := Answers(rules, data, rs);
            && ResolveExec(t, fs) == ResolveExecStatic(t, fs)
            && ResolveExec(t, fs) == (if AllErrorFree(answers) then OneByOne(rules, State(data, Normal), rs, fs).1
                                      else Error(ServerError(FirstErrorOf(answers))))
  {
    var answers: seq<Node> := Answers(rules, data, rs);
    PlainRun(rules, data, rs);
    PipelineIsOneByOne(rules, State(data, Normal), rs, fs);
    if AllErrorFree(answers) {
      RepsAreNodes(answers, fs);
    }
  }

  /** A transaction that is kept: every answer goes to its own command, once all
      of them have been read. */
  lemma FromExec<T>(r: S.Result<seq<T>>, cmds: seq<Command<T>>, rules: Rules, data: Data, rs: seq<Request>)
    requires NoneRefused(rules, rs) && |cmds| == |rs|
    requires r != S.Fail(S.Short) ==> r == Thrown(ResolveExec(ExecReply(rules, data, rs), Processors(cmds)))
    ensures ReadThenProcessed(r, cmds, Answers(rules, data, rs))
  {
    FromStatic(r, cmds, Answers(rules, data, rs));
  }

  /** What the last of the commands that OneByOne executes leaves unread. */
  function LastLeft<T>(rules: Rules, st: State, rs: seq<Request>, fs: seq<Resolver<T>>): seq<Node>
    requires |rs| == |fs|
  {
    var ts := Replies(rules, st, rs);
    var k := Consumed(ts, fs);
    if k == 0 then [] else Leftover(ts[k - 1])
  }

  lemma LastLeftOfAll<T>(rules: Rules, st: State, rs: seq<Request>, fs: seq<Resolver<T>>, values: seq<T>)
    requires |rs| == |fs| && Resolved(Replies(rules, st, rs), fs, |rs|, values)
    ensures var ts := Replies(rules, st, rs); ResolveNodes(ts, fs) == Value(values) && Consumed(ts, fs) == |rs|
    ensures LastLeft(rules, st, rs, fs) == [] && rs[..|rs|] == rs
  {
    var ts := Replies(rules, st, rs);
    assert ts[..|ts|] == ts;
    ResolvedAll(ts, fs, values);
    if rs != [] {
      ResolvedAreFree(ts, fs);
      NothingLeftOver(ts[|ts| - 1]);
    }
  }

  // ------------------------------------------------------------ the client

  /** Nothing is in flight or left over, and all replies to `rs` can be sent. */
  ghost predicate Answerable(ctx: C.Context, rs: seq<Request>)
    reads ctx, ctx.sock, ctx.sock.buf
  {
    && ctx.InOrder() && ctx.Ready() && |rs| + 2 < C.INT_MAX
    && AllPrintable(Replies(ctx.sock.rules, ctx.Final(), rs))
  }

  class Redis {
    const ctx: C.Context

    constructor (ctx: C.Context)
      ensures this.ctx == ctx
    {
      this.ctx := ctx;
    }

    /** Redis::_run. */
    method Run<T>(cmd: Command<T>, ghost r: Request) returns (result: S.Result<T>)
      requires ctx.Valid() && SendableRequest(r) && cmd.bytes == Wire(r)
      requires Printable(Step(ctx.sock.rules, ctx.Final(), r).1)
      modifies ctx, ctx.sock, ctx.sock.buf
      ensures old(ctx.inFlight) > 0 ==>
                && result == S.Fail(S.Thrown(RequestsPending)) && ctx.Valid() && ctx.inFlight == old(ctx.inFlight)
                && ctx.Expected() == old(ctx.Expected()) && ctx.Final() == old(ctx.Final())
      ensures old(ctx.inFlight) == 0 ==>
                var (st, t) := Step(ctx.sock.rules, old(ctx.Final()), r);
                var ts := old(ctx.Expected()) + [t];
                && ctx.Final() == st && ctx.inFlight == 0
                && (result != S.Fail(S.Short) ==>
                      && ctx.Valid() && result == Thrown(ResolveNode(ts[0], cmd.process))
                      && ctx.Expected() == C.Remains(ts, 1))
      ensures ctx.sock.Prompt() ==> result != S.Fail(S.Short)
    {
      var reply := ctx.Execute(cmd.bytes, r);
      if reply.Fail? {
        return S.Fail(reply.failure);
      }
      return Thrown(cmd.process(reply.value));
    }

    /** Calling _run on each command in turn. */
    method RunInTurn<T>(cmds: seq<Command<T>>, ghost rs: seq<Request>) returns (r: S.Result<seq<T>>)
      requires Answerable(ctx, rs) && Carries(cmds, rs)
      modifies ctx, ctx.sock, ctx.sock.buf
      ensures r != S.Fail(S.Short) ==>
                var (last, result) := OneByOne(ctx.sock.rules, old(ctx.Final()), rs, Processors(cmds));
                && r == Thrown(result) && ctx.Final() == last && ctx.inFlight == 0 && ctx.Valid()
                && ctx.Expected() == LastLeft(ctx.sock.rules, old(ctx.Final()), rs, Processors(cmds))
      ensures EachInTurn(r, cmds, Replies(ctx.sock.rules, old(ctx.Final()), rs))
      ensures ctx.sock.Prompt() ==> r != S.Fail(S.Short)
    {
      ghost var rules, st, fs := ctx.sock.rules, ctx.Final(), Processors(cmds);
      PipelineIsOneByOne(rules, st, rs, fs);
      var result: seq<T> := [];
      for i := 0 to |cmds|
        invariant ctx.Valid() && ctx.Ready() && ctx.Expected() == []
        invariant ctx.Final() == After(rules, st, rs[..i])
        invariant Resolved(Replies(rules, st, rs), fs, i, result)
      {
        var value := RunNext(cmds, rs, st, i, result);
        if value.Fail? {
          InTurnFromNodes<T>(S.Fail(value.failure), cmds, Replies(rules, st, rs));
          return S.Fail(value.failure);
        }
        result := result + [value.value];
      }
      LastLeftOfAll(rules, st, rs, fs, result);
      InTurnFromNodes(S.Ok(result), cmds, Replies(rules, st, rs));
      return S.Ok(result);
    }

    /** The i-th of these calls. */
    method RunNext<T>(cmds: seq<Command<T>>, ghost rs: seq<Request>, ghost st: State, i: nat, ghost result: seq<T>)
      returns (r: S.Result<T>)
      requires Carries(cmds, rs) && i < |rs| && AllPrintable(Replies(ctx.sock.rules, st, rs))
      requires ctx.Valid() && ctx.Ready() && ctx.Expected() == []
      requires ctx.Final() == After(ctx.sock.rules, st, rs[..i])
      requires Resolved(Replies(ctx.sock.rules, st, rs), Processors(cmds), i, result)
      modifies ctx, ctx.sock, ctx.sock.buf
      ensures ctx.inFlight == 0 && ctx.Final() == After(ctx.sock.rules, st, rs[..i + 1])
      ensures r != S.Fail(S.Short) ==> ctx.Valid()
      ensures r.Ok? ==>
                && ctx.Expected() == []
                && Resolved(Replies(ctx.sock.rules, st, rs), Processors(cmds), i + 1, result + [r.value])
      ensures r.Fail? && r != S.Fail(S.Short) ==>
                var ts, fs := Replies(ctx.sock.rules, st, rs), Processors(cmds);
                && S.Fail(r.failure) == Thrown(ResolveNodes(ts, fs)) && Consumed(ts, fs) == i + 1
                && ctx.Expected() == LastLeft(ctx.sock.rules, st, rs, fs)
      ensures ctx.sock.Prompt() ==> r != S.Fail(S.Short)
    {
      ghost var ts, fs := Replies(ctx.sock.rules, st, rs), Processors(cmds);
      ReplyAt(ctx.sock.rules, st, rs, i);
      ResolvedNext(ts, fs, i, result);
      NothingLeftOver(ts[i]);
      assert ts[..|fs|] == ts;
      assert [] + [ts[i]] == [ts[i]] && C.Remains([ts[i]], 1) == Leftover(ts[i]);
      r := Run(cmds[i], rs[i]);
    }

    /** The appends of the static forms. */
    method AppendAll<T>(cmds: seq<Command<T>>, ghost rs: seq<Request>)
      requires ctx.Valid() && Carries(cmds, rs) && ctx.inFlight + |rs| < C.INT_MAX
      requires AllPrintable(Replies(ctx.sock.rules, ctx.Final(), rs))
      modifies ctx
      ensures ctx.Valid() && ctx.inFlight == old(ctx.inFlight) + |rs|
      ensures ctx.Expected() == old(ctx.Expected()) + Replies(ctx.sock.rules, old(ctx.Final()), rs)
      ensures ctx.Final() == After(ctx.sock.rules, old(ctx.Final()), rs)
    {
      ghost var before := ctx.Expected();
      assert before + [] == before;
      AppendFrom(cmds, 0, before, ctx.Final(), rs);
      assert rs[..|rs|] == rs;
    }

    method AppendFrom<T>(cmds: seq<Command<T>>, i: nat,
                         ghost before: seq<Node>, ghost st: State, ghost rs: seq<Request>)
      requires ctx.Valid() && Carries(cmds, rs) && i <= |rs| && ctx.inFlight + |rs| - i < C.INT_MAX
      requires Reached(before, st, rs, i) && AllPrintable(Replies(ctx.sock.rules, st, rs))
      modifies ctx
      ensures ctx.Valid() && ctx.inFlight == old(ctx.inFlight) + |rs| - i
      ensures Reached(before, st, rs, |rs|)
      decreases |cmds| - i
    {
      if i < |cmds| {
        ReachedNext(before, st, rs, i);
        ctx.Append(cmds[i].bytes, rs[i]);
        AppendFrom(cmds, i + 1, before, st, rs);
      }
    }

    /** What the next append brings about. */
    lemma ReachedNext(before: seq<Node>, st: State, rs: seq<Request>, i: nat)
      requires i < |rs| && Reached(before, st, rs, i) && AllPrintable(Replies(ctx.sock.rules, st, rs))
      ensures var (st', t) := Step(ctx.sock.rules, ctx.Final(), rs[i]);
              && Printable(t)
              && ctx.Expected() + [t] == before + Replies(ctx.sock.rules, st, rs[..i + 1])
              && st' == After(ctx.sock.rules, st, rs[..i + 1])
    {
      ReplyAt(ctx.sock.rules, st, rs, i);
      var some, next := Replies(ctx.sock.rules, st, rs[..i]), Replies(ctx.sock.rules, st, rs)[i];
      assert before + some + [next] == before + (some + [next]);
    }

    /** The _run calls on a pipeline object. */
    method Fill<T>(p: BasicPipeline<T>, cmds: seq<Command<T>>, ghost rs: seq<Request>)
      requires p.ctx == ctx && p.Valid() && !p.resolved && p.resolvers == []
      requires Carries(cmds, rs) && ctx.inFlight + |rs| < C.INT_MAX
      requires AllPrintable(Replies(ctx.sock.rules, ctx.Final(), rs))
      modifies p, ctx
      ensures p.Valid() && !p.resolved && p.resolvers == Processors(cmds)
      ensures ctx.inFlight == old(ctx.inFlight) + |rs|
      ensures ctx.Expected() == old(ctx.Expected()) + Replies(ctx.sock.rules, old(ctx.Final()), rs)
      ensures ctx.Final() == After(ctx.sock.rules, old(ctx.Final()), rs)
    {
      ghost var before := ctx.Expected();
      assert before + [] == before;
      FillFrom(p, cmds, 0, before, ctx.Final(), rs);
      assert rs[..|rs|] == rs;
    }

    method FillFrom<T>(p: BasicPipeline<T>, cmds: seq<Command<T>>, i: nat,
                       ghost before: seq<Node>, ghost st: State, ghost rs: seq<Request>)
      requires p.ctx == ctx && p.Valid() && !p.resolved && Carries(cmds, rs)
      requires i <= |cmds| && p.resolvers == Processors(cmds)[..i] && ctx.inFlight + |rs| - i < C.INT_MAX
      requires Reached(before, st, rs, i) && AllPrintable(Replies(ctx.sock.rules, st, rs))
      modifies p, ctx
      ensures p.Valid() && !p.resolved && p.resolvers == Processors(cmds)
      ensures ctx.inFlight == old(ctx.inFlight) + |rs| - i
      ensures Reached(before, st, rs, |rs|)
      decreases |cmds| - i
    {
      if i < |cmds| {
        FillOne(p, cmds, i, before, st, rs);
        TakeOneMore(Processors(cmds), i);
        FillFrom(p, cmds, i + 1, before, st, rs);
      }
    }

    /** The first i of `rs` have been appended since the state was `st`. */
    ghost predicate Reached(before: seq<Node>, st: State, rs: seq<Request>, i: nat)
      requires i <= |rs|
      reads ctx, ctx.sock
    {
      && ctx.Expected() == before + Replies(ctx.sock.rules, st, rs[..i])
      && ctx.Final() == After(ctx.sock.rules, st, rs[..i])
    }

    /** One _run call on a pipeline object. */
    method FillOne<T>(p: BasicPipeline<T>, cmds: seq<Command<T>>, i: nat,
                      ghost before: seq<Node>, ghost st: State, ghost rs: seq<Request>)
      requires p.ctx == ctx && p.Valid() && !p.resolved && ctx.inFlight < C.INT_MAX
      requires Carries(cmds, rs) && i < |rs|
      requires Reached(before, st, rs, i) && AllPrintable(Replies(ctx.sock.rules, st, rs))
      modifies p, ctx
      ensures p.Valid() && !p.resolved && p.resolvers == old(p.resolvers) + [cmds[i].process]
      ensures ctx.inFlight == old(ctx.inFlight) + 1
      ensures Reached(before, st, rs, i + 1)
    {
      ReachedNext(before, st, rs, i);
      var _ := p.Run(cmds[i].bytes, cmds[i].process, rs[i]);
    }

    /** The two factories of pipeline objects, `kind` telling which: the
        constructor calls start_pipeline, which refuses while requests are
        pending. */
    method NewPipeline<T>(kind: Kind) returns (r: S.Result<BasicPipeline<T>>)
      requires ctx.Valid()
      modifies ctx
      ensures r.Ok? <==> old(ctx.Ready())
      ensures r.Fail? ==>
                && r.failure == S.Thrown(RequestsPending) && ctx.Valid() && ctx.inFlight == old(ctx.inFlight)
                && ctx.Expected() == old(ctx.Expected()) && ctx.Final() == old(ctx.Final())
      ensures r.Ok? ==>
                var p := r.value;
                && fresh(p) && p.ctx == ctx && p.kind == kind && p.Valid() && !p.resolved && p.resolvers == []
                && (kind.Pipelined? ==> ctx.Final() == old(ctx.Final()) && ctx.Expected() == old(ctx.Expected()))
                && (kind.Transactional? ==>
                      var (st, t) := Step(ctx.sock.rules, old(ctx.Final()), MULTI);
                      ctx.Final() == st && ctx.Expected() == old(ctx.Expected()) + [t])
                && ctx.inFlight == |Prologue(kind)|
    {
      var started := ctx.StartPipeline();
      if started.Fail? {
        return S.Fail(started.failure);
      }
      var p := new BasicPipeline<T>(ctx, kind);
      return S.Ok(p);
    }

    /** Destruction of a CommandQueue with `m` requests in flight: `closed` is
        Fail when an error reply among the first `m` of `left` is thrown out of
        the destructor; otherwise the others are still to be read. */
    ghost predicate Closed(closed: S.Result<()>, left: seq<Node>, m: int)
      requires 0 <= m <= |left|
      reads ctx, ctx.sock, ctx.sock.buf
    {
      closed != S.Fail(S.Short) ==>
        && (closed.Ok? <==> AllErrorFree(left[..m]))
        && (closed.Ok? ==> ctx.Valid() && ctx.Ready() && ctx.Expected() == left[m..])
    }

    /** ~CommandQueue. */
    method Close() returns (closed: S.Result<()>)
      requires ctx.Valid()
      modifies ctx, ctx.sock, ctx.sock.buf
      ensures ctx.Final() == old(ctx.Final()) && Closed(closed, old(ctx.Expected()), old(ctx.inFlight))
      ensures ctx.sock.Prompt() ==> closed != S.Fail(S.Short)
    {
      FreeInFront(ctx.Expected(), ctx.inFlight);
      closed := ctx.DiscardAll();
    }

    /** The destructors of a pipeline that has been executed. */
    method Destroy<T>(p: BasicPipeline<T>) returns (closed: S.Result<()>)
      requires p.ctx == ctx && p.Valid() && p.resolved && ctx.inFlight < C.INT_MAX
      modifies p, ctx, ctx.sock, ctx.sock.buf
      ensures ctx.Final() == old(ctx.Final()) && Closed(closed, old(ctx.Expected()), old(ctx.inFlight))
      ensures ctx.sock.Prompt() ==> closed != S.Fail(S.Short)
    {
      closed := p.Destroy();
    }

    /** execute() on a filled pipeline, and the end of its scope. */
    method FinishPipeline<T>(p: BasicPipeline<T>) returns (r: S.Result<seq<T>>, closed: S.Result<()>)
      requires p.ctx == ctx && p.Valid() && !p.resolved && p.kind == Pipelined && ctx.inFlight < C.INT_MAX
      modifies p, ctx, ctx.sock, ctx.sock.buf
      ensures ctx.Final() == old(ctx.Final())
      ensures var ts, fs := old(ctx.Expected()), old(p.resolvers);
              && |fs| <= |ts|
              && var front := ts[..|fs|];
                 var k := Consumed(front, fs);
                 && (r != S.Fail(S.Short) ==> r == Thrown(ResolveNodes(front, fs)))
                 && Closed(closed, C.Remains(ts, k), |fs| - k)
      ensures ctx.sock.Prompt() ==> r != S.Fail(S.Short) && closed != S.Fail(S.Short)
    {
      hide ErrorFree, AllErrorFree, Leftover, C.Remains, Consumed, ResolveNode, ResolveNodes, Replies, After, Step;
      r := p.Execute();
      if r == S.Fail(S.Short) {
        return r, S.Fail(S.Short);
      }
      closed := Destroy(p);
    }

    /** A dynamic pipeline from its construction to its destruction: its results
        are those of executing the commands in turn. If it fails at reply k - 1,
        the destructor goes on reading behind the error, and gets through if and
        only if the next |rs| - k replies it finds there hold none. */
    method PipelineDynamic<T>(cmds: seq<Command<T>>, ghost rs: seq<Request>)
      returns (r: S.Result<seq<T>>, closed: S.Result<()>)
      requires Answerable(ctx, rs) && Carries(cmds, rs)
      modifies ctx, ctx.sock, ctx.sock.buf
      ensures ctx.Final() == After(ctx.sock.rules, old(ctx.Final()), rs)
      ensures r != S.Fail(S.Short) ==>
                r == Thrown(OneByOne(ctx.sock.rules, old(ctx.Final()), rs, Processors(cmds)).1)
      ensures EachInTurn(r, cmds, Replies(ctx.sock.rules, old(ctx.Final()), rs))
      ensures var ts := Replies(ctx.sock.rules, old(ctx.Final()), rs);
              var k := Consumed(ts, Processors(cmds));
              Closed(closed, C.Remains(ts, k), |ts| - k)
      ensures ctx.sock.Prompt() ==> r != S.Fail(S.Short) && closed != S.Fail(S.Short)
    {
      hide ErrorFree, AllErrorFree, Leftover, C.Remains;
      hide Consumed, ResolveNode, ResolveNodes, OneByOne, Replies, After, Step;
      ghost var ts := Replies(ctx.sock.rules, ctx.Final(), rs);
      PipelineIsOneByOne(ctx.sock.rules, ctx.Final(), rs, Processors(cmds));
      var p := FilledPipeline(cmds, rs);
      assert ts[..|rs|] == ts;
      r, closed := FinishPipeline(p);
      InTurnFromNodes(r, cmds, ts);
    }

    /** A pipeline object with its commands. */
    method FilledPipeline<T>(cmds: seq<Command<T>>, ghost rs: seq<Request>) returns (p: BasicPipeline<T>)
      requires Answerable(ctx, rs) && Carries(cmds, rs)
      modifies ctx
      ensures fresh(p) && p.ctx == ctx && p.kind == Pipelined && p.Valid() && !p.resolved
      ensures p.resolvers == Processors(cmds) && ctx.inFlight == |rs|
      ensures ctx.Expected() == Replies(ctx.sock.rules, old(ctx.Final()), rs)
      ensures ctx.Final() == After(ctx.sock.rules, old(ctx.Final()), rs)
    {
      assert ctx.Expected() == [] && [] + Replies(ctx.sock.rules, ctx.Final(), rs)
                                     == Replies(ctx.sock.rules, ctx.Final(), rs);
      var made := NewPipeline<T>(Pipelined);
      p := made.value;
      Fill(p, cmds, rs);
    }

    /** A pipeline that is never executed: its destructor sends the commands and
        waits for their replies, so all of them take effect. */
    method AbandonPipeline<T>(cmds: seq<Command<T>>, ghost rs: seq<Request>) returns (closed: S.Result<()>)
      requires Answerable(ctx, rs) && Carries(cmds, rs)
      modifies ctx, ctx.sock, ctx.sock.buf
      ensures ctx.Final() == After(ctx.sock.rules, old(ctx.Final()), rs)
      ensures closed != S.Fail(S.Short) ==>
                (closed.Ok? <==> AllErrorFree(Replies(ctx.sock.rules, old(ctx.Final()), rs)))
      ensures closed.Ok? ==> ctx.InOrder() && ctx.Ready()
      ensures ctx.sock.Prompt() ==> closed != S.Fail(S.Short)
    {
      ghost var ts := Replies(ctx.sock.rules, ctx.Final(), rs);
      assert ts[..|ts|] == ts;
      var p := FilledPipeline(cmds, rs);
      closed := p.Destroy();
    }

    /** What execute() returns for a transaction, `m` being the number of the
        reply taken for that to EXEC, and what is drained behind it. */
    ghost predicate TransactionEnded<T>(r: S.Result<seq<T>>, closed: S.Result<()>,
                                        ts: seq<Node>, m: nat, exec: Try<seq<T>>)
      requires m < |ts|
      reads ctx, ctx.sock, ctx.sock.buf
    {
      var k := C.FirstBad(ts[..m]);
      && (r != S.Fail(S.Short) ==>
            r == if k < m then S.Fail(S.Thrown(ServerError(FirstError(ts[k])))) else Thrown(exec))
      && Closed(closed, C.Remains(ts, k + 1), m - k)
    }

    /** execute() on a filled transaction, and the end of its scope. */
    method FinishTransaction<T>(p: BasicPipeline<T>) returns (r: S.Result<seq<T>>, closed: S.Result<()>)
      requires p.ctx == ctx && p.Valid() && !p.resolved && p.kind == Transactional && ctx.inFlight < C.INT_MAX - 1
      requires Printable(Step(ctx.sock.rules, ctx.Final(), EXEC).1)
      modifies p, ctx, ctx.sock, ctx.sock.buf
      ensures var (st, t) := Step(ctx.sock.rules, old(ctx.Final()), EXEC);
              var ts, m := old(ctx.Expected()) + [t], |old(p.resolvers)| + 1;
              && ctx.Final() == st && m < |ts|
              && TransactionEnded(r, closed, ts, m, ResolveExec(ts[m], old(p.resolvers)))
      ensures ctx.sock.Prompt() ==> r != S.Fail(S.Short) && closed != S.Fail(S.Short)
    {
      hide ErrorFree, AllErrorFree, FirstError, Leftover, C.Remains, C.FirstBad, C.Context.Linked;
      hide ResolveExec, Step, Printable;
      ghost var t := Step(ctx.sock.rules, ctx.Final(), EXEC).1;
      ghost var ts := ctx.Expected() + [t];
      r := p.Execute();
      if r == S.Fail(S.Short) {
        return r, S.Fail(S.Short);
      }
      closed := Destroy(p);
    }

    /** A connection on which a transaction of data commands can be run. */
    ghost predicate CanTransact<T>(cmds: seq<Command<T>>, rs: seq<Request>, data: Data)
      reads ctx, ctx.sock, ctx.sock.buf
    {
      && ctx.InOrder() && ctx.Ready() && Carries(cmds, rs) && |rs| + 2 < C.INT_MAX
      && ctx.Final() == State(data, Normal) && AllData(rs)
    }

    /** A dynamic transaction filled with data commands. */
    method OpenTransaction<T>(cmds: seq<Command<T>>, ghost rs: seq<Request>, ghost data: Data)
      returns (p: BasicPipeline<T>)
      requires CanTransact(cmds, rs, data)
      modifies ctx
      ensures fresh(p) && p.ctx == ctx && p.kind == Transactional && p.Valid() && !p.resolved
      ensures p.resolvers == Processors(cmds) && ctx.inFlight == |rs| + 1
      ensures ctx.Expected() == [OK] + QueueReplies(ctx.sock.rules, rs)
      ensures ctx.Final() == State(data, Multi(Accepted(ctx.sock.rules, rs), !NoneRefused(ctx.sock.rules, rs)))
    {
      RefusedAmongReplies(ctx.sock.rules, rs);
      Queueing(ctx.sock.rules, data, [], false, rs);
      assert [] + Accepted(ctx.sock.rules, rs) == Accepted(ctx.sock.rules, rs);
      assert ctx.Expected() == [] && [] + [OK] == [OK];
      var made := NewPipeline<T>(Transactional);
      p := made.value;
      Fill(p, cmds, rs);
    }

    /** What a transaction comes to. Its results are the elements of the EXEC
        reply, element i resolved by resolver i, and the commands take effect
        together; what stands behind an error among the elements is left unread.
        If a command is refused nothing takes effect, execute throws the
        server's error, and the error reply to EXEC is raised out of the
        destructor. */
    ghost predicate Transacted<T>(r: S.Result<seq<T>>, closed: S.Result<()>,
                                  fs: seq<Resolver<T>>, rs: seq<Request>, data: Data)
      reads ctx, ctx.sock, ctx.sock.buf
    {
      var kept, t := NoneRefused(ctx.sock.rules, rs), ExecReply(ctx.sock.rules, data, rs);
      && ctx.Final() == State(if kept then data + rs else data, Normal)
      && (r != S.Fail(S.Short) ==>
            r == if kept then Thrown(ResolveExec(t, fs)) else S.Fail(S.Thrown(ServerError(REFUSED.msg))))
      && (closed != S.Fail(S.Short) ==> (closed.Ok? <==> kept))
      && (closed.Ok? ==> ctx.Valid() && ctx.Ready() && ctx.Expected() == Leftover(t))
    }

    /** From the replies of a transaction to what it comes to. */
    lemma EndOfTransaction<T>(r: S.Result<seq<T>>, closed: S.Result<()>, ts: seq<Node>,
                              fs: seq<Resolver<T>>, rs: seq<Request>, data: Data)
      requires ctx.Final() == State(if NoneRefused(ctx.sock.rules, rs) then data + rs else data, Normal)
      requires |ts| == |rs| + 2 && FirstRefused(ctx.sock.rules, rs, ExecReply(ctx.sock.rules, data, rs), ts)
      requires TransactionEnded(r, closed, ts, |rs| + 1, ResolveExec(ts[|rs| + 1], fs))
      ensures Transacted(r, closed, fs, rs, data)
    {
      hide ErrorFree, AllErrorFree, FirstError, Leftover, C.Remains, C.FirstBad, ResolveExec, NoneRefused, ExecReply;
      RefusedIsAborted(ctx.sock.rules, rs, data);
    }

    /** A dynamic transaction from its construction to its destruction. */
    method TransactionDynamic<T>(cmds: seq<Command<T>>, ghost rs: seq<Request>, ghost data: Data)
      returns (r: S.Result<seq<T>>, closed: S.Result<()>)
      requires CanTransact(cmds, rs, data)
      modifies ctx, ctx.sock, ctx.sock.buf
      ensures Transacted(r, closed, Processors(cmds), rs, data)
      ensures NoneRefused(ctx.sock.rules, rs) ==> ReadThenProcessed(r, cmds, Answers(ctx.sock.rules, data, rs))
      ensures ctx.sock.Prompt() ==> r != S.Fail(S.Short) && closed != S.Fail(S.Short)
    {
      hide ErrorFree, AllErrorFree, FirstError, Leftover, C.Remains, C.FirstBad, ResolveExec, Step, ExecReply;
      var p := OpenTransaction(cmds, rs, data);
      LastReply(ctx.sock.rules, data, rs);
      ghost var t := ExecReply(ctx.sock.rules, data, rs);
      ghost var ts := ctx.Expected() + [t];
      TransactionReplies(ctx.sock.rules, rs, t);
      r, closed := FinishTransaction(p);
      EndOfTransaction(r, closed, ts, Processors(cmds), rs, data);
      if NoneRefused(ctx.sock.rules, rs) {
        FromExec(r, cmds, ctx.sock.rules, data, rs);
      }
    }

    /** A transaction that is never executed: its destructor sends DISCARD. */
    method AbandonTransaction<T>(cmds: seq<Command<T>>, ghost rs: seq<Request>, ghost data: Data)
      returns (closed: S.Result<()>)
      requires CanTransact(cmds, rs, data)
      modifies ctx, ctx.sock, ctx.sock.buf
      ensures ctx.Final() == State(data, Normal)
      ensures closed != S.Fail(S.Short) ==> (closed.Ok? <==> NoneRefused(ctx.sock.rules, rs))
      ensures closed.Ok? ==> ctx.InOrder() && ctx.Ready()
      ensures ctx.sock.Prompt() ==> closed != S.Fail(S.Short)
    {
      var p := OpenTransaction(cmds, rs, data);
      DiscardedReplies(ctx.sock.rules, rs);
      closed := p.Destroy();
    }

    /** `Reply replies[] = {...}`: n replies, or the first one that throws. */
    method ReadReplies(n: nat) returns (r: S.Result<seq<Rep>>)
      requires ctx.Valid() && n == ctx.inFlight
      modifies ctx, ctx.sock, ctx.sock.buf
      ensures ctx.Final() == old(ctx.Final())
      ensures r != S.Fail(S.Short) ==> RepliesRead(r, old(ctx.Expected()), n)
      ensures ctx.sock.Prompt() ==> r != S.Fail(S.Short)
    {
      hide ErrorFree, FirstError, Leftover, C.FirstBad;
      ghost var ts := ctx.Expected();
      var reps: seq<Rep> := [];
      for i := 0 to n
        invariant ctx.Valid() && ctx.inFlight == n - i && ctx.Final() == old(ctx.Final())
        invariant ctx.Expected() == ts[i..] && AllErrorFree(ts[..i]) && reps == RepsOf(ts[..i])
      {
        C.FirstBadAt(ts, i);
        C.RemainsLater(ts, i);
        var rep := ctx.GetReply();
        if rep.Fail? {
          return S.Fail(rep.failure);
        }
        C.NextOne(ts, i);
        RepsNext(ts, i);
        reps := reps + [rep.value];
      }
      C.FirstBadAt(ts, n);
      return S.Ok(reps);
    }

    ghost predicate RepliesRead(r: S.Result<seq<Rep>>, ts: seq<Node>, n: nat)
      requires n <= |ts|
      reads ctx, ctx.sock, ctx.sock.buf
    {
      var k := C.FirstBad(ts);
      && ctx.Valid()
      && if k < n then
           && r == S.Fail(S.Thrown(ServerError(FirstError(ts[k]))))
           && ctx.inFlight == n - k - 1 && ctx.Expected() == C.Remains(ts, k + 1)
         else
           && AllErrorFree(ts[..n]) && r == S.Ok(RepsOf(ts[..n]))
           && ctx.inFlight == 0 && ctx.Expected() == ts[n..]
    }

    /** The replies of the static pipeline, and the end of its CommandQueue. */
    method ReadAndClose(n: nat) returns (r: S.Result<seq<Rep>>, closed: S.Result<()>)
      requires ctx.Valid() && n == ctx.inFlight
      modifies ctx, ctx.sock, ctx.sock.buf
      ensures ctx.Final() == old(ctx.Final())
      ensures var ts := old(ctx.Expected());
              var k := C.FirstBad(ts);
              if k < n then
                && (r != S.Fail(S.Short) ==> r == S.Fail(S.Thrown(ServerError(FirstError(ts[k])))))
                && Closed(closed, C.Remains(ts, k + 1), n - k - 1)
              else
                && AllErrorFree(ts[..n]) && (r != S.Fail(S.Short) ==> r == S.Ok(RepsOf(ts[..n])))
                && Closed(closed, ts[n..], 0)
      ensures ctx.sock.Prompt() ==> r != S.Fail(S.Short) && closed != S.Fail(S.Short)
    {
      hide ErrorFree, AllErrorFree, FirstError, Leftover, C.Remains, C.FirstBad, RepsOf, C.Context.Linked;
      FreeInFront(ctx.Expected(), n);
      r := ReadReplies(n);
      if r == S.Fail(S.Short) {
        return r, S.Fail(S.Short);
      }
      closed := Close();
    }

    /** The static pipeline: all replies are read before the first is processed. */
    method PipelineStatic<T>(cmds: seq<Command<T>>, ghost rs: seq<Request>)
      returns (r: S.Result<seq<T>>, closed: S.Result<()>)
      requires Answerable(ctx, rs) && Carries(cmds, rs)
      modifies ctx, ctx.sock, ctx.sock.buf
      ensures ctx.Final() == After(ctx.sock.rules, old(ctx.Final()), rs)
      ensures StaticEnded(r, closed, Replies(ctx.sock.rules, old(ctx.Final()), rs), Processors(cmds))
      ensures var ts := Replies(ctx.sock.rules, old(ctx.Final()), rs);
              && ReadThenProcessed(r, cmds, ts)
              && (AllErrorFree(ts) && r != S.Fail(S.Short) ==>
                    r == Thrown(OneByOne(ctx.sock.rules, old(ctx.Final()), rs, Processors(cmds)).1))
      ensures ctx.sock.Prompt() ==> r != S.Fail(S.Short) && closed != S.Fail(S.Short)
    {
      ghost var ts := Replies(ctx.sock.rules, ctx.Final(), rs);
      assert ctx.Expected() + ts == ts;
      var _ := ctx.StartPipeline();
      AppendAll(cmds, rs);
      StaticIsOneByOne(ctx.sock.rules, old(ctx.Final()), rs, Processors(cmds));
      r, closed := FinishStatic(cmds);
      FromStatic(r, cmds, ts);
    }

    /** The replies `ts` have been read up to the first error, processed if there
        is none, and the rest drained. */
    ghost predicate StaticEnded<T>(r: S.Result<seq<T>>, closed: S.Result<()>,
                                   ts: seq<Node>, fs: seq<Resolver<T>>)
      requires |ts| == |fs|
      reads ctx, ctx.sock, ctx.sock.buf
    {
      var k := C.FirstBad(ts);
      && (r != S.Fail(S.Short) ==> r == Thrown(ResolveStatic(ts, fs)))
      && if k < |ts| then Closed(closed, C.Remains(ts, k + 1), |ts| - k - 1) else Closed(closed, [], 0)
    }

    /** The part of the static pipeline behind its appends. */
    method FinishStatic<T>(cmds: seq<Command<T>>) returns (r: S.Result<seq<T>>, closed: S.Result<()>)
      requires ctx.Valid() && |cmds| == ctx.inFlight == |ctx.Expected()|
      modifies ctx, ctx.sock, ctx.sock.buf
      ensures ctx.Final() == old(ctx.Final()) && StaticEnded(r, closed, old(ctx.Expected()), Processors(cmds))
      ensures ctx.sock.Prompt() ==> r != S.Fail(S.Short) && closed != S.Fail(S.Short)
    {
      hide ErrorFree, AllErrorFree, FirstError, FirstErrorOf, Leftover, C.Remains, C.FirstBad, ResolveReps, RepsOf;
      ghost var ts := ctx.Expected();
      assert ts[..|ts|] == ts && ts[|ts|..] == [];
      StaticOutcome(ts);
      var replies;
      replies, closed := ReadAndClose(|cmds|);
      if replies.Fail? {
        return S.Fail(replies.failure), closed;
      }
      return Thrown(ResolveReps(replies.value, Processors(cmds))), closed;
    }

    /** The part of the static transaction behind its appends: discard, the
        reply to EXEC, and the end of the CommandQueue. */
    method CollectTransaction<T>(cmds: seq<Command<T>>) returns (r: S.Result<seq<T>>, closed: S.Result<()>)
      requires ctx.Valid() && ctx.inFlight == |cmds| + 2
      modifies ctx, ctx.sock, ctx.sock.buf
      ensures ctx.Final() == old(ctx.Final())
      ensures var ts, m := old(ctx.Expected()), |cmds| + 1;
              TransactionEnded(r, closed, ts, m, ResolveExecStatic(ts[m], Processors(cmds)))
      ensures ctx.sock.Prompt() ==> r != S.Fail(S.Short) && closed != S.Fail(S.Short)
    {
      hide ErrorFree, AllErrorFree, FirstError, Leftover, C.Remains, C.FirstBad, C.Context.Linked, ResolveExecStatic;
      ghost var ts := ctx.Expected();
      FirstBadPrefix(ts, |cmds| + 1);
      var dropped := ctx.Discard(1 + |cmds|);
      if dropped == S.Fail(S.Short) {
        return S.Fail(S.Short), S.Fail(S.Short);
      }
      if dropped.Fail? {
        closed := Close();
        return S.Fail(dropped.failure), closed;
      }
      C.RemainsLater(ts, |cmds| + 1);
      r := ProcessTransactionReply(cmds);
      if r == S.Fail(S.Short) {
        return r, S.Fail(S.Short);
      }
      closed := Close();
    }

    /** What a reply to EXEC comes to: each element goes to its own command if it
        has one for each, and otherwise it is refused. */
    ghost predicate FromExecReply<T>(r: S.Result<seq<T>>, cmds: seq<Command<T>>, t: Node) {
      if t.List? && |t.elems| == |cmds| then ReadThenProcessed(r, cmds, t.elems)
      else if !ErrorFree(t) then r == S.Fail(S.Thrown(ServerError(FirstError(t))))
      else if cmds != [] || t.List? then r == S.Fail(S.Thrown(UnexpectedReplies))
      else r == S.Fail(S.Thrown(NotAnArray))
    }

    lemma ExecReplyProcessed<T>(cmds: seq<Command<T>>, t: Node)
      ensures FromExecReply(Thrown(ResolveExecStatic(t, Processors(cmds))), cmds, t)
    {
      if t.List? && |t.elems| == |cmds| {
        FromStatic(Thrown(ResolveExecStatic(t, Processors(cmds))), cmds, t.elems);
      }
    }

    /** process_transaction_reply on the next reply. */
    method ProcessTransactionReply<T>(cmds: seq<Command<T>>) returns (r: S.Result<seq<T>>)
      requires ctx.Valid() && ctx.inFlight == 1
      modifies ctx, ctx.sock, ctx.sock.buf
      ensures ctx.inFlight == 0 && ctx.Final() == old(ctx.Final())
      ensures r != S.Fail(S.Short) ==>
                var ts := old(ctx.Expected());
                && ctx.Valid() && r == Thrown(ResolveExecStatic(ts[0], Processors(cmds)))
                && ctx.Expected() == C.Remains(ts, 1) && FromExecReply(r, cmds, ts[0])
      ensures ctx.sock.Prompt() ==> r != S.Fail(S.Short)
    {
      ExecReplyProcessed(cmds, ctx.Expected()[0]);
      var reply := ctx.GetReply();
      if reply.Fail? {
        return S.Fail(reply.failure);
      }
      var size := if reply.value.Array? then |reply.value.elems| else 0;
      if size != |cmds| {
        return S.Fail(S.Thrown(UnexpectedReplies));
      }
      if !reply.value.Array? {
        return S.Fail(S.Thrown(NotAnArray));
      }
      return Thrown(ResolveReps(reply.value.elems, Processors(cmds)));
    }

    /** The static transaction: what it returns, does to the server and leaves
        behind is what the dynamic one does. */
    method TransactionStatic<T>(cmds: seq<Command<T>>, ghost rs: seq<Request>, ghost data: Data)
      returns (r: S.Result<seq<T>>, closed: S.Result<()>)
      requires CanTransact(cmds, rs, data)
      modifies ctx, ctx.sock, ctx.sock.buf
      ensures Transacted(r, closed, Processors(cmds), rs, data)
      ensures NoneRefused(ctx.sock.rules, rs) ==> ReadThenProcessed(r, cmds, Answers(ctx.sock.rules, data, rs))
      ensures ctx.sock.Prompt() ==> r != S.Fail(S.Short) && closed != S.Fail(S.Short)
    {
      var _ := ctx.StartPipeline();
      AppendTransaction(cmds, rs, data);
      hide ErrorFree, AllErrorFree, FirstError, Leftover, C.Remains, C.FirstBad;
      hide ResolveExec, ResolveExecStatic, ExecReply;
      ghost var ts := ctx.Expected();
      TransactionReplies(ctx.sock.rules, rs, ExecReply(ctx.sock.rules, data, rs));
      r, closed := CollectTransaction(cmds);
      SameExec(ctx.sock.rules, data, rs, Processors(cmds));
      EndOfTransaction(r, closed, ts, Processors(cmds), rs, data);
      if NoneRefused(ctx.sock.rules, rs) {
        FromExec(r, cmds, ctx.sock.rules, data, rs);
      }
    }

    method AppendTransaction<T>(cmds: seq<Command<T>>, ghost rs: seq<Request>, ghost data: Data)
      requires CanTransact(cmds, rs, data)
      modifies ctx
      ensures ctx.Valid() && ctx.inFlight == |cmds| + 2
      ensures var rules := ctx.sock.rules;
              && ctx.Expected() == [OK] + QueueReplies(rules, rs) + [ExecReply(rules, data, rs)]
              && ctx.Final() == State(if NoneRefused(rules, rs) then data + rs else data, Normal)
    {
      LiteralsAreWire();
      RefusedAmongReplies(ctx.sock.rules, rs);
      Queueing(ctx.sock.rules, data, [], false, rs);
      assert [] + Accepted(ctx.sock.rules, rs) == Accepted(ctx.sock.rules, rs);
      LastReply(ctx.sock.rules, data, rs);
      ctx.Append("*1\r\n$5\r\nMULTI\r\n", MULTI);
      assert ctx.Expected() == [OK];
      AppendAll(cmds, rs);
      ctx.Append("*1\r\n$4\r\nEXEC\r\n", EXEC);
    }
  }

  lemma StaticOutcome(ts: seq<Node>)
    ensures var k := C.FirstBad(ts);
            && (AllErrorFree(ts) <==> k == |ts|)
            && (k < |ts| ==> FirstErrorOf(ts) == FirstError(ts[k]))
  {
    FreeInFront(ts, |ts|);
    assert ts[..|ts|] == ts;
    if C.FirstBad(ts) < |ts| {
      FirstErrorAt(ts);
    }
  }

  lemma RepsNext(ts: seq<Node>, i: nat)
    requires i < |ts| && AllErrorFree(ts[..i + 1])
    ensures AllErrorFree(ts[..i]) && ErrorFree(ts[i])
    ensures RepsOf(ts[..i + 1]) == RepsOf(ts[..i]) + [RepOf(ts[i])]
  {
    assert ts[..i + 1][i] == ts[i];
    assert forall k :: 0 <= k < i ==> ts[..i][k] == ts[..i + 1][k];
  }

  /** Both forms make the same of the reply to EXEC. */
  lemma SameExec<T>(rules: Rules, data: Data, rs: seq<Request>, fs: seq<Resolver<T>>)
    requires AllData(rs) && |rs| == |fs|
    ensures var t := ExecReply(rules, data, rs); ResolveExec(t, fs) == ResolveExecStatic(t, fs)
  {
    if NoneRefused(rules, rs) {
      TransactionIsOneByOne(rules, data, rs, fs);
    }
  }

  /** The reply that ends a transaction. */
  lemma LastReply(rules: Rules, data: Data, rs: seq<Request>)
    requires AllData(rs) && IsInt64(|rs|)
    ensures var t := ExecReply(rules, data, rs);
            var st := State(data, Multi(Accepted(rules, rs), !NoneRefused(rules, rs)));
            && Step(rules, st, EXEC) == (State(if NoneRefused(rules, rs) then data + rs else data, Normal), t)
            && Printable(t)
  {
    if NoneRefused(rules, rs) {
      AllAccepted(rules, rs);
    }
  }

  /** The replies `ts` of a transaction, seen from its execute(): the first error
      before the last reply is the one to a refused command, and if the last one
      is an error too, it is among those to be drained then. */
  predicate FirstRefused(rules: Rules, rs: seq<Request>, t: Node, ts: seq<Node>)
    requires |ts| == |rs| + 2
  {
    var m := |rs| + 1;
    var k := C.FirstBad(ts[..m]);
    && ts[m] == t && (NoneRefused(rules, rs) <==> k == m)
    && (k == m ==> AllErrorFree(C.Remains(ts, k + 1)[..0]) && C.Remains(ts, k + 1)[0..] == Leftover(t))
    && (k < m ==> !ErrorFree(ts[k]) && FirstError(ts[k]) == REFUSED.msg)
    && (k < m && !ErrorFree(t) ==> !AllErrorFree(C.Remains(ts, k + 1)[..m - k]))
  }

  lemma TransactionReplies(rules: Rules, rs: seq<Request>, t: Node)
    ensures FirstRefused(rules, rs, t, [OK] + QueueReplies(rules, rs) + [t])
  {
    hide ErrorFree, AllErrorFree, FirstError, Leftover, C.Remains, C.FirstBad, NoneRefused, QueueReplies;
    var queued, m := [OK] + QueueReplies(rules, rs), |rs| + 1;
    QueuedReplies(rules, rs);
    assert (queued + [t])[..m] == queued == queued[..m];
    FreeInFront(queued, m);
    var k := C.FirstBad(queued);
    if k < m {
      RefusedIsError();
      assert (queued + [t])[k] == queued[k] == REFUSED;
      if !ErrorFree(t) {
        BehindRefused(queued, t, k);
      }
    } else {
      BehindQueued(queued, t);
    }
  }

  lemma RefusedIsError()
    ensures !ErrorFree(REFUSED) && FirstError(REFUSED) == REFUSED.msg
  {
  }

  lemma BehindQueued(queued: seq<Node>, t: Node)
    ensures var left := C.Remains(queued + [t], |queued| + 1); AllErrorFree(left[..0]) && left[0..] == Leftover(t)
  {
    assert (queued + [t])[|queued| + 1..] == [];
  }

  lemma BehindRefused(queued: seq<Node>, t: Node, k: nat)
    requires k < |queued| && queued[k] == REFUSED && !ErrorFree(t)
    ensures !AllErrorFree(C.Remains(queued + [t], k + 1)[..|queued| - k])
  {
    var ts := queued + [t];
    var left := C.Remains(ts, k + 1);
    assert left == [] + ts[k + 1..];
    assert left[..|queued| - k][|queued| - k - 1] == t;
  }

  lemma RefusedIsAborted(rules: Rules, rs: seq<Request>, data: Data)
    ensures !NoneRefused(rules, rs) ==> !ErrorFree(ExecReply(rules, data, rs))
  {
  }

  /** The replies that a dropped transaction drains. */
  lemma DiscardedReplies(rules: Rules, rs: seq<Request>)
    ensures var ts := [OK] + QueueReplies(rules, rs) + [OK];
            ts[..|ts|] == ts && (AllErrorFree(ts) <==> NoneRefused(rules, rs))
  {
    var queued := [OK] + QueueReplies(rules, rs);
    var ts := queued + [OK];
    QueuedReplies(rules, rs);
    assert forall k :: 0 <= k < |queued| ==> ts[k] == queued[k];
  }

  lemma QueuedReplies(rules: Rules, rs: seq<Request>)
    ensures var queued := [OK] + QueueReplies(rules, rs);
            && AllPrintable(queued) && |queued| == |rs| + 1
            && (AllErrorFree(queued) <==> NoneRefused(rules, rs))
            && forall k :: 0 <= k < |queued| ==> ErrorFree(queued[k]) || queued[k] == REFUSED
  {
    var queued := [OK] + QueueReplies(rules, rs);
    RefusedAmongReplies(rules, rs);
    FirstElementFree(queued);
    assert queued[1..] == QueueReplies(rules, rs);
  }

  lemma TakeOneMore<X>(xs: seq<X>, i: nat)
    requires i < |xs|
    ensures xs[..i + 1] == xs[..i] + [xs[i]]
    ensures i + 1 == |xs| ==> xs[..i + 1] == xs
  {
  }

  /** The i-th reply is the one given after the first i commands. */
  lemma ReplyAt(rules: Rules, st: State, rs: seq<Request>, i: nat)
    requires i < |rs|
    ensures var (st', t) := Step(rules, After(rules, st, rs[..i]), rs[i]);
            && Replies(rules, st, rs)[i] == t
            && Replies(rules, st, rs[..i + 1]) == Replies(rules, st, rs[..i]) + [t]
            && After(rules, st, rs[..i + 1]) == st'
  {
    assert rs == rs[..i] + rs[i..] && rs[..i + 1] == rs[..i] + [rs[i]];
    RunAppend(rules, st, rs[..i], rs[i..]);
    RunAppend(rules, st, rs[..i], [rs[i]]);
    One(rules, After(rules, st, rs[..i]), rs[i]);
  }

  // ------------------------------------------------------ failed clean-ups

  /** A pipeline whose destruction ends the program: two commands, each answered
      with an error. The first is thrown by execute(), the second by the
      destructor. */
  lemma SecondErrorEscapes<T>(data: Data, fs: seq<Resolver<T>>)
    requires |fs| == 2
    ensures var rules := Rules((data: Data, r: Request) => Err("ERR"), (r: Request) => false);
            var ts := Replies(rules, State(data, Normal), [["GET"], ["GET"]]);
            && Consumed(ts, fs) == 1 && ResolveNodes(ts, fs) == Error(ServerError("ERR"))
            && !AllErrorFree(C.Remains(ts, 1)[..|ts| - 1])
  {
    var rules := Rules((data: Data, r: Request) => Err("ERR"), (r: Request) => false);
    var rs: seq<Request> := [["GET"], ["GET"]];
    PlainRun(rules, data, rs);
    assert rs[1..] == [["GET"]] && rs[1..][1..] == [];
    var ts: seq<Node> := Answers(rules, data, rs);
    assert ts == [Err("ERR"), Err("ERR")];
    assert C.Remains(ts, 1) == [] + ts[1..];
    assert C.Remains(ts, 1)[..1][0] == Err("ERR");
  }
}
