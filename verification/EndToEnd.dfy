// The layers together: typed calls are encoded, pipelined over the byte-level
// connection, executed by the server, and their replies parsed and resolved.
module EndToEnd {
  import opened Decimal
  import opened Resp
  import opened Server
  import S = Socket
  import C = Context
  import opened Pipeline
  import opened Redis
  import G = Signature
  import E = Encoder

  /** A call of a command method: its name, its signature and arguments, and
      what makes a result of the reply. */
  datatype Call<!T> = Call(name: string, keywords: seq<string>, sig: G.Sig, args: seq<G.Actual>, process: Resolver<T>)

  /** The overloads as written encode the call. */
  predicate Encodable<T>(call: Call<T>) {
    && G.Covered(call.sig, call.keywords) && G.WellFormed(call.args)
    && G.Encode(G.AsWritten, call.sig, call.args).Ok?
  }

  /** What a call asks of the server. */
  function RequestOf<T>(call: Call<T>): Request
    requires Encodable(call)
  {
    G.HeaderAgrees(G.AsWritten, call.sig, call.args, call.keywords);
    [call.name] + G.SpellAll(call.keywords, G.Encode(G.AsWritten, call.sig, call.args).word)
  }

  /** Well-formed data commands. */
  ghost predicate DataCalls<T>(calls: seq<Call<T>>) {
    && |calls| + 2 < C.INT_MAX
    && forall k :: 0 <= k < |calls| ==>
         Encodable(calls[k]) && SendableRequest(RequestOf(calls[k])) && IsData(RequestOf(calls[k]))
  }

  function Requests<T>(calls: seq<Call<T>>): (rs: seq<Request>)
    requires forall k :: 0 <= k < |calls| ==> Encodable(calls[k])
    ensures |rs| == |calls|
    ensures forall k :: 0 <= k < |calls| ==> rs[k] == RequestOf(calls[k])
  {
    seq(|calls|, k requires 0 <= k < |calls| => RequestOf(calls[k]))
  }

  /** The command objects of the calls. */
  function Commands<T>(calls: seq<Call<T>>): (cmds: seq<Command<T>>)
    requires forall k :: 0 <= k < |calls| ==> Encodable(calls[k])
    ensures |cmds| == |calls|
    ensures forall k :: 0 <= k < |calls| ==> cmds[k] == Command(Wire(RequestOf(calls[k])), calls[k].process)
  {
    seq(|calls|, k requires 0 <= k < |calls| => Command(Wire(RequestOf(calls[k])), calls[k].process))
  }

  /** Building them, by encoding the arguments. */
  method EncodeCalls<T>(calls: seq<Call<T>>) returns (cmds: seq<Command<T>>)
    requires DataCalls(calls)
    ensures cmds == Commands(calls) && Carries(cmds, Requests(calls))
  {
    cmds := [];
    for i := 0 to |calls|
      invariant |cmds| == i
      invariant forall k :: 0 <= k < i ==> cmds[k] == Commands(calls)[k]
    {
      var c := calls[i];
      var _, bytes := E.EncodeCommand(c.name, c.keywords, c.sig, c.args);
      cmds := cmds + [Command(bytes, c.process)];
    }
  }

  /** A connection at rest: nothing in flight and nothing unread. */
  ghost predicate AtRest(ctx: C.Context, data: Data)
    reads ctx, ctx.sock, ctx.sock.buf
  {
    && ctx.InOrder() && ctx.Ready() && ctx.Final() == State(data, Normal)
    && ctx.sock.Stream() == ""
  }

  lemma RestMeansNoBytes(ctx: C.Context, data: Data)
    requires ctx.Valid() && ctx.Ready() && ctx.Final() == State(data, Normal)
    ensures AtRest(ctx, data) <==> ctx.Expected() == []
  {
    assert ctx.Expected() == [] ==> ctx.owed == [];
  }

  /** Result k is what call k makes of answer k. */
  ghost predicate CallResults<T>(calls: seq<Call<T>>, ts: seq<Node>, values: seq<T>) {
    && |values| == |calls| == |ts|
    && forall k :: 0 <= k < |calls| ==> ErrorFree(ts[k]) && calls[k].process(RepOf(ts[k])) == Value(values[k])
  }

  lemma FromCommands<T>(calls: seq<Call<T>>, ts: seq<Node>, values: seq<T>)
    requires forall k :: 0 <= k < |calls| ==> Encodable(calls[k])
    requires EachResult(Commands(calls), ts, values)
    ensures CallResults(calls, ts, values)
  {
    var cmds := Commands(calls);
    forall k | 0 <= k < |calls| ensures ErrorFree(ts[k]) && calls[k].process(RepOf(ts[k])) == Value(values[k]) {
      assert cmds[k].process == calls[k].process;
    }
  }

  /** What the calls come to when each is executed before the next. */
  function Outcome<T>(rules: Rules, data: Data, calls: seq<Call<T>>): Try<seq<T>>
    requires forall k :: 0 <= k < |calls| ==> Encodable(calls[k])
  {
    OneByOne(rules, State(data, Normal), Requests(calls), Processors(Commands(calls))).1
  }

  /** The calls one at a time. */
  method RunInTurn<T>(redis: Redis, calls: seq<Call<T>>, ghost data: Data) returns (r: S.Result<seq<T>>)
    requires DataCalls(calls) && AtRest(redis.ctx, data)
    modifies redis.ctx, redis.ctx.sock, redis.ctx.sock.buf
    ensures r != S.Fail(S.Short) ==> r == Thrown(Outcome(redis.ctx.sock.rules, data, calls))
    ensures r.Ok? ==> AtRest(redis.ctx, data + Requests(calls))
    ensures var ts: seq<Node> := Answers(redis.ctx.sock.rules, data, Requests(calls));
            EachInTurn(r, Commands(calls), ts) && (r.Ok? ==> CallResults(calls, ts, r.value))
    ensures redis.ctx.sock.Prompt() ==> r != S.Fail(S.Short)
  {
    var cmds := EncodeCalls(calls);
    ghost var rules, rs := redis.ctx.sock.rules, Requests(calls);
    InTurnEndsAt(rules, data, rs, Processors(Commands(calls)));
    PlainRun(rules, data, rs);
    r := redis.RunInTurn(cmds, rs);
    if r.Ok? {
      FromCommands(calls, Answers(rules, data, rs), r.value);
      RestMeansNoBytes(redis.ctx, data + Requests(calls));
    }
  }

  /** The calls in a dynamic pipeline: the same results or the same error. All of
      them take effect. If they succeed, no byte is left unread; if they fail at
      answer k - 1, the destructor gets through exactly if the next replies it
      finds hold no error, and leaves the connection at rest exactly if that
      answer is in step. */
  method RunPipelined<T>(redis: Redis, calls: seq<Call<T>>, ghost data: Data)
    returns (r: S.Result<seq<T>>, closed: S.Result<()>)
    requires DataCalls(calls) && AtRest(redis.ctx, data)
    modifies redis.ctx, redis.ctx.sock, redis.ctx.sock.buf
    ensures redis.ctx.Final() == State(data + Requests(calls), Normal)
    ensures r != S.Fail(S.Short) ==> r == Thrown(Outcome(redis.ctx.sock.rules, data, calls))
    ensures var ts: seq<Node> := Answers(redis.ctx.sock.rules, data, Requests(calls));
            EachInTurn(r, Commands(calls), ts) && (r.Ok? ==> CallResults(calls, ts, r.value))
    ensures r.Ok? && closed != S.Fail(S.Short) ==> closed.Ok? && AtRest(redis.ctx, data + Requests(calls))
    ensures closed != S.Fail(S.Short) ==>
              var ts: seq<Node> := Answers(redis.ctx.sock.rules, data, Requests(calls));
              var k := Consumed(ts, Processors(Commands(calls)));
              && (closed.Ok? <==> AllErrorFree(C.Remains(ts, k)[..|ts| - k]))
              && (closed.Ok? ==> (AtRest(redis.ctx, data + Requests(calls)) <==> k == 0 || InStep(ts[k - 1])))
    ensures redis.ctx.sock.Prompt() ==> r != S.Fail(S.Short) && closed != S.Fail(S.Short)
  {
    hide ErrorFree, AllErrorFree, Leftover, C.Remains, C.Context.Linked, InStep;
    hide Consumed, ResolveNode, ResolveNodes, OneByOne, Answers, Replies, After, Step, Encodable;
    var cmds := EncodeCalls(calls);
    ghost var rules, rs, fs := redis.ctx.sock.rules, Requests(calls), Processors(Commands(calls));
    ghost var ts: seq<Node> := Answers(rules, data, rs);
    PlainRun(rules, data, rs);
    InTurnEndsAt(rules, data, rs, fs);
    r, closed := redis.PipelineDynamic(cmds, rs);
    AtRestWhenInStep(ts, Consumed(ts, fs));
    if closed.Ok? {
      RestMeansNoBytes(redis.ctx, data + rs);
    }
    if r.Ok? {
      PipelineIsOneByOne(rules, State(data, Normal), rs, fs);
      ResolvedAreFree(ts, fs);
      FromCommands(calls, ts, r.value);
    }
  }

  /** What a destructor leaves unread. */
  lemma AtRestWhenInStep(ts: seq<Node>, k: nat)
    requires k <= |ts|
    ensures C.Remains(ts, k)[|ts| - k..] == [] <==> k == 0 || InStep(ts[k - 1])
    ensures k == |ts| && AllErrorFree(ts) ==> AllErrorFree(C.Remains(ts, k)[..0]) && (k == 0 || InStep(ts[k - 1]))
  {
    C.RemainsInStep(ts, k);
    if k > 0 && ErrorFree(ts[k - 1]) {
      FreeIsInStep(ts[k - 1]);
    }
  }

  /** The calls in a dynamic transaction. If none is refused they all take effect,
      and if no answer holds an error either, all is as if they had been executed
      one at a time; otherwise there is no result but the server's first error.
      The connection is left at rest exactly if no call is refused and nothing
      stands behind the first error among the answers. */
  method RunTransaction<T>(redis: Redis, calls: seq<Call<T>>, ghost data: Data)
    returns (r: S.Result<seq<T>>, closed: S.Result<()>)
    requires DataCalls(calls) && AtRest(redis.ctx, data)
    modifies redis.ctx, redis.ctx.sock, redis.ctx.sock.buf
    ensures var rules, rs := redis.ctx.sock.rules, Requests(calls);
            var kept := NoneRefused(rules, rs);
            var answers: seq<Node> := Answers(rules, data, rs);
            && redis.ctx.Final() == State(if kept then data + rs else data, Normal)
            && (r != S.Fail(S.Short) ==>
                  r == if !kept then S.Fail(S.Thrown(ServerError(REFUSED.msg)))
                       else if AllErrorFree(answers) then Thrown(Outcome(rules, data, calls))
                       else S.Fail(S.Thrown(ServerError(FirstErrorOf(answers)))))
            && (kept ==> ReadThenProcessed(r, Commands(calls), answers))
            && (r.Ok? ==> kept && CallResults(calls, answers, r.value))
            && (closed != S.Fail(S.Short) ==> (closed.Ok? <==> kept))
            && (closed.Ok? ==> (AtRest(redis.ctx, data + rs) <==> InStep(List(answers))))
    ensures redis.ctx.sock.Prompt() ==> r != S.Fail(S.Short) && closed != S.Fail(S.Short)
  {
    ghost var rules, rs := redis.ctx.sock.rules, Requests(calls);
    var cmds := EncodeCalls(calls);
    r, closed := redis.TransactionDynamic(cmds, rs, data);
    if NoneRefused(rules, rs) {
      TransactionIsOneByOne(rules, data, rs, Processors(Commands(calls)));
      NothingLeftOver(ExecReply(rules, data, rs));
      if r.Ok? {
        FromCommands(calls, Answers(rules, data, rs), r.value);
      }
    }
    if closed.Ok? {
      RestMeansNoBytes(redis.ctx, data + rs);
    }
  }

  /** Where the server is when every command has succeeded. */
  lemma InTurnEndsAt<T>(rules: Rules, data: Data, rs: seq<Request>, fs: seq<Resolver<T>>)
    requires AllData(rs) && |rs| == |fs|
    ensures var (last, result) := OneByOne(rules, State(data, Normal), rs, fs);
            var ts := Replies(rules, State(data, Normal), rs);
            && (result.Value? ==>
                  && last == State(data + rs, Normal) && Consumed(ts, fs) == |ts|
                  && LastLeft(rules, State(data, Normal), rs, fs) == [])
            && AllPrintable(ts)
  {
    var ts := Replies(rules, State(data, Normal), rs);
    PlainRun(rules, data, rs);
    PipelineIsOneByOne(rules, State(data, Normal), rs, fs);
    assert rs[..|rs|] == rs;
    if ts != [] && ResolveNodes(ts, fs).Value? {
      ResolvedAreFree(ts, fs);
      NothingLeftOver(ts[|ts| - 1]);
    }
  }
}
