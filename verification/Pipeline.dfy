// Dynamic pipelines and transactions: include/red1z/basic_pipeline.h with its
// two derived classes, pipeline.h and transaction.h.
module Pipeline {
  import opened Decimal
  import opened Resp
  import opened Server
  import S = Socket
  import C = Context

  datatype Try<+T> = Value(value: T) | Error(error: Resp.Error)

  /** Turns the reply to one command into its result, or throws. */
  type Resolver<!T> = Rep -> Try<T>

  function Thrown<T>(r: Try<T>): S.Result<T> {
    match r
    case Value(value) => S.Ok(value)
    case Error(error) => S.Fail(S.Thrown(error))
  }

  // ------------------------------------------------------- specifications

  /** Resolver `i` on reply `i`, in order, up to the first one that throws. */
  function ResolveReps<T>(reps: seq<Rep>, fs: seq<Resolver<T>>): Try<seq<T>>
    requires |reps| == |fs|
  {
    if reps == [] then Value([])
    else
      match fs[0](reps[0])
      case Error(error) => Error(error)
      case Value(value) =>
        match ResolveReps(reps[1..], fs[1..])
        case Error(error) => Error(error)
        case Value(values) => Value([value] + values)
  }

  /** What a reply comes to: an error it holds is thrown before the resolver
      sees it. */
  function ResolveNode<T>(t: Node, f: Resolver<T>): Try<T> {
    if ErrorFree(t) then f(RepOf(t)) else Error(ServerError(FirstError(t)))
  }

  function ResolveNodes<T>(ts: seq<Node>, fs: seq<Resolver<T>>): Try<seq<T>>
    requires |ts| == |fs|
  {
    if ts == [] then Value([])
    else
      match ResolveNode(ts[0], fs[0])
      case Error(error) => Error(error)
      case Value(value) =>
        match ResolveNodes(ts[1..], fs[1..])
        case Error(error) => Error(error)
        case Value(values) => Value([value] + values)
  }

  /** How many replies ResolveNodes looks at: up to and with the first that
      throws. */
  function Consumed<T>(ts: seq<Node>, fs: seq<Resolver<T>>): (k: nat)
    requires |ts| == |fs|
    ensures k <= |ts|
    ensures ResolveNodes(ts, fs).Value? ==> k == |ts|
    ensures ResolveNodes(ts, fs).Error? ==> 0 < k
  {
    if ts == [] then 0
    else if ResolveNode(ts[0], fs[0]).Error? then 1
    else 1 + Consumed(ts[1..], fs[1..])
  }

  /** Result k is what resolver k makes of reply k. */
  ghost predicate EachResolved<T>(ts: seq<Node>, fs: seq<Resolver<T>>, values: seq<T>) {
    && |values| == |fs| == |ts|
    && forall k :: 0 <= k < |ts| ==> ErrorFree(ts[k]) && fs[k](RepOf(ts[k])) == Value(values[k])
  }

  /** The first `k` replies are resolved, and reply k throws: the error it holds,
      or the one its resolver throws. */
  ghost predicate ThrownAt<T>(ts: seq<Node>, fs: seq<Resolver<T>>, k: nat, error: Resp.Error) {
    && k < |fs| == |ts|
    && (forall j :: 0 <= j < k ==> ErrorFree(ts[j]) && fs[j](RepOf(ts[j])).Value?)
    && (if ErrorFree(ts[k]) then fs[k](RepOf(ts[k])) == Error(error) else error == ServerError(FirstError(ts[k])))
  }

  /** Reply by reply, what ResolveNodes comes to. */
  lemma {:induction false} ResolvedEach<T>(ts: seq<Node>, fs: seq<Resolver<T>>)
    requires |ts| == |fs|
    ensures match ResolveNodes(ts, fs)
            case Value(values) => EachResolved(ts, fs, values)
            case Error(error) => Consumed(ts, fs) > 0 && ThrownAt(ts, fs, Consumed(ts, fs) - 1, error)
  {
    if ts == [] {
    } else {
      ResolvedEach(ts[1..], fs[1..]);
      match ResolveNodes(ts[1..], fs[1..])
      case Value(values) => FirstResolved(ts, fs, values);
      case Error(error) => FirstThenThrown(ts, fs, Consumed(ts[1..], fs[1..]) - 1, error);
    }
  }

  lemma FirstResolved<T>(ts: seq<Node>, fs: seq<Resolver<T>>, values: seq<T>)
    requires ts != [] && |ts| == |fs| && EachResolved(ts[1..], fs[1..], values)
    ensures match ResolveNode(ts[0], fs[0])
            case Value(value) => EachResolved(ts, fs, [value] + values)
            case Error(error) => ThrownAt(ts, fs, 0, error)
  {
    match ResolveNode(ts[0], fs[0])
    case Value(value) =>
      var all := [value] + values;
      forall k | 0 <= k < |ts| ensures ErrorFree(ts[k]) && fs[k](RepOf(ts[k])) == Value(all[k]) {
        if k > 0 {
          assert ts[k] == ts[1..][k - 1] && fs[k] == fs[1..][k - 1] && all[k] == values[k - 1];
        }
      }
    case Error(_) =>
  }

  lemma FirstThenThrown<T>(ts: seq<Node>, fs: seq<Resolver<T>>, k: nat, error: Resp.Error)
    requires ts != [] && |ts| == |fs| && ThrownAt(ts[1..], fs[1..], k, error)
    ensures match ResolveNode(ts[0], fs[0])
            case Value(_) => ThrownAt(ts, fs, k + 1, error)
            case Error(first) => ThrownAt(ts, fs, 0, first)
  {
    match ResolveNode(ts[0], fs[0])
    case Value(_) =>
      assert ts[k + 1] == ts[1..][k] && fs[k + 1] == fs[1..][k];
      forall j | 0 <= j < k + 1 ensures ErrorFree(ts[j]) && fs[j](RepOf(ts[j])).Value? {
        if j > 0 {
          assert ts[j] == ts[1..][j - 1] && fs[j] == fs[1..][j - 1];
        }
      }
    case Error(_) =>
  }

  /** What the elements of an EXEC reply come to. */
  function ResolveExec<T>(t: Node, fs: seq<Resolver<T>>): Try<seq<T>> {
    if !ErrorFree(t) then Error(ServerError(FirstError(t)))
    else if !t.List? then Error(NotAnArray)
    else if |fs| != |t.elems| then Error(UnexpectedReplies)
    else ResolveReps(RepsOf(t.elems), fs)
  }

  lemma {:induction false} RepsAreNodes<T>(ts: seq<Node>, fs: seq<Resolver<T>>)
    requires |ts| == |fs| && AllErrorFree(ts)
    ensures ResolveNodes(ts, fs) == ResolveReps(RepsOf(ts), fs)
  {
    if ts == [] {
    } else {
      RepsAreNodes(ts[1..], fs[1..]);
      assert RepsOf(ts)[1..] == RepsOf(ts[1..]);
    }
  }

  lemma ExecResolvedEach<T>(t: Node, fs: seq<Resolver<T>>)
    ensures var r := ResolveExec(t, fs); r.Value? ==> t.List? && EachResolved(t.elems, fs, r.value)
  {
    if ErrorFree(t) && t.List? && |fs| == |t.elems| {
      RepsAreNodes(t.elems, fs);
      ResolvedEach(t.elems, fs);
    }
  }

  /** The results after the first `i` replies, for the loops below. */
  lemma {:induction false} ResolveNext<T>(ts: seq<Node>, fs: seq<Resolver<T>>, i: nat, values: seq<T>)
    requires |ts| == |fs| && i < |ts|
    requires ResolveNodes(ts[..i], fs[..i]) == Value(values)
    ensures var next := ResolveNode(ts[i], fs[i]);
            && (next.Value? ==> ResolveNodes(ts[..i + 1], fs[..i + 1]) == Value(values + [next.value]))
            && (next.Error? ==> ResolveNodes(ts, fs) == Error(next.error) && Consumed(ts, fs) == i + 1)
  {
    if i == 0 {
      assert ts[..1][1..] == [] && fs[..1][1..] == [];
      assert values == [];
      var next := ResolveNode(ts[0], fs[0]);
      assert next.Value? ==> [next.value] + [] == values + [next.value];
    } else {
      assert ts[..i][1..] == ts[1..][..i - 1] && fs[..i][1..] == fs[1..][..i - 1];
      assert ts[..i + 1][1..] == ts[1..][..i] && fs[..i + 1][1..] == fs[1..][..i];
      ResolveNext(ts[1..], fs[1..], i - 1, values[1..]);
      var next := ResolveNode(ts[i], fs[i]);
      assert next.Value? ==> [values[0]] + (values[1..] + [next.value]) == values + [next.value];
    }
  }

  /** The first `i` replies have been resolved. */
  ghost predicate Resolved<T>(ts: seq<Node>, fs: seq<Resolver<T>>, i: nat, values: seq<T>)
    requires i <= |fs| <= |ts|
  {
    |values| == i && ResolveNodes(ts[..i], fs[..i]) == Value(values)
  }

  lemma ResolvedNext<T>(ts: seq<Node>, fs: seq<Resolver<T>>, i: nat, values: seq<T>)
    requires i < |fs| <= |ts| && Resolved(ts, fs, i, values)
    ensures var next, front := ResolveNode(ts[i], fs[i]), ts[..|fs|];
            && (next.Value? ==> Resolved(ts, fs, i + 1, values + [next.value])
                                && C.Remains(ts, i + 1) == ts[i + 1..])
            && (next.Error? ==> ResolveNodes(front, fs) == Error(next.error) && Consumed(front, fs) == i + 1)
    ensures ts[i..] != [] && ts[i..][0] == ts[i] && C.Remains(ts, i + 1) == C.Remains(ts[i..], 1)
  {
    hide Leftover, InStep, RepOf, FirstError;
    var front := ts[..|fs|];
    assert front[..i] == ts[..i] && front[..i + 1] == ts[..i + 1];
    ResolveNext(front, fs, i, values);
    NothingLeftOver(ts[i]);
    C.RemainsLater(ts, i);
  }

  lemma ResolvedAll<T>(ts: seq<Node>, fs: seq<Resolver<T>>, values: seq<T>)
    requires |fs| <= |ts| && Resolved(ts, fs, |fs|, values)
    ensures var front := ts[..|fs|]; ResolveNodes(front, fs) == Value(values) && Consumed(front, fs) == |fs|
    ensures C.Remains(ts, |fs|) == ts[|fs|..]
  {
    var front := ts[..|fs|];
    assert fs[..|fs|] == fs;
    if fs != [] {
      ResolvedAreFree(front, fs);
      assert ts[|fs| - 1] == front[|fs| - 1];
      NothingLeftOver(ts[|fs| - 1]);
    }
  }

  lemma {:induction false} ResolvedAreFree<T>(ts: seq<Node>, fs: seq<Resolver<T>>)
    requires |ts| == |fs| && ResolveNodes(ts, fs).Value?
    ensures AllErrorFree(ts)
  {
    if ts == [] {
    } else {
      ResolvedAreFree(ts[1..], fs[1..]);
      FirstElementFree(ts);
    }
  }

  lemma {:induction false} ResolveRepsNext<T>(reps: seq<Rep>, fs: seq<Resolver<T>>, i: nat, values: seq<T>)
    requires |reps| == |fs| && i < |reps|
    requires ResolveReps(reps[..i], fs[..i]) == Value(values)
    ensures var next := fs[i](reps[i]);
            && (next.Value? ==> ResolveReps(reps[..i + 1], fs[..i + 1]) == Value(values + [next.value]))
            && (next.Error? ==> ResolveReps(reps, fs) == Error(next.error))
  {
    if i == 0 {
      assert reps[..1][1..] == [] && fs[..1][1..] == [];
      assert values == [];
      var next := fs[0](reps[0]);
      assert next.Value? ==> [next.value] + [] == values + [next.value];
    } else {
      assert reps[..i][1..] == reps[1..][..i - 1] && fs[..i][1..] == fs[1..][..i - 1];
      assert reps[..i + 1][1..] == reps[1..][..i] && fs[..i + 1][1..] == fs[1..][..i];
      ResolveRepsNext(reps[1..], fs[1..], i - 1, values[1..]);
      var next := fs[i](reps[i]);
      assert next.Value? ==> [values[0]] + (values[1..] + [next.value]) == values + [next.value];
    }
  }

  // ------------------------------------------------------------ the object

  datatype Kind = Pipelined | Transactional

  function Prologue(kind: Kind): seq<Request> {
    if kind.Transactional? then [MULTI] else []
  }

  lemma LiteralsAreWire()
    ensures Wire(MULTI) == "*1\r\n$5\r\nMULTI\r\n"
    ensures Wire(EXEC) == "*1\r\n$4\r\nEXEC\r\n"
    ensures Wire(DISCARD) == "*1\r\n$7\r\nDISCARD\r\n"
  {
    WireOfOne("MULTI");
    WireOfOne("EXEC");
    WireOfOne("DISCARD");
    assert Digits(5) == "5" && Digits(4) == "4" && Digits(7) == "7";
  }

  lemma WireOfOne(word: string)
    ensures Wire([word]) == "*1\r\n$" + Decimal.Decimal(|word|) + "\r\n" + word + "\r\n"
  {
    var ts := Bulks([word]);
    assert ts == [Bulk(word)];
    assert Digits(1) == "1";
    assert PrintAll(ts) == Print(ts[0]) + PrintAll(ts[1..]);
    assert PrintAll(ts[1..]) == "";
  }

  /** BasicPipeline<T, Derived>; `kind` is the derived class. */
  class BasicPipeline<T> {
    const ctx: C.Context
    const kind: Kind
    var resolvers: seq<Resolver<T>>
    var resolved: bool

    /** The commands appended so far. */
    ghost var requests: seq<Request>

    /** While it is unresolved, nothing but its own commands is in flight, and
        none of them has been sent. */
    ghost predicate Valid()
      reads this, ctx, ctx.sock, ctx.sock.buf
    {
      && ctx.Valid()
      && |resolvers| == |requests|
      && (!resolved ==> ctx.waiting == Prologue(kind) + requests && ctx.inFlight == |ctx.waiting|)
    }

    constructor (ctx: C.Context, kind: Kind)
      requires ctx.Valid() && ctx.Ready()
      modifies ctx
      ensures this.ctx == ctx && this.kind == kind
      ensures Valid() && !resolved && resolvers == [] && requests == []
      ensures kind.Pipelined? ==> ctx.Final() == old(ctx.Final()) && ctx.Expected() == old(ctx.Expected())
      ensures kind.Transactional? ==>
                var (st, t) := Step(ctx.sock.rules, old(ctx.Final()), MULTI);
                ctx.Final() == st && ctx.Expected() == old(ctx.Expected()) + [t]
    {
      this.ctx, this.kind := ctx, kind;
      resolvers, resolved, requests := [], false, [];
      new;
      if kind == Transactional {
        LiteralsAreWire();
        ctx.Append("*1\r\n$5\r\nMULTI\r\n", MULTI);
      }
    }

    /** _run: queues a command together with what resolves its reply. */
    method Run(cmd: string, f: Resolver<T>, ghost r: Request) returns (ok: S.Result<()>)
      requires Valid() && ctx.inFlight < C.INT_MAX
      requires SendableRequest(r) && cmd == Wire(r)
      requires Printable(Step(ctx.sock.rules, ctx.Final(), r).1)
      modifies this, ctx
      ensures Valid() && resolved == old(resolved)
      ensures old(resolved) ==>
                && ok == S.Fail(S.Thrown(AlreadyResolved)) && ctx.Final() == old(ctx.Final())
                && ctx.Expected() == old(ctx.Expected()) && resolvers == old(resolvers)
      ensures !old(resolved) ==>
                && ok == S.Ok(()) && ctx.inFlight == old(ctx.inFlight) + 1
                && resolvers == old(resolvers) + [f] && requests == old(requests) + [r]
                && ctx.Final() == Step(ctx.sock.rules, old(ctx.Final()), r).0
                && ctx.Expected() == old(ctx.Expected()) + [Step(ctx.sock.rules, old(ctx.Final()), r).1]
    {
      if resolved {
        return S.Fail(S.Thrown(AlreadyResolved));
      }
      ctx.Append(cmd, r);
      resolvers := resolvers + [f];
      requests := requests + [r];
      return S.Ok(());
    }

    /** Of the replies `ts`, those for the resolvers have been resolved up to the
        first that throws, and the rest are still to be read. */
    ghost predicate PipelineRan(r: S.Result<seq<T>>, ts: seq<Node>)
      requires |resolvers| <= |ts|
      reads this, ctx, ctx.sock, ctx.sock.buf
    {
      var front := ts[..|resolvers|];
      var k := Consumed(front, resolvers);
      && ctx.Valid() && r == Thrown(ResolveNodes(front, resolvers))
      && ctx.inFlight == |resolvers| - k && ctx.Expected() == C.Remains(ts, k)
    }

    /** Of the replies `ts`, those before number `m` have been thrown away, and
        number `m` has been taken apart, unless one of the others was an error. */
    ghost predicate TransactionRan(r: S.Result<seq<T>>, ts: seq<Node>, m: nat)
      requires m < |ts|
      reads this, ctx, ctx.sock, ctx.sock.buf
    {
      var k := C.FirstBad(ts[..m]);
      && ctx.Valid()
      && r == (if k < m then S.Fail(S.Thrown(ServerError(FirstError(ts[k]))))
               else Thrown(ResolveExec(ts[m], resolvers)))
      && ctx.inFlight == m - k && ctx.Expected() == C.Remains(ts, k + 1)
    }

    /** Pipeline::_execute: reply `i` goes to resolver `i`; it stops at the first
        reply or resolver that throws. */
    method ExecutePipeline(n: nat) returns (r: S.Result<seq<T>>)
      requires ctx.Valid() && n == |resolvers| == ctx.inFlight
      modifies ctx, ctx.sock, ctx.sock.buf
      ensures r != S.Fail(S.Short) ==> PipelineRan(r, old(ctx.Expected()))
      ensures r.Ok? ==> EachResolved(old(ctx.Expected())[..n], resolvers, r.value)
      ensures ctx.Final() == old(ctx.Final())
      ensures ctx.sock.Prompt() ==> r != S.Fail(S.Short)
    {
      ghost var ts, fs := ctx.Expected(), resolvers;
      var result: seq<T> := [];
      for i := 0 to n
        invariant ctx.Valid() && ctx.Final() == old(ctx.Final()) && ctx.inFlight == n - i
        invariant ctx.Expected() == ts[i..] && Resolved(ts, fs, i, result)
      {
        var value := ResolveNextReply(ts, i, result);
        if value.Fail? {
          return S.Fail(value.failure);
        }
        result := result + [value.value];
      }
      ResolvedAll(ts, fs, result);
      ResolvedEach(ts[..n], fs);
      return S.Ok(result);
    }

    /** The body of Pipeline::_execute's loop. */
    method ResolveNextReply(ghost ts: seq<Node>, i: nat, ghost result: seq<T>) returns (r: S.Result<T>)
      requires ctx.Valid() && i < |resolvers| <= |ts| && ctx.inFlight == |resolvers| - i
      requires ctx.Expected() == ts[i..] && Resolved(ts, resolvers, i, result)
      modifies ctx, ctx.sock, ctx.sock.buf
      ensures ctx.Final() == old(ctx.Final())
      ensures r.Ok? ==>
                && ctx.Valid() && ctx.inFlight == |resolvers| - i - 1
                && ctx.Expected() == ts[i + 1..] && Resolved(ts, resolvers, i + 1, result + [r.value])
      ensures r.Fail? && r != S.Fail(S.Short) ==> PipelineRan(S.Fail(r.failure), ts)
      ensures ctx.sock.Prompt() ==> r != S.Fail(S.Short)
    {
      hide ErrorFree, FirstError, Leftover, C.Remains, ResolveNode, ResolveNodes, Consumed, Replies, After;
      ResolvedNext(ts, resolvers, i, result);
      r := ResolveReply(resolvers[i]);
    }

    method ResolveReply(f: Resolver<T>) returns (r: S.Result<T>)
      requires ctx.Valid() && ctx.inFlight > 0
      modifies ctx, ctx.sock, ctx.sock.buf
      ensures ctx.inFlight == old(ctx.inFlight) - 1 && ctx.Final() == old(ctx.Final())
      ensures r != S.Fail(S.Short) ==>
                var ts := old(ctx.Expected());
                ctx.Valid() && r == Thrown(ResolveNode(ts[0], f)) && ctx.Expected() == C.Remains(ts, 1)
      ensures ctx.sock.Prompt() ==> r != S.Fail(S.Short)
    {
      var rep := ctx.GetReply();
      if rep.Fail? {
        return S.Fail(rep.failure);
      }
      return Thrown(f(rep.value));
    }

    /** Transaction::_execute: EXEC, the replies of MULTI and of the queued
        commands thrown away, and the elements of the EXEC reply resolved. */
    method ExecuteTransaction(n: nat) returns (r: S.Result<seq<T>>)
      requires ctx.Valid() && n + 1 == |resolvers| + 1 == ctx.inFlight < C.INT_MAX
      requires Printable(Step(ctx.sock.rules, ctx.Final(), EXEC).1)
      modifies ctx, ctx.sock, ctx.sock.buf
      ensures var (st, t) := Step(ctx.sock.rules, old(ctx.Final()), EXEC);
              && ctx.Final() == st
              && (r != S.Fail(S.Short) ==> TransactionRan(r, old(ctx.Expected()) + [t], n + 1))
      ensures ctx.sock.Prompt() ==> r != S.Fail(S.Short)
    {
      LiteralsAreWire();
      ctx.Append("*1\r\n$4\r\nEXEC\r\n", EXEC);
      r := CollectExec(n);
    }

    /** What follows EXEC in Transaction::_execute. */
    method CollectExec(n: nat) returns (r: S.Result<seq<T>>)
      requires ctx.Valid() && n == |resolvers| && ctx.inFlight == n + 2
      modifies ctx, ctx.sock, ctx.sock.buf
      ensures ctx.Final() == old(ctx.Final())
      ensures r != S.Fail(S.Short) ==> TransactionRan(r, old(ctx.Expected()), n + 1)
      ensures ctx.sock.Prompt() ==> r != S.Fail(S.Short)
    {
      hide ErrorFree, FirstError, Leftover, C.Remains, C.FirstBad, C.Context.Linked, ResolveExec;
      ghost var ts := ctx.Expected();
      FirstBadPrefix(ts, n + 1);
      var dropped := ctx.Discard(n + 1);
      if dropped.Fail? {
        return S.Fail(dropped.failure);
      }
      C.RemainsLater(ts, n + 1);
      r := ResolveLast(n);
    }

    /** What _execute does with the reply to EXEC. */
    method ResolveLast(n: nat) returns (r: S.Result<seq<T>>)
      requires ctx.Valid() && n == |resolvers| && ctx.inFlight == 1
      modifies ctx, ctx.sock, ctx.sock.buf
      ensures ctx.inFlight == 0 && ctx.Final() == old(ctx.Final())
      ensures r != S.Fail(S.Short) ==>
                var ts := old(ctx.Expected());
                && ctx.Valid() && r == Thrown(ResolveExec(ts[0], resolvers))
                && ctx.Expected() == C.Remains(ts, 1)
                && (r.Ok? ==> ts[0].List? && EachResolved(ts[0].elems, resolvers, r.value))
      ensures ctx.sock.Prompt() ==> r != S.Fail(S.Short)
    {
      hide FirstError, C.Remains, C.Context.Linked;
      ExecResolvedEach(ctx.Expected()[0], resolvers);
      var reply := ctx.GetReply();
      if reply.Fail? {
        return S.Fail(reply.failure);
      }
      if !reply.value.Array? {
        return S.Fail(S.Thrown(NotAnArray));
      }
      var elements := reply.value.elems;
      if n != |elements| {
        return S.Fail(S.Thrown(UnexpectedReplies));
      }
      r := ResolveElements(elements);
    }

    /** BasicPipeline::execute. */
    method Execute() returns (r: S.Result<seq<T>>)
      requires Valid() && ctx.inFlight < C.INT_MAX
      requires kind.Transactional? ==> Printable(Step(ctx.sock.rules, ctx.Final(), EXEC).1)
      modifies this`resolved, ctx, ctx.sock, ctx.sock.buf
      ensures resolved
      ensures old(resolved) ==>
                && r == S.Fail(S.Thrown(AlreadyResolved)) && ctx.Valid() && ctx.inFlight == old(ctx.inFlight)
                && ctx.Expected() == old(ctx.Expected()) && ctx.Final() == old(ctx.Final())
      ensures !old(resolved) && kind.Pipelined? ==>
                && ctx.Final() == old(ctx.Final())
                && (r != S.Fail(S.Short) ==> PipelineRan(r, old(ctx.Expected())))
      ensures !old(resolved) && kind.Transactional? ==>
                var (st, t) := Step(ctx.sock.rules, old(ctx.Final()), EXEC);
                && ctx.Final() == st
                && (r != S.Fail(S.Short) ==> TransactionRan(r, old(ctx.Expected()) + [t], |resolvers| + 1))
      ensures ctx.sock.Prompt() ==> r != S.Fail(S.Short)
    {
      hide FirstError, C.Remains, C.FirstBad, C.Context.Linked, Consumed, ResolveNodes, ResolveExec, EachResolved,
           Printable, Step;
      if resolved {
        return S.Fail(S.Thrown(AlreadyResolved));
      }
      resolved := true;
      match kind
      case Pipelined => r := ExecutePipeline(|resolvers|);
      case Transactional => r := ExecuteTransaction(|resolvers|);
    }

    /** What discard() leaves to be drained: the state of the server, the replies
        and how many of them, for a transaction also the one to DISCARD. */
    ghost function Discarded(): (State, seq<Node>, int)
      reads this, ctx, ctx.sock
    {
      match kind
      case Pipelined => (ctx.Final(), ctx.Expected(), ctx.inFlight)
      case Transactional =>
        var (st, t) := Step(ctx.sock.rules, ctx.Final(), DISCARD);
        (st, ctx.Expected() + [t], ctx.inFlight + 1)
    }

    /** _discard: a transaction appends DISCARD. */
    method AppendDiscard()
      requires ctx.Valid() && ctx.inFlight < C.INT_MAX
      modifies ctx
      ensures ctx.Valid() && old(Discarded()) == (ctx.Final(), ctx.Expected(), ctx.inFlight)
    {
      hide Wire, Printable, C.Context.Linked;
      if kind == Transactional {
        LiteralsAreWire();
        ctx.Append("*1\r\n$7\r\nDISCARD\r\n", DISCARD);
      }
    }

    /** BasicPipeline::discard: nothing is resolved, but everything appended is
        sent, and its replies are read. */
    method Discard() returns (r: S.Result<()>)
      requires Valid() && ctx.inFlight < C.INT_MAX
      modifies this`resolved, ctx, ctx.sock, ctx.sock.buf
      ensures resolved
      ensures old(resolved) ==>
                && r == S.Fail(S.Thrown(AlreadyResolved)) && ctx.Valid() && ctx.inFlight == old(ctx.inFlight)
                && ctx.Expected() == old(ctx.Expected()) && ctx.Final() == old(ctx.Final())
      ensures !old(resolved) ==>
                var (st, ts, m) := old(Discarded());
                && ctx.Final() == st && 0 <= m <= |ts|
                && (r != S.Fail(S.Short) ==> ctx.Drained(r, ts, m, m))
      ensures ctx.sock.Prompt() ==> r != S.Fail(S.Short)
    {
      if resolved {
        return S.Fail(S.Thrown(AlreadyResolved));
      }
      hide FirstError, C.Remains, C.FirstBad, C.Context.Linked;
      resolved := true;
      AppendDiscard();
      r := ctx.DiscardAll();
    }

    /** The destructors, of BasicPipeline and then of its CommandQueue. An
        exception that leaves either of them ends the program: `r` is Fail. The
        other outcome is a connection with no request in flight. */
    method Destroy() returns (r: S.Result<()>)
      requires Valid() && ctx.inFlight < C.INT_MAX
      modifies this`resolved, ctx, ctx.sock, ctx.sock.buf
      ensures var (st, ts, m) := if old(resolved) then (old(ctx.Final()), old(ctx.Expected()), old(ctx.inFlight))
                                 else old(Discarded());
              && ctx.Final() == st && 0 <= m <= |ts|
              && (r != S.Fail(S.Short) ==> (r.Ok? <==> AllErrorFree(ts[..m])))
              && (r.Ok? ==> ctx.Valid() && ctx.Ready() && ctx.Expected() == ts[m..])
      ensures ctx.sock.Prompt() ==> r != S.Fail(S.Short)
    {
      if resolved {
        FreeInFront(ctx.Expected(), ctx.inFlight);
        r := ctx.DiscardAll();
      } else {
        ghost var (_, ts, m) := Discarded();
        FreeInFront(ts, m);
        var _ :- Discard();
        FreeInFront(ctx.Expected(), 0);
        r := ctx.DiscardAll();
      }
    }

    /** The resolver of `execute` over the elements of an array. */
    method ResolveElements(elements: seq<Rep>) returns (r: S.Result<seq<T>>)
      requires |elements| == |resolvers|
      ensures r == Thrown(ResolveReps(elements, resolvers))
    {
      var result: seq<T> := [];
      for i := 0 to |elements|
        invariant |result| == i && ResolveReps(elements[..i], resolvers[..i]) == Value(result)
      {
        ResolveRepsNext(elements, resolvers, i, result);
        match resolvers[i](elements[i])
        case Error(error) => return S.Fail(S.Thrown(error));
        case Value(value) => result := result + [value];
      }
      assert elements[..|elements|] == elements && resolvers[..|elements|] == resolvers;
      return S.Ok(result);
    }
  }

  lemma {:induction false} FreeInFront(ts: seq<Node>, n: int)
    requires 0 <= n <= |ts|
    ensures AllErrorFree(ts[..n]) <==> C.FirstBad(ts) >= n
  {
    var k := C.FirstBad(ts);
    if k >= n {
      assert forall j :: 0 <= j < n ==> ts[..n][j] == ts[..k][j];
    } else {
      assert ts[..n][k] == ts[k];
    }
  }

  lemma FirstBadPrefix(ts: seq<Node>, m: nat)
    requires m <= |ts|
    ensures var k := C.FirstBad(ts); C.FirstBad(ts[..m]) == if k < m then k else m
  {
    var k, front := C.FirstBad(ts), ts[..m];
    if k < m {
      assert front[..k] == ts[..k] && front[k] == ts[k];
      C.FirstBadAt(front, k);
    } else {
      assert front == ts[..k][..m];
      assert front[..m] == front;
      C.FirstBadAt(front, m);
    }
  }
}
