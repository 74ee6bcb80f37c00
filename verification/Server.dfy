// The peer: a Redis server as a deterministic machine over requests, and the
// byte stream it reads and writes. Transactions follow the Redis documentation
// page "Transactions".
module Server {
  import opened Decimal
  import opened Resp

  /** A command as the bulk strings of its array. */
  type Request = seq<string>

  predicate SendableRequest(r: Request) {
    IsInt64(|r|) && forall k :: 0 <= k < |r| ==> IsInt64(|r[k]|)
  }

  function Bulks(r: Request): (ts: seq<Node>)
    ensures |ts| == |r|
    ensures forall k :: 0 <= k < |r| ==> ts[k] == Bulk(r[k])
  {
    seq(|r|, k requires 0 <= k < |r| => Bulk(r[k]))
  }

  /** The bytes of a request. */
  function Wire(r: Request): string {
    Print(List(Bulks(r)))
  }

  function WireAll(rs: seq<Request>): string {
    if rs == [] then "" else Wire(rs[0]) + WireAll(rs[1..])
  }

  // ------------------------------------------------------------- requests

  const MULTI: Request := ["MULTI"]
  const EXEC: Request := ["EXEC"]
  const DISCARD: Request := ["DISCARD"]

  predicate IsData(r: Request) {
    r != MULTI && r != EXEC && r != DISCARD
  }

  // -------------------------------------------------------------- machine

  /** The data of a server is the list of data commands it has executed; a
      deterministic server's answers are a function of that list. `refuses`
      tells which commands are turned down already when they are queued. */
  type Data = seq<Request>

  datatype Rules = Rules(answer: (Data, Request) -> Sent, refuses: Request -> bool)

  datatype Mode =
    | Normal
    | Multi(queued: seq<Request>, dirty: bool)

  datatype State = State(data: Data, mode: Mode)

  // Errors are named by their first word, the one clients tell them apart by.
  const OK: Sent := Simple("OK")
  const QUEUED: Sent := Simple("QUEUED")
  const EXEC_WITHOUT_MULTI: Sent := Err("ERR")
  const DISCARD_WITHOUT_MULTI: Sent := Err("ERR")
  const NESTED_MULTI: Sent := Err("ERR")
  const REFUSED: Sent := Err("ERR")
  const EXEC_ABORT: Sent := Err("EXECABORT")

  /** What the data commands `rs` answer when run one after the other. */
  function Answers(rules: Rules, data: Data, rs: seq<Request>): (ts: seq<Sent>)
    ensures |ts| == |rs|
    decreases |rs|
  {
    if rs == [] then []
    else [rules.answer(data, rs[0])] + Answers(rules, data + [rs[0]], rs[1..])
  }

  function Step(rules: Rules, st: State, r: Request): (State, Node) {
    match st.mode
    case Normal =>
      if r == MULTI then (st.(mode := Multi([], false)), OK)
      else if r == EXEC then (st, EXEC_WITHOUT_MULTI)
      else if r == DISCARD then (st, DISCARD_WITHOUT_MULTI)
      else (st.(data := st.data + [r]), rules.answer(st.data, r))
    case Multi(queued, dirty) =>
      if r == MULTI then (st, NESTED_MULTI)
      else if r == EXEC then
        if dirty then (State(st.data, Normal), EXEC_ABORT)
        else (State(st.data + queued, Normal), List(Answers(rules, st.data, queued)))
      else if r == DISCARD then (State(st.data, Normal), OK)
      else if rules.refuses(r) then (st.(mode := Multi(queued, true)), REFUSED)
      else (st.(mode := Multi(queued + [r], dirty)), QUEUED)
  }

  function After(rules: Rules, st: State, rs: seq<Request>): State
    decreases |rs|
  {
    if rs == [] then st else After(rules, Step(rules, st, rs[0]).0, rs[1..])
  }

  function Replies(rules: Rules, st: State, rs: seq<Request>): (ts: seq<Node>)
    ensures |ts| == |rs|
    decreases |rs|
  {
    if rs == [] then []
    else
      var (st', t) := Step(rules, st, rs[0]);
      [t] + Replies(rules, st', rs[1..])
  }

  lemma {:induction false} RunAppend(rules: Rules, st: State, a: seq<Request>, b: seq<Request>)
    ensures After(rules, st, a + b) == After(rules, After(rules, st, a), b)
    ensures Replies(rules, st, a + b) == Replies(rules, st, a) + Replies(rules, After(rules, st, a), b)
    decreases |a|
  {
    if a == [] {
      assert a + b == b;
    } else {
      RunAppend(rules, Step(rules, st, a[0]).0, a[1..], b);
      assert (a + b)[1..] == a[1..] + b;
    }
  }

  // --------------------------------------------------- the server on bytes

  /** A reader's result is a request when it is an array of strings. */
  predicate IsRequest(rep: Rep) {
    rep.Array? && forall k :: 0 <= k < |rep.elems| ==> rep.elems[k].Text?
  }

  function RequestOf(rep: Rep): (r: Request)
    requires IsRequest(rep)
  {
    seq(|rep.elems|, k requires 0 <= k < |rep.elems| => rep.elems[k].s)
  }

  /** A server connection: its state and the bytes of a request that has not
      arrived completely. */
  datatype Peer = Peer(state: State, partial: string)

  /** A byte stream cut into its complete requests and what is left behind the
      last of them. */
  datatype Framing = Framing(requests: seq<Request>, rest: string)

  function Split(input: string): Framing
    decreases |input|
  {
    match Parse(input)
    case Got(rep, rest) =>
      if IsRequest(rep) then
        var more := Split(rest);
        Framing([RequestOf(rep)] + more.requests, more.rest)
      else Framing([], input)
    case _ => Framing([], input)
  }

  /** Runs every complete request in `input`. The second component is what the
      server sends back. */
  function Serve(rules: Rules, st: State, input: string): (Peer, string) {
    var framing := Split(input);
    (Peer(After(rules, st, framing.requests), framing.rest),
     PrintAll(Replies(rules, st, framing.requests)))
  }

  function Receive(rules: Rules, peer: Peer, bytes: string): (Peer, string) {
    Serve(rules, peer.state, peer.partial + bytes)
  }

  /** A request reads back as itself, whatever bytes its strings hold and
      whatever follows it: commands sent back to back split uniquely. */
  lemma RequestRoundTrip(r: Request, rest: string)
    requires SendableRequest(r)
    ensures var o := Parse(Wire(r) + rest);
            o.Got? && IsRequest(o.rep) && RequestOf(o.rep) == r && o.rest == rest
  {
    var t := List(Bulks(r));
    ParsePrint(t, rest);
    var rep := RepOf(t);
    assert RequestOf(rep) == r;
  }

  lemma {:induction false} SplitInPieces(a: string, b: string)
    ensures var left := Split(a);
            var right := Split(left.rest + b);
            Split(a + b) == Framing(left.requests + right.requests, right.rest)
    decreases |a|
  {
    hide Parse, RequestOf, IsRequest;
    var o := Parse(a);
    if o.Got? && IsRequest(o.rep) {
      ParseExtend(a, b);
      var tail := o.rest + b;
      SplitNext(a, o.rep, o.rest);
      SplitNext(a + b, o.rep, tail);
      SplitInPieces(o.rest, b);
      var right := Split(Split(o.rest).rest + b);
      var r := [RequestOf(o.rep)];
      assert r + (Split(o.rest).requests + right.requests) == r + Split(o.rest).requests + right.requests;
    } else {
      assert Split(a) == Framing([], a);
    }
  }

  lemma SplitNext(input: string, rep: Rep, rest: string)
    requires Parse(input) == Got(rep, rest) && IsRequest(rep)
    ensures Split(input) == Framing([RequestOf(rep)] + Split(rest).requests, Split(rest).rest)
  {
  }

  /** How the sender slices its bytes makes no difference to the server: after
      `a` and then `b` it is where it would be after `a + b`, and has sent the
      same replies. */
  lemma ReceiveInPieces(rules: Rules, peer: Peer, a: string, b: string)
    ensures var (p1, out1) := Receive(rules, peer, a);
            var (p2, out2) := Receive(rules, p1, b);
            Receive(rules, peer, a + b) == (p2, out1 + out2)
  {
    var before := peer.partial + a;
    SplitInPieces(before, b);
    assert before + b == peer.partial + (a + b);
    var left := Split(before);
    var right := Split(left.rest + b);
    RunAppend(rules, peer.state, left.requests, right.requests);
    var st := After(rules, peer.state, left.requests);
    PrintAllAppend(Replies(rules, peer.state, left.requests), Replies(rules, st, right.requests));
  }

  lemma {:induction false} SplitRequests(rs: seq<Request>)
    requires forall k :: 0 <= k < |rs| ==> SendableRequest(rs[k])
    ensures Split(WireAll(rs)) == Framing(rs, "")
  {
    if rs == [] {
    } else {
      RequestRoundTrip(rs[0], WireAll(rs[1..]));
      SplitRequests(rs[1..]);
    }
  }

  /** Requests sent back to back are run in order and answered in order. */
  lemma ServeRequests(rules: Rules, st: State, rs: seq<Request>)
    requires forall k :: 0 <= k < |rs| ==> SendableRequest(rs[k])
    ensures Serve(rules, st, WireAll(rs))
         == (Peer(After(rules, st, rs), ""), PrintAll(Replies(rules, st, rs)))
  {
    SplitRequests(rs);
  }

  lemma ReceiveRequests(rules: Rules, st: State, rs: seq<Request>)
    requires forall k :: 0 <= k < |rs| ==> SendableRequest(rs[k])
    ensures Receive(rules, Peer(st, ""), WireAll(rs))
         == (Peer(After(rules, st, rs), ""), PrintAll(Replies(rules, st, rs)))
  {
    ServeRequests(rules, st, rs);
    assert "" + WireAll(rs) == WireAll(rs);
  }

  /** Any two sequences of sendable requests with the same bytes are the same. */
  lemma {:induction false} WireUnique(rs: seq<Request>, us: seq<Request>)
    requires forall k :: 0 <= k < |rs| ==> SendableRequest(rs[k])
    requires forall k :: 0 <= k < |us| ==> SendableRequest(us[k])
    requires WireAll(rs) == WireAll(us)
    ensures rs == us
  {
    hide Parse, RequestOf, IsRequest, Print;
    if rs == [] || us == [] {
    } else {
      RequestRoundTrip(rs[0], WireAll(rs[1..]));
      RequestRoundTrip(us[0], WireAll(us[1..]));
      WireUnique(rs[1..], us[1..]);
      assert rs == [rs[0]] + rs[1..] && us == [us[0]] + us[1..];
    }
  }

  // ---------------------------------------------------------- transactions

  predicate AllData(rs: seq<Request>) {
    forall k :: 0 <= k < |rs| ==> IsData(rs[k])
  }

  predicate NoneRefused(rules: Rules, rs: seq<Request>) {
    forall k :: 0 <= k < |rs| ==> !rules.refuses(rs[k])
  }

  function Accepted(rules: Rules, rs: seq<Request>): seq<Request> {
    if rs == [] then []
    else (if rules.refuses(rs[0]) then [] else [rs[0]]) + Accepted(rules, rs[1..])
  }

  /** What the server answers while commands are being queued. */
  function QueueReplies(rules: Rules, rs: seq<Request>): (ts: seq<Node>)
    ensures |ts| == |rs|
  {
    if rs == [] then []
    else [if rules.refuses(rs[0]) then REFUSED else QUEUED] + QueueReplies(rules, rs[1..])
  }

  lemma {:induction false} Queueing(rules: Rules, data: Data, queued: seq<Request>, dirty: bool, rs: seq<Request>)
    requires AllData(rs)
    ensures var st := State(data, Multi(queued, dirty));
            && Replies(rules, st, rs) == QueueReplies(rules, rs)
            && After(rules, st, rs)
            == State(data, Multi(queued + Accepted(rules, rs), dirty || !NoneRefused(rules, rs)))
    decreases |rs|
  {
    if rs == [] {
      assert queued + Accepted(rules, rs) == queued;
    } else {
      var refused := rules.refuses(rs[0]);
      Queueing(rules, data, if refused then queued else queued + [rs[0]], dirty || refused, rs[1..]);
      assert queued + [rs[0]] + Accepted(rules, rs[1..]) == queued + ([rs[0]] + Accepted(rules, rs[1..]));
      assert queued + ([] + Accepted(rules, rs[1..])) == queued + Accepted(rules, rs[1..]);
      RefusedSplit(rules, rs);
    }
  }

  lemma RefusedSplit(rules: Rules, rs: seq<Request>)
    requires rs != []
    ensures NoneRefused(rules, rs) <==> !rules.refuses(rs[0]) && NoneRefused(rules, rs[1..])
  {
    if !rules.refuses(rs[0]) && NoneRefused(rules, rs[1..]) {
      forall k | 0 <= k < |rs| ensures !rules.refuses(rs[k]) {
        if k > 0 {
          assert rs[k] == rs[1..][k - 1];
        }
      }
    }
  }

  lemma {:induction false} AllAccepted(rules: Rules, rs: seq<Request>)
    requires NoneRefused(rules, rs)
    ensures Accepted(rules, rs) == rs
    ensures QueueReplies(rules, rs) == seq(|rs|, _ => QUEUED)
  {
    if rs == [] {
    } else {
      AllAccepted(rules, rs[1..]);
    }
  }

  /** A refused command is answered with an error, and so is its transaction. */
  lemma {:induction false} RefusedAmongReplies(rules: Rules, rs: seq<Request>)
    ensures var ts := QueueReplies(rules, rs);
            && AllPrintable(ts) && (AllErrorFree(ts) <==> NoneRefused(rules, rs))
            && forall k :: 0 <= k < |ts| ==> InStep(ts[k]) && (ErrorFree(ts[k]) || ts[k] == REFUSED)
  {
    if rs == [] {
    } else {
      RefusedAmongReplies(rules, rs[1..]);
      RefusedSplit(rules, rs);
      var ts := QueueReplies(rules, rs);
      if ErrorFree(ts[0]) {
        FirstElementFree(ts);
      }
    }
  }

  function ExecReply(rules: Rules, data: Data, rs: seq<Request>): Node {
    if NoneRefused(rules, rs) then List(Answers(rules, data, rs)) else EXEC_ABORT
  }

  /** MULTI, the commands, EXEC: one OK, one reply per queued command, and then
      the array of answers; the data commands take effect together, in order,
      and only if none was refused. */
  lemma TransactionRun(rules: Rules, data: Data, rs: seq<Request>)
    requires AllData(rs)
    ensures var st := State(data, Normal);
            && Replies(rules, st, [MULTI] + rs + [EXEC])
            == [OK] + QueueReplies(rules, rs) + [ExecReply(rules, data, rs)]
            && After(rules, st, [MULTI] + rs + [EXEC])
            == State(if NoneRefused(rules, rs) then data + rs else data, Normal)
  {
    var st := State(data, Normal);
    var st1 := State(data, Multi([], false));
    assert Step(rules, st, MULTI) == (st1, OK);
    One(rules, st, MULTI);
    RunAppend(rules, st, [MULTI], rs);
    Queueing(rules, data, [], false, rs);
    if NoneRefused(rules, rs) {
      AllAccepted(rules, rs);
    }
    RunAppend(rules, st, [MULTI] + rs, [EXEC]);
    One(rules, After(rules, st1, rs), EXEC);
    assert [] + Accepted(rules, rs) == Accepted(rules, rs);
  }

  /** MULTI, the commands, DISCARD: no effect at all. */
  lemma DiscardRun(rules: Rules, data: Data, rs: seq<Request>)
    requires AllData(rs)
    ensures var st := State(data, Normal);
            && Replies(rules, st, [MULTI] + rs + [DISCARD]) == [OK] + QueueReplies(rules, rs) + [OK]
            && After(rules, st, [MULTI] + rs + [DISCARD]) == st
  {
    var st := State(data, Normal);
    var st1 := State(data, Multi([], false));
    assert Step(rules, st, MULTI) == (st1, OK);
    One(rules, st, MULTI);
    RunAppend(rules, st, [MULTI], rs);
    Queueing(rules, data, [], false, rs);
    RunAppend(rules, st, [MULTI] + rs, [DISCARD]);
    One(rules, After(rules, st1, rs), DISCARD);
  }

  lemma One(rules: Rules, st: State, r: Request)
    ensures Replies(rules, st, [r]) == [Step(rules, st, r).1]
    ensures After(rules, st, [r]) == Step(rules, st, r).0
  {
    assert After(rules, Step(rules, st, r).0, []) == Step(rules, st, r).0;
  }

  /** EXEC and DISCARD outside of a transaction and MULTI inside of one are
      answered with an error and change nothing. */
  lemma MisplacedChangeNothing(rules: Rules, data: Data, queued: seq<Request>, dirty: bool)
    ensures var (outside, inside) := (State(data, Normal), State(data, Multi(queued, dirty)));
            && Step(rules, outside, ["EXEC"]) == (outside, Err("ERR"))
            && Step(rules, outside, ["DISCARD"]) == (outside, Err("ERR"))
            && Step(rules, inside, ["MULTI"]) == (inside, Err("ERR"))
  {
    assert MULTI[0] != EXEC[0] && MULTI[0] != DISCARD[0] && EXEC[0] != DISCARD[0];
  }

  /** Run one at a time outside a transaction, the same commands leave the same
      data and give the same answers. */
  lemma {:induction false} PlainRun(rules: Rules, data: Data, rs: seq<Request>)
    requires AllData(rs)
    ensures Replies(rules, State(data, Normal), rs) == Answers(rules, data, rs)
    ensures After(rules, State(data, Normal), rs) == State(data + rs, Normal)
    decreases |rs|
  {
    if rs == [] {
      assert data + rs == data;
    } else {
      PlainRun(rules, data + [rs[0]], rs[1..]);
      assert data + [rs[0]] + rs[1..] == data + rs;
    }
  }
}
