// The buffered socket of src/socket.cpp, with the operating system's recv and
// sendmsg as transfers of an arbitrary number of bytes.
module Socket {
  import opened Resp
  import opened Server

  /** Why a read gives nothing back. Thrown is a C++ exception. Short is a
      refill recv that brought fewer bytes than the caller still needs: the
      source goes on with stale bytes there, the model stops. Blocked is a recv
      that never gets another byte. */
  datatype Failure = Thrown(error: Error) | Short | Blocked

  datatype Result<+T> = Ok(value: T) | Fail(failure: Failure) {
    predicate IsFailure() { Fail? }
    function PropagateFailure<U>(): Result<U>
      requires Fail?
    {
      Fail(failure)
    }
    function Extract(): T
      requires Ok?
    {
      value
    }
  }

  const N: nat := 256

  function Min(a: int, b: int): int {
    if a < b then a else b
  }

  // ----------------------------------------------------------- scatter-gather

  /** A block of a scatter-gather write: `len` bytes of `cmd` from `base` on. */
  datatype Iovec = Iovec(cmd: string, base: int, len: int) {
    predicate Inside() {
      0 <= base && 0 <= len && base + len <= |cmd|
    }
    function Bytes(): string
      requires Inside()
    {
      cmd[base..base + len]
    }
  }

  predicate AllInside(iov: seq<Iovec>) {
    forall k :: 0 <= k < |iov| ==> iov[k].Inside()
  }

  function Gather(iov: seq<Iovec>): string
    requires AllInside(iov)
  {
    if iov == [] then "" else iov[0].Bytes() + Gather(iov[1..])
  }

  function Concat(data: seq<string>): string {
    if data == [] then "" else data[0] + Concat(data[1..])
  }

  function Whole(data: seq<string>): (iov: seq<Iovec>)
    ensures |iov| == |data| && AllInside(iov)
  {
    seq(|data|, k requires 0 <= k < |data| => Iovec(data[k], 0, |data[k]|))
  }

  lemma {:induction false} GatherWhole(data: seq<string>)
    ensures Gather(Whole(data)) == Concat(data)
  {
    if data == [] {
    } else {
      GatherWhole(data[1..]);
      assert Whole(data)[1..] == Whole(data[1..]);
    }
  }

  // --------------------------------------------------------- recv while skipping

  /** How many of `left` incoming bytes the `call`-th recv returns when asked
      for `n`: at least one, if there is any, and at most what was asked. */
  function RecvSize(grant: nat -> nat, call: nat, n: nat, left: nat): nat {
    Min(Min(n, left), 1 + grant(call))
  }

  /** How many bytes the loop of Socket::discard really takes off the stream:
      it subtracts what it asks for, not what it is given. */
  function Skipped(grant: nat -> nat, call: nat, remain: nat, left: nat): (k: nat)
    ensures k <= left && k <= remain
    decreases remain
  {
    if remain == 0 then 0
    else
      var m := Min(N, remain);
      var r := RecvSize(grant, call, m, left);
      r + Skipped(grant, call + 1, remain - m, left - r)
  }

  /** Every recv of that loop returns all it was asked for. */
  ghost predicate SkipsFully(grant: nat -> nat, call: nat, remain: nat) {
    forall j: nat :: N * j < remain ==> 1 + grant(call + j) >= Min(N, remain - N * j)
  }

  lemma SkipsFullyNext(grant: nat -> nat, call: nat, remain: nat)
    requires remain > 0
    ensures var m := Min(N, remain);
            SkipsFully(grant, call, remain) <==> 1 + grant(call) >= m && SkipsFully(grant, call + 1, remain - m)
  {
    var m := Min(N, remain);
    if SkipsFully(grant, call, remain) {
      assert N * 0 < remain;
      forall j: nat | N * j < remain - m
        ensures 1 + grant(call + 1 + j) >= Min(N, remain - m - N * j)
      {
        assert N * (j + 1) < remain;
        assert call + (j + 1) == call + 1 + j;
      }
    }
    if 1 + grant(call) >= m && SkipsFully(grant, call + 1, remain - m) {
      forall j: nat | N * j < remain
        ensures 1 + grant(call + j) >= Min(N, remain - N * j)
      {
        if j > 0 {
          assert N * (j - 1) < remain - m;
          assert call + 1 + (j - 1) == call + j;
        }
      }
    }
  }

  /** Socket::discard takes exactly the bytes it was told to when, and only
      when, they have been sent and no recv of its loop comes up short. */
  lemma {:induction false} SkippedExactly(grant: nat -> nat, call: nat, remain: nat, left: nat)
    ensures Skipped(grant, call, remain, left) == remain
       <==> remain <= left && SkipsFully(grant, call, remain)
    decreases remain
  {
    if remain == 0 {
    } else {
      var m := Min(N, remain);
      var r := RecvSize(grant, call, m, left);
      SkippedExactly(grant, call + 1, remain - m, left - r);
      SkipsFullyNext(grant, call, remain);
    }
  }

  function Sum(takes: seq<nat>): nat {
    if takes == [] then 0 else takes[0] + Sum(takes[1..])
  }

  /** `takes` is what recvs return one after the other, the j-th of them asked for
      what is left of `remain` after j full buffers. */
  predicate TakenInTurn(grant: nat -> nat, call: nat, remain: nat, left: nat, takes: seq<nat>) {
    && |takes| == (remain + 255) / 256
    && forall j :: 0 <= j < |takes| ==>
         takes[j] == Min(Min(Min(256, remain - 256 * j), left - Sum(takes[..j])), 1 + grant(call + j))
  }

  lemma TakenFirst(grant: nat -> nat, call: nat, remain: nat, left: nat, more: seq<nat>)
    requires remain > 0
    requires var m := Min(N, remain);
             TakenInTurn(grant, call + 1, remain - m, left - RecvSize(grant, call, m, left), more)
    ensures TakenInTurn(grant, call, remain, left, [RecvSize(grant, call, Min(N, remain), left)] + more)
  {
    var r := RecvSize(grant, call, Min(N, remain), left);
    var takes := [r] + more;
    assert |takes| == (remain + 255) / 256;
    forall j | 0 <= j < |takes|
      ensures takes[j] == Min(Min(Min(256, remain - 256 * j), left - Sum(takes[..j])), 1 + grant(call + j))
    {
      if j > 0 {
        assert takes[..j][1..] == more[..j - 1] && takes[j] == more[j - 1];
        assert Sum(takes[..j]) == r + Sum(more[..j - 1]);
        assert call + 1 + (j - 1) == call + j;
      }
    }
  }

  /** The bytes that loop takes are what its recvs return, however little those
      before have brought. */
  lemma {:induction false} SkippedInTurn(grant: nat -> nat, call: nat, remain: nat, left: nat)
    returns (takes: seq<nat>)
    ensures TakenInTurn(grant, call, remain, left, takes) && Skipped(grant, call, remain, left) == Sum(takes)
    decreases remain
  {
    if remain == 0 {
      takes := [];
    } else {
      hide TakenInTurn;
      var m := Min(N, remain);
      var r := RecvSize(grant, call, m, left);
      var more := SkippedInTurn(grant, call + 1, remain - m, left - r);
      takes := [r] + more;
      assert takes[1..] == more;
      TakenFirst(grant, call, remain, left, more);
    }
  }

  /** Every recv of that loop finds a byte on the stream; one that does not waits
      for ever. */
  predicate Finds(grant: nat -> nat, call: nat, remain: nat, left: nat)
    decreases remain
  {
    remain == 0 ||
    var m := Min(N, remain);
    left > 0 && Finds(grant, call + 1, remain - m, left - RecvSize(grant, call, m, left))
  }

  /** There is still a byte after j full buffers have been asked for. */
  predicate LeftAfter(grant: nat -> nat, call: nat, left: nat, j: nat) {
    Skipped(grant, call, 256 * j, left) < left
  }

  lemma {:induction false} FindsExactly(grant: nat -> nat, call: nat, remain: nat, left: nat)
    ensures Finds(grant, call, remain, left)
       <==> forall j: nat :: 256 * j < remain ==> LeftAfter(grant, call, left, j)
    decreases remain
  {
    if remain == 0 {
    } else {
      var m := Min(N, remain);
      var left' := left - RecvSize(grant, call, m, left);
      FindsExactly(grant, call + 1, remain - m, left');
      assert LeftAfter(grant, call, left, 0) <==> left > 0;
      if Finds(grant, call, remain, left) {
        forall j: nat | 256 * j < remain ensures LeftAfter(grant, call, left, j) {
          if j > 0 {
            OneBufferMore(grant, call, remain, left, j);
            assert LeftAfter(grant, call + 1, left', j - 1);
          }
        }
      } else if left > 0 {
        var j: nat :| 256 * j < remain - m && !LeftAfter(grant, call + 1, left', j);
        OneBufferMore(grant, call, remain, left, j + 1);
        assert !LeftAfter(grant, call, left, j + 1);
      }
    }
  }

  lemma OneBufferMore(grant: nat -> nat, call: nat, remain: nat, left: nat, j: nat)
    requires j > 0 && 256 * j < remain
    ensures var r := RecvSize(grant, call, Min(N, remain), left);
            Skipped(grant, call, 256 * j, left) == r + Skipped(grant, call + 1, 256 * (j - 1), left - r)
  {
  }

  /** A concrete case of both flaws: two bytes are wanted and on their way, and
      recv returns one at a time. The one recv of a refill brings one byte, and
      discard takes one byte off the stream. */
  lemma OneByteAtATime()
    ensures var slow := (call: nat) => 0;
            RecvSize(slow, 0, N, 2) == 1 && Skipped(slow, 0, 2, 2) == 1
  {
    var slow: nat -> nat := (call: nat) => 0;
    assert RecvSize(slow, 0, 2, 2) == 1;
    assert Skipped(slow, 1, 0, 1) == 0;
  }

  // ------------------------------------------------------------------ socket

  class Socket {
    const buf: array<char>
    var size: int
    var pos: int
    var iov: seq<Iovec>
    var first: int
    var count: int

    // The other end of the connection: the server, what it has sent and this
    // side has not received, and the sizes of the transfers to come.
    const rules: Rules
    const grant: nat -> nat
    const accept: nat -> nat
    var peer: Peer
    var incoming: string
    var recvs: nat
    var sends: nat

    ghost predicate Valid()
      reads this
    {
      buf.Length == N && 0 <= pos <= size <= N
    }

    /** The bytes still to be read: the rest of the buffer, then the network. */
    ghost function Stream(): string
      reads this, buf
      requires Valid()
    {
      buf[pos..size] + incoming
    }

    /** Every recv returns at least `n` bytes, or all it is asked for, or all
        there is. */
    ghost predicate Grants(n: nat) {
      forall k: nat :: 1 + grant(k) >= Min(N, n)
    }

    /** Every recv returns all it is asked for, or all there is. */
    ghost predicate Prompt() {
      Grants(N)
    }

    constructor (rules: Rules, grant: nat -> nat, accept: nat -> nat)
      ensures Valid() && fresh(buf) && buf.Length == 256 && Stream() == ""
      ensures this.rules == rules && this.grant == grant && this.accept == accept
      ensures peer == Peer(State([], Normal), "")
    {
      buf := new char[N];
      size, pos := 0, 0;
      iov, first, count := [], 0, 0;
      this.rules, this.grant, this.accept := rules, grant, accept;
      peer := Peer(State([], Normal), "");
      incoming := "";
      recvs, sends := 0, 0;
    }

    /** recv: the next bytes of the stream, as many as the call is granted. */
    method Recv(n: nat) returns (chunk: string)
      modifies this`incoming, this`recvs
      ensures |chunk| == RecvSize(grant, old(recvs), n, |old(incoming)|)
      ensures chunk + incoming == old(incoming)
      ensures recvs == old(recvs) + 1
    {
      var k := RecvSize(grant, recvs, n, |incoming|);
      chunk, incoming := incoming[..k], incoming[k..];
      recvs := recvs + 1;
    }

    /** The view of what is buffered. */
    function Peek(): string
      reads this, buf
      requires Valid()
    {
      buf[pos..size]
    }

    /** Whether read(n) gets all it needs: from the buffer, from as many recvs
        as it takes, or from the one recv that refills the buffer. */
    ghost predicate Covered(n: nat)
      reads this
      requires Valid()
    {
      var need := n - (size - pos);
      || need <= 0
      || (need > N && need <= |incoming|)
      || (need <= N && need <= RecvSize(grant, recvs, N, |incoming|))
    }

    /** A read is covered by a peer that grants as much as it needs. */
    lemma GrantsCover(n: nat)
      requires Valid() && Grants(n) && n <= |Stream()|
      ensures Covered(n)
    {
    }

    lemma PromptCovers(n: nat)
      requires Valid() && Prompt() && n <= |Stream()|
      ensures Grants(n) && Covered(n)
    {
      GrantsCover(n);
    }

    /** do_read into the front of the buffer. */
    method FillBuffer(n: nat) returns (r: nat)
      requires buf.Length == N && n <= N
      modifies this`incoming, this`recvs, buf
      ensures r == RecvSize(grant, old(recvs), n, |old(incoming)|)
      ensures buf[..r] == old(incoming)[..r] && incoming == old(incoming)[r..]
      ensures recvs == old(recvs) + 1
    {
      var chunk := Recv(n);
      r := |chunk|;
      forall k | 0 <= k < r {
        buf[k] := chunk[k];
      }
    }

    /** The loop of Socket::read that skips buffering. */
    method ReadDirect(n: nat) returns (r: Result<string>)
      modifies this`incoming, this`recvs
      ensures r.Ok? <==> n <= |old(incoming)|
      ensures r.Ok? ==> r.value == old(incoming)[..n] && incoming == old(incoming)[n..]
      ensures r.Fail? ==> r.failure == Blocked
    {
      var out := "";
      while |out| < n
        invariant |out| <= n && out + incoming == old(incoming)
        decreases n - |out|
      {
        var chunk := Recv(n - |out|);
        if chunk == "" {
          return Fail(Blocked);
        }
        out := out + chunk;
      }
      return Ok(out);
    }

    /** Socket::read. It returns the next n bytes exactly when it is covered;
        otherwise either nothing more ever arrives or m_pos has moved past
        m_size and the buffer no longer stands for any stream. */
    method Read(n: nat) returns (r: Result<string>)
      requires Valid()
      modifies this`size, this`pos, this`incoming, this`recvs, buf
      ensures r.Ok? <==> old(Covered(n))
      ensures r.Ok? ==> Valid() && |r.value| == n
      ensures r.Ok? ==> r.value + Stream() == old(Stream())
      ensures r.Fail? ==> r.failure == Short || r.failure == Blocked
      ensures r == Fail(Short) ==> pos > size && n > 1
      ensures r == Fail(Blocked) ==> |old(Stream())| < n
      ensures var need := n - old(size - pos);
              && (need <= 0 ==> incoming == old(incoming) && recvs == old(recvs))
              && (0 < need <= 256 ==> Refilled(need, old(recvs), old(incoming)))
              && (need > 256 && r.Ok? ==> Peek() == "")
    {
      var avail := size - pos;
      if n <= avail {
        var out := buf[pos..pos + n];
        pos := pos + n;
        assert out + buf[pos..size] == old(buf[pos..size]);
        return Ok(out);
      }
      var out := buf[pos..size];
      if avail > 0 {
        size, pos := 0, 0;
      }
      var rest :- ReadUnbuffered(n - avail);
      assert out + (rest + Stream()) == out + rest + Stream();
      return Ok(out + rest);
    }

    /** One recv has been asked for a whole buffer, and the first `need` bytes of
        what it brought are taken, brought or not. */
    ghost predicate Refilled(need: nat, call: nat, arriving: string)
      reads this
    {
      var got := Min(Min(256, |arriving|), 1 + grant(call));
      recvs == call + 1 && size == got && pos == need && incoming == arriving[got..]
    }

    /** The part of Socket::read behind an empty buffer: more than a buffer's
        worth is received straight into the caller's memory. */
    method ReadUnbuffered(n: nat) returns (r: Result<string>)
      requires Valid() && pos == size && n > 0
      modifies this`size, this`pos, this`incoming, this`recvs, buf
      ensures r.Ok? <==> old(Covered(n))
      ensures r.Ok? ==> Valid() && |r.value| == n && r.value + Stream() == old(incoming)
      ensures r.Fail? ==> r.failure == Short || r.failure == Blocked
      ensures r == Fail(Short) ==> pos > size && n > 1
      ensures r == Fail(Blocked) ==> |old(incoming)| < n
      ensures n <= 256 ==> Refilled(n, old(recvs), old(incoming))
      ensures n > 256 && r.Ok? ==> Peek() == ""
    {
      if n > N {
        r := ReadDirect(n);
        assert r.Ok? ==> Stream() == incoming;
      } else {
        r := ReadRefilling(n);
      }
    }

    /** The tail of Socket::read: one recv fills the buffer, and the request is
        taken from it without a look at how much has come. */
    method ReadRefilling(n: nat) returns (r: Result<string>)
      requires buf.Length == N && n <= N
      modifies this`size, this`pos, this`incoming, this`recvs, buf
      ensures r.Ok? <==> n <= RecvSize(grant, old(recvs), N, |old(incoming)|) && old(incoming) != ""
      ensures r.Ok? ==> Valid() && |r.value| == n && r.value + Stream() == old(incoming)
      ensures r.Fail? ==> r.failure == Short || (r.failure == Blocked && old(incoming) == "")
      ensures r == Fail(Short) ==> pos > size && n > 1
      ensures Refilled(n, old(recvs), old(incoming))
    {
      size := FillBuffer(N);
      pos := n;
      if size == 0 {
        return Fail(Blocked);
      }
      if size < n {
        return Fail(Short);
      }
      assert buf[..n] + buf[n..size] == buf[..size];
      assert buf[..size] + incoming == old(incoming);
      return Ok(buf[..n]);
    }

    /** Socket::discard: from the buffer if it can, otherwise by recvs whose
        results it does not look at. */
    method Discard(n: nat) returns (r: Result<()>)
      requires Valid()
      modifies this`pos, this`incoming, this`recvs, buf
      ensures Valid()
      ensures r.Fail? ==> r.failure == Blocked && |old(Stream())| < n
      ensures n <= old(size - pos) ==> r.Ok? && Stream() == old(Stream())[n..]
      ensures var need := n - old(size - pos);
              r.Ok? <==> need <= 0 || Finds(grant, old(recvs), need, |old(incoming)|)
      ensures var avail := old(size - pos);
              r.Ok? && n > avail ==>
                Stream() == old(Stream())[avail + Skipped(grant, old(recvs), n - avail, |old(incoming)|)..]
    {
      var avail := size - pos;
      if n <= avail {
        pos := pos + n;
        assert buf[pos..size] == old(buf[pos..size])[n..];
      } else {
        var dropped :- DiscardLoop(n - avail);
        pos := size;
        assert buf[pos..size] == "";
        assert old(Stream())[avail + dropped..] == old(incoming)[dropped..];
      }
      return Ok(());
    }

    method DiscardLoop(n: nat) returns (r: Result<nat>)
      requires buf.Length == N
      modifies this`incoming, this`recvs, buf
      ensures r.Fail? ==> r.failure == Blocked && |old(incoming)| < n
      ensures r.Ok? <==> Finds(grant, old(recvs), n, |old(incoming)|)
      ensures r.Ok? ==> r.value == Skipped(grant, old(recvs), n, |old(incoming)|)
      ensures r.Ok? ==> incoming == old(incoming)[r.value..]
    {
      var remain := n;
      var dropped := 0;
      while remain > 0
        invariant 0 <= remain && dropped <= |old(incoming)| && dropped + remain <= n
        invariant incoming == old(incoming)[dropped..]
        invariant remain < n ==> dropped > 0
        invariant Finds(grant, recvs, remain, |incoming|) <==> Finds(grant, old(recvs), n, |old(incoming)|)
        invariant dropped + Skipped(grant, recvs, remain, |incoming|)
               == Skipped(grant, old(recvs), n, |old(incoming)|)
      {
        var m := Min(N, remain);
        var got := FillBuffer(m);
        if got == 0 {
          return Fail(Blocked);
        }
        assert old(incoming)[dropped..][got..] == old(incoming)[dropped + got..];
        dropped := dropped + got;
        remain := remain - m;
      }
      return Ok(dropped);
    }

    /** _read_line overshoots the buffer by at most one byte, and one byte is
        always granted: the flaw of the loop never shows there. */
    lemma DiscardOneMore(n: nat)
      requires Valid() && n == size - pos + 1 && incoming != ""
      ensures Skipped(grant, recvs, 1, |incoming|) == 1
    {
      assert Skipped(grant, recvs + 1, 0, |incoming| - 1) == 0;
    }

    // ------------------------------------------------------------- sending

    ghost predicate WindowOk()
      reads this
    {
      0 <= first && 0 <= count && first + count == |iov| && AllInside(iov)
    }

    ghost function Window(): string
      reads this
      requires WindowOk()
    {
      Gather(iov[first..])
    }

    /** sendmsg: the server receives the first bytes of the window, at least one
        if there is any, and its replies are on their way. */
    method SendMsg() returns (ret: nat)
      requires WindowOk()
      modifies this`peer, this`incoming, this`sends
      ensures ret == Min(|Window()|, 1 + accept(old(sends)))
      ensures Received(old(peer), old(incoming), Window()[..ret])
      ensures sends == old(sends) + 1
    {
      var window := Gather(iov[first..]);
      ret := Min(|window|, 1 + accept(sends));
      var (p, out) := Receive(rules, peer, window[..ret]);
      peer, incoming := p, incoming + out;
      sends := sends + 1;
    }

    /** Drops the `ret` accepted bytes from the window: whole blocks first, then
        the front of the next one. */
    method Advance(ret0: nat)
      requires WindowOk() && ret0 <= |Window()|
      modifies this`iov, this`first, this`count
      ensures WindowOk() && Window() == old(Window())[ret0..]
    {
      var ret := ret0;
      while first < |iov|
        invariant WindowOk() && 0 <= ret <= |Window()|
        invariant Window()[ret..] == old(Window())[ret0..]
        decreases count
      {
        ghost var before := Window();
        assert iov[first..][1..] == iov[first + 1..];
        var io := iov[first];
        if ret >= io.len {
          ret := ret - io.len;
          first := first + 1;
          count := count - 1;
          assert before == io.Bytes() + Window();
        } else {
          var rest := Iovec(io.cmd, io.base + ret, io.len - ret);
          ghost var tail := iov[first + 1..];
          iov := iov[first := rest];
          assert iov[first + 1..] == tail;
          assert iov[first..] == [rest] + iov[first + 1..];
          assert rest.Bytes() == io.Bytes()[ret..];
          assert Window() == before[ret..];
          return;
        }
      }
    }

    /** Queues one block per command. */
    method Load(data: seq<string>) returns (n: nat)
      modifies this`iov, this`first, this`count
      ensures WindowOk() && Window() == Concat(data) && n == |Concat(data)|
    {
      iov := Whole(data);
      first, count := 0, |iov|;
      GatherWhole(data);
      assert iov[0..] == iov;
      n := |Gather(iov)|;
    }

    /** Socket::write_many with the partial-send arithmetic its comments
        describe: blocks sent whole leave the window, a block sent in part is
        adjusted and kept. Module WriteAsWritten has the arithmetic as written. */
    method WriteMany(data: seq<string>)
      modifies this`iov, this`first, this`count, this`peer, this`incoming, this`sends
      ensures data == [] ==> peer == old(peer) && incoming == old(incoming)
      ensures data != [] ==> Received(old(peer), old(incoming), Concat(data))
    {
      if data == [] {
        return;
      }
      var n := Load(data);
      var ret := SendMsg();
      ghost var sent := Window()[..ret];
      assert sent + Window()[ret..] == Window();
      while ret < n
        invariant WindowOk() && |Window()| == n && 0 <= ret <= n
        invariant ret < n ==> ret > 0
        invariant sent + Window()[ret..] == Concat(data)
        invariant Received(old(peer), old(incoming), sent)
        decreases n - ret
      {
        n := n - ret;
        Advance(ret);
        ret, sent := SendRest(old(peer), old(incoming), sent);
      }
      assert Window()[ret..] == "" && sent + "" == sent;
    }

    /** One more sendmsg of write_many's loop. */
    method SendRest(ghost p0: Peer, ghost incoming0: string, ghost sent: string)
      returns (ret: nat, ghost sent': string)
      requires WindowOk() && Received(p0, incoming0, sent)
      modifies this`peer, this`incoming, this`sends
      ensures ret <= |Window()| && (Window() != "" ==> ret > 0)
      ensures sent' + Window()[ret..] == sent + Window()
      ensures Received(p0, incoming0, sent')
    {
      hide Receive, Gather, AllInside;
      ghost var before, pending := peer, incoming;
      ret := SendMsg();
      ghost var piece := Window()[..ret];
      ReceivedMore(p0, incoming0, before, pending, sent, piece);
      sent' := sent + piece;
      assert piece + Window()[ret..] == Window();
    }

    /** The server has received `bytes` since it was `p0`, and its replies have
        joined what was incoming then. */
    ghost predicate Received(p0: Peer, incoming0: string, bytes: string)
      reads this
    {
      var (p, out) := Receive(rules, p0, bytes);
      peer == p && incoming == incoming0 + out
    }

    lemma ReceivedMore(p0: Peer, incoming0: string, p1: Peer, incoming1: string, sent: string, piece: string)
      requires Receive(rules, p0, sent).0 == p1 && incoming0 + Receive(rules, p0, sent).1 == incoming1
      requires Received(p1, incoming1, piece)
      ensures Received(p0, incoming0, sent + piece)
    {
      hide Receive;
      ReceiveInPieces(rules, p0, sent, piece);
      var out1, out2 := Receive(rules, p0, sent).1, Receive(rules, p1, piece).1;
      assert incoming0 + out1 + out2 == incoming0 + (out1 + out2);
    }
  }
}
