// Socket::write_many with the partial-send arithmetic exactly as it stands in
// src/socket.cpp:156-177: the walk over the queue restarts at its front on
// every round, and a block sent in part is moved by `n - ret`, the number of
// bytes not yet sent. Module Socket has the arithmetic the comments describe.
module WriteAsWritten {
  import opened Socket

  /** The msghdr and its queue. A length below zero is a size_t that has wrapped
      around: larger than any byte count, and refused by the kernel. */
  datatype Msg = Msg(iov: seq<Iovec>, first: int, count: int)

  /** The locals of the loop. */
  datatype Loop = Loop(msg: Msg, n: int, ret: int)

  /** The for loop from block `i` on. */
  function Walk(l: Loop, i: nat): (l': Loop)
    requires i <= |l.msg.iov|
    ensures |l'.msg.iov| == |l.msg.iov|
    ensures l'.n - l'.ret == l.n - l.ret
    ensures 0 <= l.ret ==> 0 <= l'.ret
    decreases |l.msg.iov| - i
  {
    if i == |l.msg.iov| then l
    else
      var io := l.msg.iov[i];
      if 0 <= io.len <= l.ret then
        Walk(Loop(Msg(l.msg.iov, l.msg.first + 1, l.msg.count - 1), l.n - io.len, l.ret - io.len), i + 1)
      else
        var sent := l.n - l.ret;
        l.(msg := l.msg.(iov := l.msg.iov[i := Iovec(io.cmd, io.base + sent, io.len - sent)]))
  }

  /** A window the kernel accepts: inside the queue, with lengths that stay
      inside the blocks. */
  predicate Sendable(msg: Msg) {
    && 0 <= msg.first && 0 <= msg.count && msg.first + msg.count <= |msg.iov|
    && AllInside(msg.iov[msg.first..msg.first + msg.count])
  }

  function Window(msg: Msg): string
    requires Sendable(msg)
  {
    Gather(msg.iov[msg.first..msg.first + msg.count])
  }

  /** Returned and Threw are the ends of the call; Pending is a call that is
      still running when `script`, the byte counts that sendmsg accepts one
      after the other, is used up. */
  datatype Outcome =
    | Returned(delivered: string)
    | Threw(delivered: string)
    | Pending(delivered: string)

  /** The while loop. */
  function Rounds(l: Loop, delivered: string, script: seq<nat>): Outcome
    decreases |script|
  {
    if l.ret >= l.n then Returned(delivered)
    else if script == [] then Pending(delivered)
    else
      var l' := Walk(l, 0);
      if !Sendable(l'.msg) then Threw(delivered)
      else
        var window := Window(l'.msg);
        var k := Min(|window|, script[0]);
        Rounds(l'.(ret := k), delivered + window[..k], script[1..])
  }

  function Written(data: seq<string>, script: seq<nat>): Outcome {
    var bytes := Concat(data);
    if data == [] then Returned("")
    else if script == [] then Pending("")
    else
      var k := Min(|bytes|, script[0]);
      Rounds(Loop(Msg(Whole(data), 0, |data|), |bytes|, k), bytes[..k], script[1..])
  }

  /** The members of Socket that write_many works on. */
  class Sender {
    var iov: seq<Iovec>
    var first: int
    var count: int

    constructor ()
    {
      iov, first, count := [], 0, 0;
    }

    /** The statements of Socket::write_many; `script` plays the kernel. */
    method WriteMany(data: seq<string>, script: seq<nat>) returns (o: Outcome)
      modifies this
      ensures o == Written(data, script)
      ensures forall i :: 0 <= i < |data| && |script| >= 2 && EndsIn(data, script[0], i) ==>
                SentOn(data, i, script[0], script[1], script[2..], o)
    {
      forall i | 0 <= i < |data| && |script| >= 2 && EndsIn(data, script[0], i)
        ensures SentOn(data, i, script[0], script[1], script[2..], Written(data, script))
      {
        assert script == [script[0], script[1]] + script[2..];
        SecondSend(data, i, script[0], script[1], script[2..]);
      }
      if data == [] {
        return Returned("");
      }
      iov := Whole(data);
      first, count := 0, |iov|;
      var bytes := Concat(data);
      var n := |bytes|;
      if script == [] {
        return Pending("");
      }
      var calls := script;
      var ret := Min(n, calls[0]);
      var delivered := bytes[..ret];
      calls := calls[1..];
      while ret < n
        invariant Rounds(Loop(Msg(iov, first, count), n, ret), delivered, calls)
               == Written(data, script)
        decreases |calls|
      {
        ghost var before := Loop(Msg(iov, first, count), n, ret);
        if calls == [] {
          return Pending(delivered);
        }
        n, ret := OneWalk(n, ret);
        var msg := Msg(iov, first, count);
        if !Sendable(msg) {
          return Threw(delivered);
        }
        var window := Window(msg);
        ret := Min(|window|, calls[0]);
        delivered := delivered + window[..ret];
        calls := calls[1..];
      }
      return Returned(delivered);
    }

    /** The for loop over m_iov_queue. */
    method OneWalk(n0: int, ret0: int) returns (n: int, ret: int)
      modifies this
      ensures Loop(Msg(iov, first, count), n, ret)
           == Walk(Loop(Msg(old(iov), old(first), old(count)), n0, ret0), 0)
    {
      n, ret := n0, ret0;
      for i := 0 to |iov|
        invariant iov == old(iov)
        invariant Walk(Loop(Msg(iov, first, count), n, ret), i)
               == Walk(Loop(Msg(old(iov), old(first), old(count)), n0, ret0), 0)
      {
        var io := iov[i];
        if 0 <= io.len <= ret {
          ret := ret - io.len;
          first := first + 1;
          count := count - 1;
          n := n - io.len;
        } else {
          var sent := n - ret;
          iov := iov[i := Iovec(io.cmd, io.base + sent, io.len - sent)];
          return;
        }
      }
    }
  }

  // ----------------------------------------------------- what it comes to

  /** A round that abandons accepted bytes counts them twice: from then on, if
      the loop ever ends, too much has been delivered. */
  lemma {:induction false} CountedTwice(l: Loop, delivered: string, script: seq<nat>, total: nat)
    requires 0 <= l.ret && |delivered| - l.ret + l.n > total
    ensures var o := Rounds(l, delivered, script); o.Returned? ==> |o.delivered| > total
    decreases |script|
  {
    if l.ret < l.n && script != [] {
      var l' := Walk(l, 0);
      if Sendable(l'.msg) {
        var window := Window(l'.msg);
        var k := Min(|window|, script[0]);
        CountedTwice(l'.(ret := k), delivered + window[..k], script[1..], total);
      }
    }
  }

  /** Bytes are still owed, but no block of the window has any left. */
  predicate Dead(msg: Msg) {
    0 <= msg.first && forall k :: msg.first <= k < |msg.iov| ==> msg.iov[k].len <= 0
  }

  lemma {:induction false} WalkStaysDead(l: Loop, i: nat)
    requires i <= |l.msg.iov| && Dead(l.msg) && l.ret == 0 < l.n
    ensures var l' := Walk(l, i); Dead(l'.msg) && l'.ret == 0 && l'.n == l.n
    decreases |l.msg.iov| - i
  {
    if i < |l.msg.iov| {
      var io := l.msg.iov[i];
      if io.len == 0 {
        WalkStaysDead(Loop(Msg(l.msg.iov, l.msg.first + 1, l.msg.count - 1), l.n, 0), i + 1);
      }
    }
  }

  lemma {:induction false} GatherNothing(iov: seq<Iovec>)
    requires AllInside(iov) && forall k :: 0 <= k < |iov| ==> iov[k].len <= 0
    ensures Gather(iov) == ""
  {
    if iov == [] {
    } else {
      GatherNothing(iov[1..]);
    }
  }

  lemma {:induction false} DeadNeverReturns(l: Loop, delivered: string, script: seq<nat>)
    requires Dead(l.msg) && l.ret == 0 < l.n
    ensures !Rounds(l, delivered, script).Returned?
    decreases |script|
  {
    if script == [] {
    } else {
      var l' := Walk(l, 0);
      WalkStaysDead(l, 0);
      if Sendable(l'.msg) {
        GatherNothing(l'.msg.iov[l'.msg.first..l'.msg.first + l'.msg.count]);
        DeadNeverReturns(l', delivered + "", script[1..]);
      }
    }
  }

  function Length(iov: seq<Iovec>): int {
    if iov == [] then 0 else iov[0].len + Length(iov[1..])
  }

  lemma {:induction false} LengthOfGather(iov: seq<Iovec>)
    requires AllInside(iov)
    ensures Length(iov) == |Gather(iov)|
  {
    if iov == [] {
    } else {
      LengthOfGather(iov[1..]);
    }
  }

  lemma {:induction false} LengthCovers(iov: seq<Iovec>, k: nat)
    requires AllInside(iov) && k < |iov|
    ensures iov[k].len <= Length(iov)
  {
    LengthOfGather(iov[1..]);
    if k == 0 {
    } else {
      LengthCovers(iov[1..], k - 1);
    }
  }

  /** The first walk, when its accepted bytes end exactly between two blocks:
      the next block is moved past its end. If it was the last one with any
      bytes, the window is dead, otherwise its length has wrapped. */
  lemma {:induction false} FirstWalk(l: Loop, i: nat)
    requires i <= |l.msg.iov| && l.msg.first == i && l.msg.count == |l.msg.iov| - i
    requires AllInside(l.msg.iov) && l.n == Length(l.msg.iov[i..]) && 0 <= l.ret < l.n
    requires Walk(l, i).ret == 0
    ensures var l' := Walk(l, i);
            !Sendable(l'.msg) || Dead(l'.msg)
    decreases |l.msg.iov| - i
  {
    var iov := l.msg.iov;
    if i == |iov| {
    } else {
      var io := iov[i];
      assert iov[i..][1..] == iov[i + 1..];
      assert Length(iov[i..]) == io.len + Length(iov[i + 1..]);
      if io.len <= l.ret {
        FirstWalk(Loop(Msg(iov, i + 1, |iov| - i - 1), l.n - io.len, l.ret - io.len), i + 1);
      } else {
        MovedPastEnd(iov, i, Iovec(io.cmd, io.base + l.n, io.len - l.n));
      }
    }
  }

  /** A block whose length has been reduced by its own and that of all blocks
      behind it. */
  lemma MovedPastEnd(iov: seq<Iovec>, i: nat, moved: Iovec)
    requires AllInside(iov) && i < |iov|
    requires moved.len == -Length(iov[i + 1..])
    ensures var msg := Msg(iov[i := moved], i, |iov| - i);
            !Sendable(msg) || Dead(msg)
  {
    var tail := iov[i + 1..];
    var msg := Msg(iov[i := moved], i, |iov| - i);
    LengthOfGather(tail);
    if Sendable(msg) {
      assert msg.iov[i..i + msg.count][0] == moved;
      forall k | i < k < |iov| ensures msg.iov[k].len <= 0 {
        LengthCovers(tail, k - i - 1);
        assert iov[k] == tail[k - i - 1];
      }
    }
  }

  /** write_many as written returns with everything delivered exactly once if,
      and only if, the very first sendmsg accepts it all. */
  lemma DeliversExactlyWhenSentAtOnce(data: seq<string>, script: seq<nat>)
    ensures Written(data, script) == Returned(Concat(data))
       <==> data == [] || (script != [] && script[0] >= |Concat(data)|)
  {
    if data != [] && script != [] {
      var bytes := Concat(data);
      var k := Min(|bytes|, script[0]);
      var l := Loop(Msg(Whole(data), 0, |data|), |bytes|, k);
      if k < |bytes| {
        GatherWhole(data);
        assert Whole(data)[0..] == Whole(data);
        LengthOfGather(Whole(data));
        NotAfterPartialSend(l, bytes[..k], script[1..]);
      } else {
        assert bytes[..k] == bytes;
      }
    }
  }

  lemma NotAfterPartialSend(l: Loop, delivered: string, script: seq<nat>)
    requires l.msg.first == 0 && l.msg.count == |l.msg.iov| && AllInside(l.msg.iov)
    requires l.n == Length(l.msg.iov[0..]) && 0 <= l.ret < l.n && |delivered| == l.ret
    ensures var o := Rounds(l, delivered, script); o.Returned? ==> |o.delivered| > l.n
  {
    if script != [] {
      var l' := Walk(l, 0);
      if Sendable(l'.msg) {
        var window := Window(l'.msg);
        var k := Min(|window|, script[0]);
        if l'.ret > 0 {
          CountedTwice(l'.(ret := k), delivered + window[..k], script[1..], l.n);
        } else {
          FirstWalk(l, 0);
          GatherNothing(l'.msg.iov[l'.msg.first..l'.msg.first + l'.msg.count]);
          DeadNeverReturns(l', delivered + "", script[1..]);
        }
      }
    }
  }

  // -------------------------------------- which bytes a partial send goes on with

  /** The for loop skips the blocks that were accepted whole, up to number `j`:
      they leave the window, and their bytes the two counts. Block j, if there is
      one, goes on `unsent` bytes further, which is what has not been accepted of
      it and of all blocks behind it. */
  predicate WalkedTo(l: Loop, l': Loop, j: nat) {
    var iov, unsent := l.msg.iov, l.n - l.ret;
    && j <= |iov|
    && (forall b :: 0 <= b < j ==> 0 <= iov[b].len <= l.ret - Length(iov[..b]))
    && (j < |iov| ==> !(0 <= iov[j].len <= l.ret - Length(iov[..j])))
    && l'.n == l.n - Length(iov[..j]) && l'.ret == l.ret - Length(iov[..j])
    && l'.msg.first == l.msg.first + j && l'.msg.count == l.msg.count - j
    && l'.msg.iov == if j == |iov| then iov
                     else iov[j := Iovec(iov[j].cmd, iov[j].base + unsent, iov[j].len - unsent)]
  }

  lemma WalkStops(l: Loop) returns (j: nat)
    ensures WalkedTo(l, Walk(l, 0), j)
  {
    assert l.msg.iov[..0] == [];
    j := WalkStopsBehind(l, l, 0);
  }

  lemma {:induction false} WalkStopsBehind(start: Loop, l: Loop, i: nat) returns (j: nat)
    requires i <= |start.msg.iov|
    requires forall b :: 0 <= b < i ==> 0 <= start.msg.iov[b].len <= start.ret - Length(start.msg.iov[..b])
    requires var took := Length(start.msg.iov[..i]);
             l == Loop(Msg(start.msg.iov, start.msg.first + i, start.msg.count - i), start.n - took, start.ret - took)
    ensures WalkedTo(start, Walk(l, i), j)
    decreases |start.msg.iov| - i
  {
    hide Length;
    var iov := start.msg.iov;
    j := i;
    if i == |iov| {
    } else if 0 <= iov[i].len <= l.ret {
      LengthNext(iov, i);
      var next := Loop(Msg(iov, l.msg.first + 1, l.msg.count - 1), l.n - iov[i].len, l.ret - iov[i].len);
      j := WalkStopsBehind(start, next, i + 1);
    }
  }

  lemma {:induction false} LengthNext(iov: seq<Iovec>, i: nat)
    requires i < |iov|
    ensures Length(iov[..i + 1]) == Length(iov[..i]) + iov[i].len
  {
    if i == 0 {
      assert iov[..1][1..] == [];
    } else {
      LengthNext(iov[1..], i - 1);
      assert iov[..i + 1][1..] == iov[1..][..i] && iov[..i][1..] == iov[1..][..i - 1];
    }
  }

  /** The first `k` bytes of the commands end in command `i`. */
  predicate EndsIn(data: seq<string>, k: nat, i: nat)
    requires i < |data|
  {
    |Concat(data[..i])| <= k < |Concat(data[..i])| + |data[i]|
  }

  /** What has been sent when sendmsg has accepted `k` bytes, ending in command
      `i`, and then up to `m` more: the call does not go on behind the k bytes,
      but in command i at the number of bytes still to be sent. If the command is
      not that long its length wraps, and the call throws. */
  predicate SentOn(data: seq<string>, i: nat, k: nat, m: nat, script: seq<nat>, o: Outcome)
    requires i < |data|
  {
    && k <= |Concat(data)|
    && var unsent := |Concat(data)| - k;
       if unsent > |data[i]| then o == Threw(Concat(data)[..k])
       else
         var window := data[i][unsent..] + Concat(data[i + 1..]);
         var sent := Concat(data)[..k] + window[..Min(|window|, m)];
         && sent <= o.delivered
         && (script == [] ==> o == Pending(sent))
  }

  lemma {:induction false} ConcatSplit(data: seq<string>, i: nat)
    requires i <= |data|
    ensures Concat(data) == Concat(data[..i]) + Concat(data[i..])
  {
    if i == 0 {
      assert data[0..] == data && data[..0] == [];
    } else {
      ConcatSplit(data[1..], i - 1);
      assert data[..i][1..] == data[1..][..i - 1];
      assert data[i..] == data[1..][i - 1..];
      assert data[0] + (Concat(data[1..][..i - 1]) + Concat(data[i..]))
          == data[0] + Concat(data[1..][..i - 1]) + Concat(data[i..]);
    }
  }

  lemma EndsInside(data: seq<string>, k: nat, i: nat)
    requires i < |data| && EndsIn(data, k, i)
    ensures k < |Concat(data)|
    ensures |Concat(data[i..])| == |data[i]| + |Concat(data[i + 1..])|
    ensures |Concat(data)| == |Concat(data[..i])| + |Concat(data[i..])|
  {
    ConcatSplit(data, i);
    assert data[i..][1..] == data[i + 1..];
  }

  lemma LengthOfFront(data: seq<string>, i: nat)
    requires i <= |data|
    ensures Length(Whole(data)[..i]) == |Concat(data[..i])|
  {
    assert Whole(data)[..i] == Whole(data[..i]);
    GatherWhole(data[..i]);
    LengthOfGather(Whole(data[..i]));
  }

  /** Commands that end before the accepted bytes do are skipped. */
  lemma SkippedWhole(data: seq<string>, k: nat, i: nat, b: nat)
    requires b < i < |data| && EndsIn(data, k, i)
    ensures |data[b]| <= k - |Concat(data[..b])|
  {
    ConcatSplit(data[..i], b);
    assert data[..i][..b] == data[..b] && data[..i][b..][0] == data[b];
  }

  /** The first walk ends in the command in which the accepted bytes end. */
  lemma FirstWalkEnds(data: seq<string>, k: nat, i: nat)
    requires i < |data| && EndsIn(data, k, i) && k <= |Concat(data)|
    ensures var unsent := |Concat(data)| - k;
            var l' := Walk(Loop(Msg(Whole(data), 0, |data|), |Concat(data)|, k), 0);
            && l'.msg == Msg(Whole(data)[i := Iovec(data[i], unsent, |data[i]| - unsent)], i, |data| - i)
            && l'.n == |Concat(data[i..])| && l'.n - l'.ret == unsent
  {
    var l := Loop(Msg(Whole(data), 0, |data|), |Concat(data)|, k);
    var j := WalkStops(l);
    EndsInside(data, k, i);
    LengthOfFront(data, i);
    if i < j {
      assert false;
    }
    if j < i {
      LengthOfFront(data, j);
      SkippedWhole(data, k, i, j);
      assert false;
    }
  }

  lemma WindowBehind(data: seq<string>, i: nat, moved: Iovec)
    requires i < |data|
    ensures var msg := Msg(Whole(data)[i := moved], i, |data| - i);
            && (Sendable(msg) <==> moved.Inside())
            && (moved.Inside() ==> Window(msg) == moved.Bytes() + Concat(data[i + 1..]))
  {
    var msg := Msg(Whole(data)[i := moved], i, |data| - i);
    var window := msg.iov[i..i + msg.count];
    assert window == [moved] + Whole(data[i + 1..]);
    assert window[1..] == Whole(data[i + 1..]);
    GatherWhole(data[i + 1..]);
    if moved.Inside() {
      assert forall b :: 0 <= b < |window| ==> window[b].Inside();
    }
    assert window[0] == moved;
    assert AllInside(window) ==> window[0].Inside();
    assert Sendable(msg) <==> AllInside(window);
  }

  lemma {:induction false} DeliveredStays(l: Loop, delivered: string, script: seq<nat>)
    ensures delivered <= Rounds(l, delivered, script).delivered
    decreases |script|
  {
    if l.ret >= l.n || script == [] {
    } else {
      var l' := Walk(l, 0);
      if Sendable(l'.msg) {
        var window := Window(l'.msg);
        var k := Min(|window|, script[0]);
        DeliveredStays(l'.(ret := k), delivered + window[..k], script[1..]);
      }
    }
  }

  /** The loop from its second round on. */
  lemma SecondRound(l: Loop, bytes: string, m: nat, script: seq<nat>, window: string)
    requires 0 <= l.ret < l.n
    requires var msg := Walk(l, 0).msg; Sendable(msg) && Window(msg) == window && |window| < Walk(l, 0).n
    ensures var sent := bytes + window[..Min(|window|, m)];
            var o := Rounds(l, bytes, [m] + script);
            sent <= o.delivered && (script == [] ==> o == Pending(sent))
  {
    var sent := bytes + window[..Min(|window|, m)];
    var next := Walk(l, 0).(ret := Min(|window|, m));
    assert ([m] + script)[1..] == script;
    assert Rounds(l, bytes, [m] + script) == Rounds(next, sent, script);
    DeliveredStays(next, sent, script);
  }

  /** For every queue and every partial first send, what the second one sends. */
  lemma SecondSend(data: seq<string>, i: nat, k: nat, m: nat, script: seq<nat>)
    requires i < |data| && EndsIn(data, k, i)
    ensures SentOn(data, i, k, m, script, Written(data, [k, m] + script))
  {
    hide Walk, Window, Sendable, Concat;
    EndsInside(data, k, i);
    FirstWalkEnds(data, k, i);
    var bytes, all := Concat(data), [k, m] + script;
    assert all[1..] == [m] + script;
    var l := Loop(Msg(Whole(data), 0, |data|), |bytes|, k);
    var unsent := |bytes| - k;
    var moved := Iovec(data[i], unsent, |data[i]| - unsent);
    WindowBehind(data, i, moved);
    assert Min(|bytes|, all[0]) == k && |[m] + script| > 0;
    assert Written(data, all) == Rounds(l, bytes[..k], [m] + script);
    if moved.Inside() {
      var window := data[i][unsent..] + Concat(data[i + 1..]);
      assert moved.Bytes() == data[i][unsent..];
      assert Window(Walk(l, 0).msg) == window;
      SecondRound(l, bytes[..k], m, script, window);
      assert unsent <= |data[i]|;
    } else {
      assert unsent > |data[i]|;
      assert Rounds(l, bytes[..k], [m] + script) == Threw(bytes[..k]);
    }
  }

  /** A concrete input on which it fails: one four-byte command of which three
      bytes are accepted first and three more, two of them again, after that. */
  lemma PartialSendRepeatsBytes()
    ensures Written(["PING"], [3, 3]) == Pending("PINING")
  {
    var data := ["PING"];
    assert Concat(data) == "PING" by {
      assert Concat(data[1..]) == "";
    }
    var l := Loop(Msg(Whole(data), 0, 1), 4, 3);
    var l' := Walk(l, 0);
    var io := Iovec("PING", 1, 3);
    assert l'.msg.iov == [io];
    assert Window(l'.msg) == "ING" by {
      assert l'.msg.iov[0..1] == [io];
      assert Gather([io]) == "ING" + Gather([io][1..]);
    }
    assert Rounds(l'.(ret := 3), "PINING", []) == Pending("PINING");
    assert "PING"[..3] + "ING"[..3] == "PINING";
  }
}
