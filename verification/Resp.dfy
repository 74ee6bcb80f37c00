// The Redis serialization protocol (RESP2): replies as trees, their printing,
// and the reader of src/reply.cpp as a function of the whole byte stream.
// A byte string is a Dafny string, one char per byte.
module Resp {
  import opened Decimal

  const CRLF := "\r\n"

  // ---------------------------------------------------------------- errors

  /** Everything the client throws. */
  datatype Error =
    | ServerError(text: string)
    | BadInteger(text: string)
    | NegativeBulkSize(size: int)
    | NegativeArraySize(size: int)
    | BadDelimiter
    | BadType(byte: char)
    | NotAnArray
    | NotAString
    | UnexpectedArraySize
    | OddFields
    | NoRequestInFlight
    | RequestsPending
    | CannotDiscard
    | AlreadyResolved
    | UnexpectedReplies

  // ------------------------------------------------- what the client keeps

  /** The variant held by red1z::Reply. A null bulk string and a null array are
      both Nil; a simple string and a bulk string are both Text. */
  datatype Rep =
    | Nil
    | Integer(i: int)
    | Text(s: string)
    | Array(elems: seq<Rep>)

  // --------------------------------------------------- what a server sends

  datatype Node =
    | Simple(line: string)
    | Err(msg: string)
    | Int(i: int)
    | Bulk(data: string)
    | NullBulk
    | NullArray
    | List(elems: seq<Node>)

  /** The protocol's own limits: one-line strings hold no CR, and integers and
      lengths fit in an int64. */
  predicate Printable(t: Node)
    decreases t, 0
  {
    match t
    case Simple(line) => '\r' !in line
    case Err(msg) => '\r' !in msg
    case Int(i) => IsInt64(i)
    case Bulk(data) => IsInt64(|data|)
    case NullBulk => true
    case NullArray => true
    case List(elems) => IsInt64(|elems|) && AllPrintable(elems)
  }

  predicate AllPrintable(ts: seq<Node>)
    decreases ts, 1
  {
    forall k :: 0 <= k < |ts| ==> Printable(ts[k])
  }

  type Sent = t: Node | Printable(t) witness NullBulk

  function Print(t: Node): (s: string)
    ensures s != ""
    decreases t, 0
  {
    match t
    case Simple(line) => "+" + line + CRLF
    case Err(msg) => "-" + msg + CRLF
    case Int(i) => ":" + Decimal.Decimal(i) + CRLF
    case Bulk(data) => "$" + Decimal.Decimal(|data|) + CRLF + data + CRLF
    case NullBulk => "$-1" + CRLF
    case NullArray => "*-1" + CRLF
    case List(elems) => "*" + Decimal.Decimal(|elems|) + CRLF + PrintAll(elems)
  }

  function PrintAll(ts: seq<Node>): string
    decreases ts, 1
  {
    if ts == [] then "" else Print(ts[0]) + PrintAll(ts[1..])
  }

  lemma {:induction false} PrintAllAppend(a: seq<Node>, b: seq<Node>)
    ensures PrintAll(a + b) == PrintAll(a) + PrintAll(b)
  {
    if a == [] {
      assert a + b == b;
    } else {
      PrintAllAppend(a[1..], b);
      assert (a + b)[1..] == a[1..] + b && (a + b)[0] == a[0];
      assert Print(a[0]) + (PrintAll(a[1..]) + PrintAll(b)) == Print(a[0]) + PrintAll(a[1..]) + PrintAll(b);
    }
  }

  /** One reply of every kind, byte for byte. */
  lemma RepliesOnTheWire()
    ensures Print(Simple("OK")) == "+OK\r\n" && Print(Err("ERR no")) == "-ERR no\r\n"
    ensures Print(Int(-7)) == ":-7\r\n" && Print(Bulk("abc")) == "$3\r\nabc\r\n"
    ensures Print(NullBulk) == "$-1\r\n" && Print(NullArray) == "*-1\r\n"
  {
    assert Digits(3) == "3" && Digits(7) == "7";
  }

  lemma ArrayOnTheWire()
    ensures Print(List([Int(7), Bulk("")])) == "*2\r\n:7\r\n$0\r\n\r\n"
  {
    var ts := [Int(7), Bulk("")];
    assert ts[1..] == [Bulk("")] && ts[1..][1..] == [];
    assert Digits(0) == "0" && Digits(7) == "7";
    assert Print(Int(7)) == ":7\r\n" && Print(Bulk("")) == "$0\r\n\r\n";
    assert PrintAll(ts) == ":7\r\n" + ("$0\r\n\r\n" + "");
    assert Digits(2) == "2";
  }

  // ------------------------------------------- what a printed tree reads as

  predicate ErrorFree(t: Node)
    decreases t, 0
  {
    match t
    case Err(_) => false
    case List(elems) => AllErrorFree(elems)
    case _ => true
  }

  predicate AllErrorFree(ts: seq<Node>)
    decreases ts, 1
  {
    forall k :: 0 <= k < |ts| ==> ErrorFree(ts[k])
  }

  function RepOf(t: Node): Rep
    requires ErrorFree(t)
    decreases t, 0
  {
    match t
    case Simple(line) => Text(line)
    case Int(i) => Integer(i)
    case Bulk(data) => Text(data)
    case NullBulk => Nil
    case NullArray => Nil
    case List(elems) => Array(RepsOf(elems))
  }

  function RepsOf(ts: seq<Node>): (reps: seq<Rep>)
    requires AllErrorFree(ts)
    ensures |reps| == |ts|
    ensures forall k :: 0 <= k < |ts| ==> reps[k] == RepOf(ts[k])
    decreases ts, 1
  {
    if ts == [] then [] else [RepOf(ts[0])] + RepsOf(ts[1..])
  }

  /** The text of the first error of a tree, in printing order. */
  function FirstError(t: Node): string
    requires !ErrorFree(t)
    decreases t, 0
  {
    match t
    case Err(msg) => msg
    case List(elems) => FirstErrorOf(elems)
  }

  function FirstErrorOf(ts: seq<Node>): string
    requires !AllErrorFree(ts)
    decreases ts, 1
  {
    if !ErrorFree(ts[0]) then FirstError(ts[0]) else FirstErrorOf(ts[1..])
  }

  /** What stands behind the first error of a tree, in printing order: the rest
      of the array it is in, then of the array around that, and so on. An error
      inside an array is thrown before any of it is read. */
  function Leftover(t: Node): seq<Node>
    decreases t, 0
  {
    match t
    case List(elems) => LeftoverOf(elems)
    case _ => []
  }

  function LeftoverOf(ts: seq<Node>): seq<Node>
    decreases ts, 1
  {
    if ts == [] then []
    else if ErrorFree(ts[0]) then LeftoverOf(ts[1..])
    else Leftover(ts[0]) + ts[1..]
  }

  /** No error, or nothing printed behind the first one: the shape of tree after
      which the client is still in step with the server. */
  predicate InStep(t: Node)
    decreases t, 0
  {
    match t
    case List(elems) =>
      && (forall k :: 0 <= k < |elems| - 1 ==> ErrorFree(elems[k]))
      && (elems != [] ==> InStep(elems[|elems| - 1]))
    case _ => true
  }

  // ------------------------------------------------------------ the reader

  datatype Outcome =
    | Got(rep: Rep, rest: string)
    | Raised(error: Error, rest: string)
    | Starved

  /** The first CR of `s`, or |s|. */
  function FirstCR(s: string): (k: nat)
    ensures k <= |s| && '\r' !in s[..k]
    ensures k < |s| ==> s[k] == '\r'
  {
    if s == "" || s[0] == '\r' then 0
    else
      var k := FirstCR(s[1..]);
      assert s[..k + 1] == [s[0]] + s[1..][..k];
      k + 1
  }

  /** _read_line: the bytes before the first CR; the CR and the byte after it,
      whatever it is, are consumed. */
  function Line(s: string): (r: Option<(string, string)>)
    ensures r.Some? ==> |r.value.1| < |s|
  {
    var k := FirstCR(s);
    if k + 2 <= |s| then Some((s[..k], s[k + 2..])) else None
  }

  /** read_reply on a stream of which `s` is all that will ever arrive. */
  function Parse(s: string): (o: Outcome)
    ensures o.Got? ==> |o.rest| < |s|
    ensures o.Raised? ==> |o.rest| < |s|
    decreases |s|, 0
  {
    if s == "" then Starved
    else if s[0] == '+' || s[0] == '-' then
      match Line(s[1..])
      case None => Starved
      case Some((line, rest)) =>
        if s[0] == '+' then Got(Text(line), rest) else Raised(ServerError(line), rest)
    else if s[0] == ':' || s[0] == '$' || s[0] == '*' then
      match Line(s[1..])
      case None => Starved
      case Some((line, rest)) =>
        match FromChars(line)
        case None => Raised(BadInteger(line), rest)
        case Some(i) =>
          if s[0] == ':' then Got(Integer(i), rest)
          else if i == -1 then Got(Nil, rest)
          else if s[0] == '$' then ParseBulk(i, rest)
          else if i < -1 then Raised(NegativeArraySize(i), rest)
          else ParseElems([], i, rest)
    else Raised(BadType(s[0]), s[1..])
  }

  function ParseBulk(size: int, s: string): (o: Outcome)
    ensures o.Got? ==> |o.rest| <= |s|
    ensures o.Raised? ==> |o.rest| <= |s|
  {
    if size < 0 then Raised(NegativeBulkSize(size), s)
    else if |s| < size + 2 then Starved
    else if s[size..size + 2] != CRLF then Raised(BadDelimiter, s[size + 2..])
    else Got(Text(s[..size]), s[size + 2..])
  }

  /** The element loop of read_array with `n` elements still to be read. */
  function ParseElems(done: seq<Rep>, n: nat, s: string): (o: Outcome)
    ensures o.Got? ==> |o.rest| <= |s| && o.rep.Array?
    ensures o.Raised? ==> |o.rest| <= |s|
    decreases |s|, 1
  {
    if n == 0 then Got(Array(done), s)
    else
      match Parse(s)
      case Got(rep, rest) => ParseElems(done + [rep], n - 1, rest)
      case Raised(error, rest) => Raised(error, rest)
      case Starved => Starved
  }

  /** No bulk string that the reader comes to is longer than `n`. */
  predicate PayloadsWithin(n: nat, s: string)
    decreases |s|, 0
  {
    s != "" && (s[0] == '$' || s[0] == '*') && Line(s[1..]).Some? ==>
      var (line, rest) := Line(s[1..]).value;
      match FromChars(line)
      case None => true
      case Some(i) => if s[0] == '$' then i <= n else i >= 0 ==> ElementsWithin(n, i, rest)
  }

  predicate ElementsWithin(n: nat, count: nat, s: string)
    decreases |s|, 1
  {
    count == 0 ||
    (&& PayloadsWithin(n, s)
     && match Parse(s)
        case Got(_, rest) => ElementsWithin(n, count - 1, rest)
        case _ => true)
  }

  // ------------------------------------------ reading back what was printed

  lemma FirstCRAt(line: string, tail: string)
    requires '\r' !in line
    requires tail != "" && tail[0] == '\r'
    ensures FirstCR(line + tail) == |line|
  {
    var s := line + tail;
    var k := FirstCR(s);
    assert forall j :: 0 <= j < |line| ==> s[j] == line[j];
    assert forall j :: 0 <= j < k ==> s[..k][j] != '\r';
    assert s[|line|] == '\r';
  }

  lemma LineOf(line: string, rest: string)
    requires '\r' !in line
    ensures Line(line + CRLF + rest) == Some((line, rest))
  {
    var s := line + CRLF + rest;
    assert s == line + (CRLF + rest);
    FirstCRAt(line, CRLF + rest);
    assert s[..|line|] == line;
    assert s[|line| + 2..] == rest;
  }

  /** The byte behind a CR is never looked at. */
  lemma LineTakesAnyByte(line: string, c: char, rest: string)
    requires '\r' !in line
    ensures Line(line + ['\r', c] + rest) == Some((line, rest))
  {
    var s := line + ['\r', c] + rest;
    assert s == line + (['\r', c] + rest);
    FirstCRAt(line, ['\r', c] + rest);
    assert s[..|line|] == line;
    assert s[|line| + 2..] == rest;
  }

  /** The bytes that open a reply: its type, one line, and what follows. */
  lemma HeadOf(type_: char, line: string, rest: string)
    requires '\r' !in line
    ensures var s := [type_] + line + CRLF + rest;
            s[0] == type_ && Line(s[1..]) == Some((line, rest))
  {
    var s := [type_] + line + CRLF + rest;
    assert s[1..] == line + CRLF + rest;
    LineOf(line, rest);
  }

  /** What read_reply makes of a printed tree followed by `rest`. */
  function ReadsAs(t: Node, rest: string): Outcome {
    if ErrorFree(t) then Got(RepOf(t), rest)
    else Raised(ServerError(FirstError(t)), PrintAll(Leftover(t)) + rest)
  }

  function ElemsReadAs(done: seq<Rep>, ts: seq<Node>, rest: string): Outcome {
    if AllErrorFree(ts) then Got(Array(done + RepsOf(ts)), rest)
    else Raised(ServerError(FirstErrorOf(ts)), PrintAll(LeftoverOf(ts)) + rest)
  }

  /** The reader inverts the printer, for every tree and whatever follows it;
      on a tree with errors it stops right behind the first one. */
  lemma {:induction false} ParsePrint(t: Node, rest: string)
    requires Printable(t)
    ensures Parse(Print(t) + rest) == ReadsAs(t, rest)
    decreases t, 0
  {
    match t
    case Simple(line) => ParsePrintLine(line, rest);
    case Err(msg) => ParsePrintLine(msg, rest);
    case Int(i) => ParsePrintInt(i, rest);
    case Bulk(data) => ParsePrintBulk(data, rest);
    case NullBulk => ParsePrintNull('$', rest); assert Print(t) == ['$'] + "-1" + CRLF;
    case NullArray => ParsePrintNull('*', rest); assert Print(t) == ['*'] + "-1" + CRLF;
    case List(elems) => ParsePrintList(elems, rest);
  }

  lemma ParsePrintLine(line: string, rest: string)
    requires '\r' !in line
    ensures Parse("+" + line + CRLF + rest) == Got(Text(line), rest)
    ensures Parse("-" + line + CRLF + rest) == Raised(ServerError(line), rest)
  {
    HeadOf('+', line, rest);
    HeadOf('-', line, rest);
  }

  lemma ParsePrintInt(i: int, rest: string)
    requires IsInt64(i)
    ensures Parse(":" + Decimal.Decimal(i) + CRLF + rest) == Got(Integer(i), rest)
  {
    DecimalHasNoCR(i);
    FromCharsDecimal(i);
    HeadOf(':', Decimal.Decimal(i), rest);
  }

  lemma ParsePrintNull(type_: char, rest: string)
    requires type_ == '$' || type_ == '*'
    ensures Parse([type_] + "-1" + CRLF + rest) == Got(Nil, rest)
  {
    assert Digits(1) == "1";
    assert Decimal.Decimal(-1) == "-1";
    FromCharsDecimal(-1);
    HeadOf(type_, "-1", rest);
  }

  lemma ParsePrintBulk(data: string, rest: string)
    requires IsInt64(|data|)
    ensures Parse(Print(Bulk(data)) + rest) == Got(Text(data), rest)
  {
    var n := |data|;
    var tail := data + CRLF + rest;
    HeadOfBulk(n, tail);
    Associate("$" + Decimal.Decimal(n) + CRLF, data + CRLF, rest);
    assert Print(Bulk(data)) == "$" + Decimal.Decimal(n) + CRLF + (data + CRLF);
    ParsePayload(data, CRLF, rest);
  }

  /** A payload and the two bytes behind it. */
  lemma ParsePayload(data: string, delim: string, rest: string)
    requires |delim| == 2
    ensures ParseBulk(|data|, data + delim + rest)
         == if delim == CRLF then Got(Text(data), rest) else Raised(BadDelimiter, rest)
  {
    var n, tail := |data|, data + delim + rest;
    assert tail[n..n + 2] == delim && tail[..n] == data && tail[n + 2..] == rest;
  }

  lemma HeadOfBulk(n: nat, tail: string)
    requires IsInt64(n)
    ensures Parse("$" + Decimal.Decimal(n) + CRLF + tail) == ParseBulk(n, tail)
  {
    DecimalHasNoCR(n);
    FromCharsDecimal(n);
    HeadOf('$', Decimal.Decimal(n), tail);
  }

  lemma Associate(a: string, b: string, c: string)
    ensures a + b + c == a + (b + c)
  {
  }

  lemma HeadOfArray(n: nat, tail: string)
    requires IsInt64(n)
    ensures Parse("*" + Decimal.Decimal(n) + CRLF + tail) == ParseElems([], n, tail)
  {
    DecimalHasNoCR(n);
    FromCharsDecimal(n);
    HeadOf('*', Decimal.Decimal(n), tail);
  }

  lemma {:induction false} ParsePrintList(ts: seq<Node>, rest: string)
    requires IsInt64(|ts|) && AllPrintable(ts)
    ensures Parse(Print(List(ts)) + rest) == ReadsAs(List(ts), rest)
    decreases ts, 2
  {
    var tail := PrintAll(ts) + rest;
    HeadOfArray(|ts|, tail);
    Associate("*" + Decimal.Decimal(|ts|) + CRLF, PrintAll(ts), rest);
    ParsePrintElems([], ts, rest);
    if AllErrorFree(ts) {
      assert [] + RepsOf(ts) == RepsOf(ts);
    }
  }

  lemma {:induction false} ParsePrintElems(done: seq<Rep>, ts: seq<Node>, rest: string)
    requires AllPrintable(ts)
    ensures ParseElems(done, |ts|, PrintAll(ts) + rest) == ElemsReadAs(done, ts, rest)
    decreases ts, 1
  {
    if ts == [] {
      assert PrintAll(ts) + rest == rest;
      assert done + RepsOf(ts) == done;
    } else {
      var tail := PrintAll(ts[1..]) + rest;
      assert PrintAll(ts) + rest == Print(ts[0]) + tail;
      ParsePrint(ts[0], tail);
      FirstElement(done, |ts|, Print(ts[0]) + tail);
      if ErrorFree(ts[0]) {
        ParsePrintElems(done + [RepOf(ts[0])], ts[1..], rest);
        ElemsReadAsNext(done, ts, rest);
      } else {
        ElemsReadAsFirst(done, ts, rest);
      }
    }
  }

  lemma ElemsReadAsFirst(done: seq<Rep>, ts: seq<Node>, rest: string)
    requires ts != [] && !ErrorFree(ts[0])
    ensures ElemsReadAs(done, ts, rest)
         == Raised(ServerError(FirstError(ts[0])), PrintAll(Leftover(ts[0])) + (PrintAll(ts[1..]) + rest))
  {
    PrintAllAppend(Leftover(ts[0]), ts[1..]);
    Associate(PrintAll(Leftover(ts[0])), PrintAll(ts[1..]), rest);
  }

  lemma ElemsReadAsNext(done: seq<Rep>, ts: seq<Node>, rest: string)
    requires ts != [] && ErrorFree(ts[0])
    ensures ElemsReadAs(done, ts, rest) == ElemsReadAs(done + [RepOf(ts[0])], ts[1..], rest)
  {
    FirstElementFree(ts);
    if AllErrorFree(ts) {
      var first, others := [RepOf(ts[0])], RepsOf(ts[1..]);
      assert RepsOf(ts) == first + others;
      assert done + (first + others) == done + first + others;
    }
  }

  /** The element loop when it ends, and one turn of it. */
  lemma NoElement(done: seq<Rep>, s: string)
    ensures ParseElems(done, 0, s) == Got(Array(done), s)
  {
  }

  lemma FirstElement(done: seq<Rep>, n: nat, s: string)
    requires n > 0
    ensures match Parse(s)
            case Got(rep, rest) => ParseElems(done, n, s) == ParseElems(done + [rep], n - 1, rest)
            case o => ParseElems(done, n, s) == o
  {
  }

  lemma FirstElementFree(ts: seq<Node>)
    requires ts != [] && ErrorFree(ts[0])
    ensures AllErrorFree(ts) <==> AllErrorFree(ts[1..])
  {
    if AllErrorFree(ts[1..]) {
      forall k | 0 <= k < |ts| ensures ErrorFree(ts[k]) {
        if k > 0 {
          assert ts[k] == ts[1..][k - 1];
        }
      }
    }
  }

  /** A tree leaves nothing unread exactly when its first error, if it has one,
      is the last thing printed. */
  lemma {:induction false} NothingLeftOver(t: Node)
    ensures Leftover(t) == [] <==> InStep(t)
    ensures ErrorFree(t) ==> Leftover(t) == []
    decreases t, 0
  {
    if t.List? {
      NothingLeftOverOf(t.elems);
    }
  }

  lemma {:induction false} NothingLeftOverOf(ts: seq<Node>)
    ensures LeftoverOf(ts) == [] <==> InStep(List(ts))
    ensures AllErrorFree(ts) ==> LeftoverOf(ts) == []
    decreases ts, 1
  {
    if ts == [] {
    } else {
      var rest := ts[1..];
      NothingLeftOver(ts[0]);
      NothingLeftOverOf(rest);
      InStepBehind(ts);
    }
  }

  lemma InStepBehind(ts: seq<Node>)
    requires ts != []
    ensures |ts| == 1 ==> (InStep(List(ts)) <==> InStep(ts[0])) && ts[1..] == []
    ensures |ts| > 1 ==> (InStep(List(ts)) <==> ErrorFree(ts[0]) && InStep(List(ts[1..])))
  {
    var rest := ts[1..];
    assert forall k :: 0 <= k < |rest| ==> rest[k] == ts[k + 1];
    if |ts| > 1 && ErrorFree(ts[0]) && InStep(List(rest)) {
      forall k | 0 <= k < |ts| - 1 ensures ErrorFree(ts[k]) {
        if k > 0 {
          assert rest[k - 1] == ts[k];
        }
      }
    }
  }

  lemma {:induction false} LeftoverPrintable(t: Node)
    requires Printable(t)
    ensures AllPrintable(Leftover(t))
    decreases t, 0
  {
    if t.List? {
      LeftoverOfPrintable(t.elems);
    }
  }

  lemma {:induction false} LeftoverOfPrintable(ts: seq<Node>)
    requires AllPrintable(ts)
    ensures AllPrintable(LeftoverOf(ts))
    decreases ts, 1
  {
    if ts == [] {
    } else if ErrorFree(ts[0]) {
      LeftoverOfPrintable(ts[1..]);
    } else {
      LeftoverPrintable(ts[0]);
    }
  }

  lemma {:induction false} FreeIsInStep(t: Node)
    requires ErrorFree(t)
    ensures InStep(t)
  {
    if t.List? && t.elems != [] {
      FreeIsInStep(t.elems[|t.elems| - 1]);
    }
  }

  /** After reading a printed tree the reader stands exactly at what follows it
      if and only if the tree is in step. */
  lemma ReaderStaysInStep(t: Node, rest: string)
    requires Printable(t)
    ensures var o := Parse(Print(t) + rest);
            !o.Starved? && (o.rest == rest <==> InStep(t))
  {
    ParsePrint(t, rest);
    NothingLeftOver(t);
    var unread := PrintAll(Leftover(t));
    assert |unread + rest| == |unread| + |rest|;
    assert unread == "" ==> unread + rest == rest;
  }

  /** A concrete reply that does not keep in step: an EXEC whose first command
      failed. The second element stays on the stream. */
  lemma ErrorInsideArrayLeavesBytes(rest: string)
    ensures var t := List([Err("ERR"), Int(1)]);
            !InStep(t) && Parse(Print(t) + rest) == Raised(ServerError("ERR"), ":1\r\n" + rest)
  {
    ErrorInside();
    ParsePrint(List([Err("ERR"), Int(1)]), rest);
  }

  lemma ErrorInside()
    ensures var t := List([Err("ERR"), Int(1)]);
            && Printable(t) && !ErrorFree(t) && !InStep(t)
            && FirstError(t) == "ERR" && Leftover(t) == [Int(1)] && PrintAll([Int(1)]) == ":1\r\n"
  {
    var ts := [Err("ERR"), Int(1)];
    assert !ErrorFree(ts[0]);
    assert ts[1..] == [Int(1)] && ts[1..][1..] == [];
    assert Digits(1) == "1";
    assert LeftoverOf(ts) == [] + ts[1..];
    assert PrintAll([Int(1)]) == Print(Int(1)) + "";
  }

  // What is no reply is refused, and the reader stops behind what it has looked
  // at: an unknown type, a number that is none, a length below -1, and a bulk
  // string that is not followed by CR LF.

  lemma UnknownTypeIsRefused(type_: char, rest: string)
    requires type_ != '+' && type_ != '-' && type_ != ':' && type_ != '$' && type_ != '*'
    ensures Parse([type_] + rest) == Raised(BadType(type_), rest)
  {
    assert ([type_] + rest)[1..] == rest;
  }

  lemma BadNumberIsRefused(type_: char, line: string, rest: string)
    requires type_ == ':' || type_ == '$' || type_ == '*'
    requires '\r' !in line && FromChars(line).None?
    ensures Parse([type_] + line + CRLF + rest) == Raised(BadInteger(line), rest)
  {
    HeadOf(type_, line, rest);
  }

  lemma NegativeSizeIsRefused(line: string, rest: string)
    requires '\r' !in line && FromChars(line).Some? && FromChars(line).value < -1
    ensures Parse("$" + line + CRLF + rest) == Raised(NegativeBulkSize(FromChars(line).value), rest)
    ensures Parse("*" + line + CRLF + rest) == Raised(NegativeArraySize(FromChars(line).value), rest)
  {
    HeadOf('$', line, rest);
    HeadOf('*', line, rest);
  }

  lemma WrongDelimiterIsRefused(data: string, delim: string, rest: string)
    requires |delim| == 2 && delim != CRLF && IsInt64(|data|)
    ensures Parse("$" + Decimal.Decimal(|data|) + CRLF + (data + delim + rest)) == Raised(BadDelimiter, rest)
  {
    HeadOfBulk(|data|, data + delim + rest);
    ParsePayload(data, delim, rest);
  }

  /** The forms of what is no reply. */
  datatype Malformed =
    | UnknownType(type_: char)
    | BadNumber(type_: char, line: string)
    | NegativeBulk(line: string)
    | NegativeArray(line: string)
    | WrongDelimiter(data: string, delim: string)

  predicate IsMalformed(m: Malformed) {
    match m
    case UnknownType(type_) => type_ !in "+-:$*"
    case BadNumber(type_, line) => type_ in ":$*" && '\r' !in line && FromChars(line).None?
    case NegativeBulk(line) => '\r' !in line && FromChars(line).Some? && FromChars(line).value < -1
    case NegativeArray(line) => '\r' !in line && FromChars(line).Some? && FromChars(line).value < -1
    case WrongDelimiter(data, delim) => IsInt64(|data|) && |delim| == 2 && delim != CRLF
  }

  function MalformedBytes(m: Malformed): string {
    match m
    case UnknownType(type_) => [type_]
    case BadNumber(type_, line) => [type_] + line + CRLF
    case NegativeBulk(line) => "$" + line + CRLF
    case NegativeArray(line) => "*" + line + CRLF
    case WrongDelimiter(data, delim) => "$" + Decimal.Decimal(|data|) + CRLF + (data + delim)
  }

  function MalformedError(m: Malformed): Error
    requires IsMalformed(m)
  {
    match m
    case UnknownType(type_) => BadType(type_)
    case BadNumber(_, line) => BadInteger(line)
    case NegativeBulk(line) => NegativeBulkSize(FromChars(line).value)
    case NegativeArray(line) => NegativeArraySize(FromChars(line).value)
    case WrongDelimiter(_, _) => BadDelimiter
  }

  lemma MalformedIsRefused(m: Malformed, rest: string)
    requires IsMalformed(m)
    ensures Parse(MalformedBytes(m) + rest) == Raised(MalformedError(m), rest)
  {
    hide Parse, FromChars;
    match m
    case UnknownType(type_) => UnknownTypeIsRefused(type_, rest);
    case BadNumber(type_, line) => BadNumberIsRefused(type_, line, rest);
    case NegativeBulk(line) => NegativeSizeIsRefused(line, rest);
    case NegativeArray(line) => NegativeSizeIsRefused(line, rest);
    case WrongDelimiter(data, delim) =>
      WrongDelimiterIsRefused(data, delim, rest);
      Associate("$" + Decimal.Decimal(|data|) + CRLF, data + delim, rest);
  }

  /** Elements without an error are read, whatever follows them. */
  lemma {:induction false} ElementsRead(done: seq<Rep>, ts: seq<Node>, n: nat, tail: string)
    requires AllPrintable(ts) && AllErrorFree(ts) && n >= |ts|
    ensures ParseElems(done, n, PrintAll(ts) + tail) == ParseElems(done + RepsOf(ts), n - |ts|, tail)
    decreases |ts|
  {
    hide Parse, ParseElems, Print;
    if ts == [] {
      assert PrintAll(ts) + tail == tail && done + RepsOf(ts) == done;
    } else {
      var others := PrintAll(ts[1..]) + tail;
      Associate(Print(ts[0]), PrintAll(ts[1..]), tail);
      ParsePrint(ts[0], others);
      NothingLeftOver(ts[0]);
      FirstElement(done, n, Print(ts[0]) + others);
      ElementsRead(done + [RepOf(ts[0])], ts[1..], n - 1, tail);
      assert done + RepsOf(ts) == done + [RepOf(ts[0])] + RepsOf(ts[1..]);
    }
  }

  /** Whatever is malformed in an array, at any position, is refused there: the
      reader stops right behind what it has looked at. */
  lemma MalformedInArray(ts: seq<Node>, n: nat, m: Malformed, rest: string)
    requires AllPrintable(ts) && AllErrorFree(ts) && |ts| < n && IsInt64(n) && IsMalformed(m)
    ensures Parse("*" + Decimal.Decimal(n) + CRLF + (PrintAll(ts) + (MalformedBytes(m) + rest)))
         == Raised(MalformedError(m), rest)
  {
    hide Parse, ParseElems, PrintAll, IsMalformed, MalformedBytes, MalformedError;
    var tail := MalformedBytes(m) + rest;
    HeadOfArray(n, PrintAll(ts) + tail);
    ElementsRead([], ts, n, tail);
    MalformedIsRefused(m, rest);
    FirstElement([] + RepsOf(ts), n - |ts|, tail);
  }

  function WithMore(o: Outcome, more: string): Outcome {
    match o
    case Got(rep, rest) => Got(rep, rest + more)
    case Raised(error, rest) => Raised(error, rest + more)
    case Starved => Starved
  }

  /** What can be read at all, a reply or an error, is read the same whatever
      arrives behind it. */
  lemma {:induction false} ParseExtend(s: string, more: string)
    requires !Parse(s).Starved?
    ensures Parse(s + more) == WithMore(Parse(s), more)
    decreases |s|, 0
  {
    var whole := s + more;
    assert whole[0] == s[0] && whole[1..] == s[1..] + more;
    if s[0] == '+' || s[0] == '-' || s[0] == ':' {
      LineExtend(s[1..], more);
    } else if s[0] == '$' || s[0] == '*' {
      LineExtend(s[1..], more);
      var (line, rest) := Line(s[1..]).value;
      var size := FromChars(line);
      if size.Some? && size.value != -1 {
        if s[0] == '$' {
          ParseBulkExtend(size.value, rest, more);
        } else if size.value >= 0 {
          ParseElemsExtend([], size.value, rest, more);
        }
      }
    }
  }

  lemma ParseBulkExtend(size: int, s: string, more: string)
    requires !ParseBulk(size, s).Starved?
    ensures ParseBulk(size, s + more) == WithMore(ParseBulk(size, s), more)
  {
    if size >= 0 {
      assert (s + more)[size..size + 2] == s[size..size + 2];
      assert (s + more)[..size] == s[..size];
      assert (s + more)[size + 2..] == s[size + 2..] + more;
    }
  }

  lemma {:induction false} ParseElemsExtend(done: seq<Rep>, n: nat, s: string, more: string)
    requires !ParseElems(done, n, s).Starved?
    ensures ParseElems(done, n, s + more) == WithMore(ParseElems(done, n, s), more)
    decreases |s|, 2
  {
    if n == 0 {
    } else {
      ElementStarved(done, n, s, Parse(s));
      ParseExtend(s, more);
      match Parse(s)
      case Got(rep, rest) =>
        FirstGot(done, n, s, rep, rest);
        FirstGot(done, n, s + more, rep, rest + more);
        ElementExtend(done, n, s, more, rep, rest);
      case o => FirstRaised(done, n, s, more, o);
    }
  }

  lemma {:induction false} ElementExtend(done: seq<Rep>, n: nat, s: string, more: string, rep: Rep, rest: string)
    requires n > 0 && |rest| < |s|
    requires ParseElems(done, n, s) == ParseElems(done + [rep], n - 1, rest) != Starved
    requires ParseElems(done, n, s + more) == ParseElems(done + [rep], n - 1, rest + more)
    ensures ParseElems(done, n, s + more) == WithMore(ParseElems(done, n, s), more)
    decreases |s|, 1
  {
    hide Parse, ParseElems;
    ParseElemsExtend(done + [rep], n - 1, rest, more);
  }

  lemma ElementStarved(done: seq<Rep>, n: nat, s: string, o: Outcome)
    requires n > 0 && o == Parse(s) && !ParseElems(done, n, s).Starved?
    ensures !o.Starved? && (o.Got? ==> |o.rest| < |s| && !ParseElems(done + [o.rep], n - 1, o.rest).Starved?)
  {
  }

  lemma FirstGot(done: seq<Rep>, n: nat, s: string, rep: Rep, rest: string)
    requires n > 0 && Parse(s) == Got(rep, rest)
    ensures ParseElems(done, n, s) == ParseElems(done + [rep], n - 1, rest)
  {
  }

  lemma FirstRaised(done: seq<Rep>, n: nat, s: string, more: string, o: Outcome)
    requires n > 0 && o == Parse(s) && o.Raised? && Parse(s + more) == WithMore(o, more)
    ensures ParseElems(done, n, s + more) == WithMore(ParseElems(done, n, s), more)
  {
  }

  lemma LineExtend(s: string, more: string)
    requires Line(s).Some?
    ensures Line(s + more) == Some((Line(s).value.0, Line(s).value.1 + more))
  {
    var k := FirstCR(s);
    assert s + more == s[..k] + (s[k..] + more);
    FirstCRAt(s[..k], s[k..] + more);
    assert (s + more)[..k] == s[..k];
    assert (s + more)[k + 2..] == s[k + 2..] + more;
  }
}
