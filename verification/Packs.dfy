// Unpacked ranges among the arguments of a call: when a call with packs encodes
// what the call with their elements written out in place encodes.
module Packs {
  import opened Signature
  import opened Regularity

  function Values(w: Word): (args: seq<Actual>)
    requires forall k :: 0 <= k < |w| ==> !w[k].Key?
    ensures |args| == |w| && Inline(args)
  {
    seq(|w|, k requires 0 <= k < |w| => if w[k].Val? then Value(w[k].bytes) else FlagArg(w[k].tag, w[k].words))
  }

  lemma {:induction false} AtomsOfValues(w: Word)
    requires forall k :: 0 <= k < |w| ==> !w[k].Key?
    ensures Atoms(Values(w)) == w
  {
    if w == [] {
    } else {
      AtomsOfValues(w[1..]);
      assert Values(w)[1..] == Values(w[1..]);
      assert AtomsOf(Values(w)[0]) == [w[0]];
    }
  }

  lemma {:induction false} NoKeysInAtoms(args: seq<Actual>)
    ensures forall k :: 0 <= k < |Atoms(args)| ==> !Atoms(args)[k].Key?
  {
    if args == [] {
    } else {
      NoKeysInAtoms(args[1..]);
      if args[0].Pack? {
        ValuesInRows(args[0].rows);
      }
    }
  }

  lemma {:induction false} ValuesInRows(rows: seq<seq<string>>)
    ensures forall k :: 0 <= k < |Rows(rows)| ==> Rows(rows)[k].Val?
  {
    if rows == [] {
    } else {
      ValuesInRows(rows[1..]);
    }
  }

  /** The same call with every pack written out in place. */
  function WrittenOut(args: seq<Actual>): (plain: seq<Actual>)
    ensures Inline(plain)
  {
    NoKeysInAtoms(args);
    Values(Atoms(args))
  }

  lemma AtomsWrittenOut(args: seq<Actual>)
    ensures Atoms(WrittenOut(args)) == Atoms(args)
  {
    NoKeysInAtoms(args);
    AtomsOfValues(Atoms(args));
  }

  /** Packs are transparent to the overloads as they are meant: whatever a call
      with packs encodes, also with empty ones, the call with their elements
      written out encodes too. */
  lemma PacksAreTransparent(sig: Sig, args: seq<Actual>)
    requires Regular(sig) && WellFormed(args)
    ensures Encode(AsMeant, sig, args).Ok? ==>
              Encode(AsMeant, sig, WrittenOut(args)) == Encode(AsMeant, sig, args)
  {
    var c := Encode(AsMeant, sig, args);
    if c.Ok? {
      Sound(AsMeant, sig, args);
      AtomsWrittenOut(args);
      Complete(AsMeant, sig, WrittenOut(args), c.word);
    }
  }

  /** The other way fails where a pack reaches the parameter behind many<>:
      many<> takes the whole pack. */
  lemma PackReachesTrailing(o: Overloads)
    ensures var sig := [Many(One), Arg];
            && Encode(o, sig, [Pack(1, [["key"]])]) == Missing
            && Encode(o, sig, [Value("key")]) == Ok([Val("key")])
  {
    var sig := [Many(One), Arg];
    assert sig[1..] == [Arg] && [Arg][1..] == [];
    assert [Pack(1, [["key"]])][1..] == [] && [Value("key")][1..] == [];
    assert Encode(o, [Arg], []) == Missing;
    assert Rows([]) == [] && Cons(Rows([["key"]]), Missing) == Missing;
    assert Encode(o, [Arg], [Value("key")]) == Ok([Val("key")] + []);
  }

  /** It also fails where many<> of a flag stands in front of a last pair, which
      no command has: a flag and a pack count as the two halves of the pair. */
  lemma FlagAndPackAsPair(o: Overloads)
    ensures var sig := [Many(Opt(Get)), Pair];
            var get, w := FlagArg(Get, ["GET"]), [Mark(Get, ["GET"]), Val("a"), Val("b")];
            && Encode(o, sig, [get, Pack(2, [["a", "b"]])]) == NoMatch
            && Encode(o, sig, [get, Value("a"), Value("b")]) == Ok(w)
  {
    var sig, get, a, b := [Many(Opt(Get)), Pair], FlagArg(Get, ["GET"]), Value("a"), Value("b");
    var w := [Mark(Get, ["GET"]), Val("a"), Val("b")];
    assert sig[1..] == [Pair] && [Pair][1..] == [];
    assert Encode(o, [Pair], [get, Pack(2, [["a", "b"]])]) == NoMatch;
    assert [get, a, b][1..] == [a, b] && [a, b][2..] == [];
    assert Encode(o, [Pair], [a, b]) == Ok([Val("a"), Val("b")] + []);
    assert Encode(o, sig, [a, b]) == Ok([Val("a"), Val("b")]);
    TakesItem(o, sig, [get, a, b], w);
    assert w[..1] + [Val("a"), Val("b")] == w;
  }

  // ------------------------------------------------------ where packs fit

  predicate TakesOne(p: Param) { p == Arg || p == Many(One) }

  predicate TakesPair(p: Param) { p == Pair || p == Many(Two) }

  predicate NoOnes(sig: Sig) {
    forall k :: 0 <= k < |sig| ==> !TakesOne(sig[k])
  }

  predicate NoPairs(sig: Sig) {
    forall k :: 0 <= k < |sig| ==> !TakesPair(sig[k])
  }

  /** Signatures whose single values come before their pairs, with no many<> of
      both kinds and no many<> of a flag in front of a last pair. */
  predicate Packable(sig: Sig) {
    sig == [] ||
    (&& Packable(sig[1..])
     && (TakesPair(sig[0]) ==> NoOnes(sig[1..]))
     && (sig[0] == Many(One) ==> NoPairs(sig[1..]))
     && (sig[0].Many? && sig[0].item.Opt? ==> sig[1..] != [Pair]))
  }

  predicate NoRow(sig: Sig) {
    Many(One) !in sig
  }

  /** The number of arg<> parameters. */
  function Singles(sig: Sig): nat {
    if sig == [] then 0 else (if sig[0].Arg? then 1 else 0) + Singles(sig[1..])
  }

  /** Ranges that are not empty, of single values or of pairs. */
  predicate Filled(args: seq<Actual>) {
    && WellFormed(args)
    && forall k :: 0 <= k < |args| && args[k].Pack? ==> args[k].rows != [] && (args[k].width == 1 || args[k].width == 2)
  }

  /** How many values are taken one by one. */
  function Room(sig: Sig, args: seq<Actual>): nat {
    if NoPairs(sig) then |Atoms(args)| else Singles(sig)
  }

  /** The first `n` values come one by one or in packs of single values, the
      others two by two or in packs of pairs. */
  predicate Placed(n: nat, args: seq<Actual>) {
    args == [] ||
    match args[0]
    case FlagArg(_, _) => Placed(n, args[1..])
    case Value(_) =>
      if n > 0 then Placed(n - 1, args[1..]) else |args| >= 2 && args[1].Value? && Placed(0, args[2..])
    case Pack(width, rows) =>
      if n > 0 then width == 1 && |rows| <= n && Placed(n - |rows|, args[1..])
      else width == 2 && Placed(0, args[1..])
  }

  /** The signature ends in a parameter that many<> of the same kind precedes. */
  predicate LastBehindMany(sig: Sig) {
    && |sig| >= 2
    && ((sig[|sig| - 2] == Many(One) && sig[|sig| - 1] == Arg)
        || (sig[|sig| - 2] == Many(Two) && sig[|sig| - 1] == Pair))
  }

  /** A pack is all there is for that parameter. */
  predicate PackAtEnd(sig: Sig, args: seq<Actual>) {
    LastBehindMany(sig) && args != [] && args[|args| - 1].Pack?
  }

  predicate Fits(n: nat, sig: Sig, args: seq<Actual>) {
    (NoPairs(sig) && n >= |Atoms(args)|) || (NoRow(sig) && n == Singles(sig))
  }

  predicate Matched(n: nat, sig: Sig, args: seq<Actual>, w: Word) {
    && Regular(sig) && Packable(sig) && Filled(args) && Fits(n, sig, args)
    && Means(sig, w) && ArgsOf(w) == Atoms(args)
  }

  /** The call chooses the word exactly when its packs are in place. */
  predicate Agrees(o: Overloads, n: nat, sig: Sig, args: seq<Actual>, w: Word)
    requires Means(sig, w)
  {
    Encode(o, sig, args) == Ok(w) <==>
      (o.AsMeant? || LeavesArguments(sig, w)) && Placed(n, args) && !PackAtEnd(sig, args)
  }

  // --------------------------------------------------- one step on each side

  lemma FirstAtom(args: seq<Actual>)
    requires Filled(args) && args != []
    ensures Filled(args[1..])
    ensures var all := Atoms(args);
            && all == AtomsOf(args[0]) + Atoms(args[1..]) && AtomsOf(args[0]) != []
            && match args[0]
               case Value(bytes) => all[0] == Val(bytes)
               case FlagArg(tag, words) => all[0] == Mark(tag, words)
               case Pack(_, rows) => all[0] == Val(rows[0][0])
  {
    InTail(args);
    if args[0].Pack? {
      var rows := args[0].rows;
      assert |rows[0]| == args[0].width;
      assert Rows(rows)[0] == Row(rows[0])[0];
    }
  }

  lemma {:induction false} AtomsAtLeast(args: seq<Actual>)
    requires Filled(args)
    ensures |Atoms(args)| >= |args|
    ensures args == [] <==> Atoms(args) == []
  {
    if args == [] {
    } else {
      FirstAtom(args);
      AtomsAtLeast(args[1..]);
    }
  }

  lemma {:induction false} AllMarksAreFlags(args: seq<Actual>)
    requires Filled(args) && forall k :: 0 <= k < |Atoms(args)| ==> Atoms(args)[k].Mark?
    ensures AllFlags(args)
  {
    if args == [] {
    } else {
      FirstAtom(args);
      var all, front, rest := Atoms(args), AtomsOf(args[0]), Atoms(args[1..]);
      assert all[0].Mark?;
      forall k | 0 <= k < |rest| ensures rest[k].Mark? {
        assert rest[k] == all[|front| + k];
      }
      AllMarksAreFlags(args[1..]);
      forall k | 0 <= k < |args| ensures IsFlag(args[k]) {
        if k > 0 {
          assert args[k] == args[1..][k - 1];
        }
      }
    }
  }

  lemma {:induction false} NoPairsNoRow(sig: Sig)
    requires Packable(sig) && !NoPairs(sig)
    ensures NoRow(sig)
  {
    if sig == [] {
    } else {
      assert forall k :: 0 < k < |sig| ==> sig[k] == sig[1..][k - 1];
      if TakesPair(sig[0]) {
        assert forall k :: 0 <= k < |sig[1..]| ==> !TakesOne(sig[1..][k]);
      } else {
        NoPairsNoRow(sig[1..]);
      }
    }
  }

  lemma {:induction false} NoSingles(sig: Sig)
    requires forall k :: 0 <= k < |sig| ==> !sig[k].Arg?
    ensures Singles(sig) == 0
  {
    if sig == [] {
    } else {
      NoSingles(sig[1..]);
    }
  }

  /** What is known behind a parameter that takes no single value. */
  lemma FitsBehind(n: nat, sig: Sig, args: seq<Actual>)
    requires sig != [] && !sig[0].Arg? && Fits(n, sig, args)
    ensures Fits(n, sig[1..], args)
  {
    assert forall k :: 0 <= k < |sig| - 1 ==> sig[1..][k] == sig[k + 1];
  }

  lemma {:induction false} LastTakes(sig: Sig, w: Word)
    requires sig != [] && (sig[|sig| - 1].Arg? || sig[|sig| - 1].Pair?) && Means(sig, w)
    ensures ArgsOf(w) != []
    decreases |w|, |sig|
  {
    if |sig| == 1 {
      assert sig == [sig[0]];
      LastParam(sig[0], w);
    } else {
      var rest := sig[1..];
      match sig[0]
      case Kw(_) => LastTakes(rest, w[1..]);
      case Flag(tag, _) =>
        if !(StartsWith(w, Opt(tag)) && Means(rest, w[1..])) {
          LastTakes(rest, w);
        }
      case Many(_) =>
        if !Another(sig, w) {
          LastTakes(rest, w);
        }
      case _ =>
    }
  }

  /** The end of the call is the same after a step in front. */
  lemma EndAfter(sig: Sig, w: Word, args: seq<Actual>, left: seq<Actual>)
    requires Means(sig, w) && Filled(left) && ArgsOf(w) == Atoms(left) && args != []
    requires left != [] ==> (left[|left| - 1].Pack? <==> args[|args| - 1].Pack?)
    ensures PackAtEnd(sig, left) <==> PackAtEnd(sig, args)
  {
    if LastBehindMany(sig) {
      LastTakes(sig, w);
    }
  }

  lemma EndBehind(sig: Sig, args: seq<Actual>)
    requires sig != [] && sig[0] != Many(One) && sig[0] != Many(Two)
    ensures PackAtEnd(sig[1..], args) <==> PackAtEnd(sig, args)
  {
  }

  /** A pack without its first row. */
  lemma WithoutRow(args: seq<Actual>, w: Word)
    requires Filled(args) && args != [] && args[0].Pack? && ArgsOf(w) == Atoms(args)
    requires StartsWith(w, if args[0].width == 1 then One else Two)
    ensures var n, left := args[0].width, LeftOf(args);
            && Filled(left) && Row(args[0].rows[0]) == w[..n] && ArgsOf(w[n..]) == Atoms(left)
            && |Atoms(args)| == n + |Atoms(left)|
            && (left != [] ==> (left[|left| - 1].Pack? <==> args[|args| - 1].Pack?))
  {
    var n, left, row := args[0].width, LeftOf(args), Row(args[0].rows[0]);
    LeftIsLess(args);
    AtomsLeft(args);
    TakenAtoms(if n == 1 then One else Two, w);
    assert |row| == n == |w[..n]|;
    SplitFront(w[..n], ArgsOf(w[n..]), row, Atoms(left));
    LastOfLeft(args);
  }

  lemma LastOfLeft(args: seq<Actual>)
    requires args != [] && args[0].Pack? && args[0].rows != []
    ensures var left := LeftOf(args); left != [] ==> (left[|left| - 1].Pack? <==> args[|args| - 1].Pack?)
  {
  }

  /** many<> and a pack: it takes all rows as long as something is left for the
      parameter behind it. */
  lemma {:induction false} ManyTakesRows(sig: Sig, rows: seq<seq<string>>, w: Word, more: Word)
    requires Regular(sig) && Means(sig, w) && sig != [] && sig[0].Many? && !sig[0].item.Opt?
    requires forall j :: 0 <= j < |rows| ==> |rows[j]| == Width(sig[0].item)
    requires ArgsOf(w) == Rows(rows) + more
    requires sig[1..] == [Arg] || sig[1..] == [Pair] ==> more != []
    requires !(sig[0].item == One && sig[1..] == [Pair])
    ensures var n := |Rows(rows)|;
            && n == |rows| * Width(sig[0].item)
            && n <= |w| && w[..n] == Rows(rows) && Means(sig, w[n..]) && ArgsOf(w[n..]) == more
            && (LeavesArguments(sig, w) <==> LeavesArguments(sig, w[n..]))
    decreases |rows|
  {
    var item := sig[0].item;
    var k := Width(item);
    if rows == [] {
      assert w[0..] == w;
    } else {
      var row, others := Row(rows[0]), Rows(rows[1..]);
      Regroup(row, others, more);
      ManyTakesRow(sig, row, w, others + more);
      ManyTakesRows(sig, rows[1..], w[k..], more);
      JoinFront(w, k, others);
    }
  }

  lemma ManyTakesRow(sig: Sig, row: Word, w: Word, more: Word)
    requires Regular(sig) && Means(sig, w) && sig != [] && sig[0].Many? && !sig[0].item.Opt?
    requires |row| == Width(sig[0].item) && row[0].Val? && ArgsOf(w) == row + more
    requires sig[1..] == [Arg] || sig[1..] == [Pair] ==> more != []
    requires !(sig[0].item == One && sig[1..] == [Pair])
    ensures Another(sig, w) && row == w[..|row|] && ArgsOf(w[|row|..]) == more
  {
    var item := sig[0].item;
    assert ArgsOf(w)[0] == row[0];
    TakesAnother(sig, w);
    TakenAtoms(item, w);
    SplitFront(w[..Width(item)], ArgsOf(w[Width(item)..]), row, more);
  }

  lemma SplitFront(a: Word, b: Word, c: Word, d: Word)
    requires a + b == c + d && |a| == |c|
    ensures a == c && b == d
  {
    assert (a + b)[..|a|] == a && (c + d)[..|a|] == c && (a + b)[|a|..] == b && (c + d)[|a|..] == d;
  }

  lemma JoinFront(w: Word, k: nat, front: Word)
    requires k <= |w| && |front| <= |w[k..]| && w[k..][..|front|] == front
    ensures w[..k + |front|] == w[..k] + front && w[k + |front|..] == w[k..][|front|..]
  {
  }

  // ------------------------------------------------------------ all steps

  /** A parameter takes the front of the word, and the call goes on behind it. */
  lemma Step(o: Overloads, n: nat, sig: Sig, args: seq<Actual>, w: Word,
             k: nat, m: nat, next: Sig, left: seq<Actual>)
    requires Means(sig, w) && k <= |w| && Means(next, w[k..])
    requires Encode(o, sig, args) == Cons(w[..k], Encode(o, next, left))
    requires LeavesArguments(sig, w) <==> LeavesArguments(next, w[k..])
    requires Placed(n, args) <==> Placed(m, left)
    requires PackAtEnd(sig, args) <==> PackAtEnd(next, left)
    requires Agrees(o, m, next, left, w[k..])
    ensures Agrees(o, n, sig, args, w)
  {
    ConsIs(w[..k], Encode(o, next, left), w);
  }

  lemma {:induction false} CompletePacked(o: Overloads, n: nat, sig: Sig, args: seq<Actual>, w: Word)
    requires Matched(n, sig, args, w)
    ensures Agrees(o, n, sig, args, w)
    decreases |w|, |sig|, 2
  {
    AtomsAtLeast(args);
    if sig == [] {
    } else {
      match sig[0]
      case Kw(_) => PackedKw(o, n, sig, args, w);
      case Flag(_, _) => PackedFlag(o, n, sig, args, w);
      case Arg => PackedArg(o, n, sig, args, w);
      case Pair => PackedPair(o, n, sig, args, w);
      case Many(item) =>
        if args != [] && args[0].Pack? && !item.Opt? {
          PackedRows(o, n, sig, args, w);
        } else if Another(sig, w) {
          PackedItem(o, n, sig, args, w);
        } else {
          PackedStop(o, n, sig, args, w);
        }
    }
  }

  lemma {:induction false} PackedKw(o: Overloads, n: nat, sig: Sig, args: seq<Actual>, w: Word)
    requires Matched(n, sig, args, w) && sig != [] && sig[0].Kw?
    ensures Agrees(o, n, sig, args, w)
    decreases |w|, |sig|, 0
  {
    FitsBehind(n, sig, args);
    CompletePacked(o, n, sig[1..], args, w[1..]);
    EndBehind(sig, args);
    WeightBehind(sig);
    assert w[..1] == [Key(sig[0].idx)];
    Step(o, n, sig, args, w, 1, n, sig[1..], args);
  }

  lemma {:induction false} PackedFlag(o: Overloads, n: nat, sig: Sig, args: seq<Actual>, w: Word)
    requires Matched(n, sig, args, w) && sig != [] && sig[0].Flag?
    ensures Agrees(o, n, sig, args, w)
    decreases |w|, |sig|, 0
  {
    var rest, tag := sig[1..], sig[0].tag;
    AtomsAtLeast(args);
    FitsBehind(n, sig, args);
    EndBehind(sig, args);
    if args != [] {
      FirstAtom(args);
    }
    if StartsWith(w, Opt(tag)) && Means(rest, w[1..]) {
      DropOne(args, w);
      CompletePacked(o, n, rest, args[1..], w[1..]);
      EndAfter(rest, w[1..], args, args[1..]);
      Takes(o, sig, args, w);
      Step(o, n, sig, args, w, 1, n, rest, args[1..]);
    } else {
      MarksAreTagged(rest, w);
      MarksOfArgs(Tags(rest), w);
      assert rest != [] ==> rest[0] != Many(Opt(tag));
      CompletePacked(o, n, rest, args, w);
    }
  }

  lemma {:induction false} PackedArg(o: Overloads, n: nat, sig: Sig, args: seq<Actual>, w: Word)
    requires Matched(n, sig, args, w) && sig != [] && sig[0].Arg?
    ensures Agrees(o, n, sig, args, w)
    decreases |w|, |sig|, 1
  {
    var rest := sig[1..];
    TakenAtoms(One, w);
    AtomsAtLeast(args);
    FirstAtom(args);
    EndBehind(sig, args);
    if args[0].Value? {
      PackedValue(o, n, sig, args, w);
    } else if args[0].width == 1 {
      WithoutRow(args, w);
      ArgBehind(n, sig, args, LeftOf(args));
      PackedRow(o, n, sig, args, w, n - 1);
    } else {
      ArgBehind(n, sig, args, []);
    }
  }

  /** arg<> or pair<> and the first row of a pack. */
  lemma {:induction false} PackedRow(o: Overloads, n: nat, sig: Sig, args: seq<Actual>, w: Word, m: nat)
    requires Regular(sig) && Packable(sig) && Filled(args) && Means(sig, w) && ArgsOf(w) == Atoms(args)
    requires sig != [] && args != [] && args[0].Pack? && args[0].width == (if m < n then 1 else 2)
    requires if m < n then sig[0].Arg? && n == m + 1 else sig[0].Pair? && n == m == 0
    requires Fits(m, sig[1..], LeftOf(args))
    ensures Agrees(o, n, sig, args, w)
    decreases |w|, |sig|, 0
  {
    var rest, left, k := sig[1..], LeftOf(args), args[0].width;
    WithoutRow(args, w);
    CompletePacked(o, m, rest, left, w[k..]);
    EndAfter(rest, w[k..], args, left);
    EndBehind(sig, args);
    PlacedLeft(n, args);
    TakesRow(o, sig, args, w);
    Step(o, n, sig, args, w, k, m, rest, left);
  }

  lemma TakesRow(o: Overloads, sig: Sig, args: seq<Actual>, w: Word)
    requires sig != [] && args != [] && args[0].Pack? && args[0].rows != []
    requires (sig[0].Arg? && args[0].width == 1) || (sig[0].Pair? && args[0].width == 2)
    requires args[0].width <= |w| && Row(args[0].rows[0]) == w[..args[0].width]
    ensures Encode(o, sig, args) == Cons(w[..args[0].width], Encode(o, sig[1..], LeftOf(args)))
  {
  }

  lemma {:induction false} PackedValue(o: Overloads, n: nat, sig: Sig, args: seq<Actual>, w: Word)
    requires Matched(n, sig, args, w) && sig != [] && sig[0].Arg?
    requires args != [] && args[0].Value? && Filled(args[1..])
    ensures Agrees(o, n, sig, args, w)
    decreases |w|, |sig|, 0
  {
    var rest, left := sig[1..], args[1..];
    DropOne(args, w);
    ArgBehind(n, sig, args, left);
    CompletePacked(o, n - 1, rest, left, w[1..]);
    EndAfter(rest, w[1..], args, left);
    EndBehind(sig, args);
    Takes(o, sig, args, w);
    Step(o, n, sig, args, w, 1, n - 1, rest, left);
  }

  lemma ArgBehind(n: nat, sig: Sig, args: seq<Actual>, left: seq<Actual>)
    requires sig != [] && sig[0].Arg? && Fits(n, sig, args) && |Atoms(left)| < |Atoms(args)|
    ensures n > 0 && Fits(n - 1, sig[1..], left)
  {
    assert forall k :: 0 <= k < |sig| - 1 ==> sig[1..][k] == sig[k + 1];
  }

  lemma PlacedLeft(n: nat, args: seq<Actual>)
    requires Filled(args) && args != [] && args[0].Pack?
    ensures args[0].width == 1 && n > 0 ==> (Placed(n, args) <==> Placed(n - 1, LeftOf(args)))
    ensures args[0].width == 2 && n == 0 ==> (Placed(0, args) <==> Placed(0, LeftOf(args)))
  {
    var left := LeftOf(args);
    if |args[0].rows| > 1 {
      assert left[1..] == args[1..];
    }
  }

  lemma {:induction false} PackedPair(o: Overloads, n: nat, sig: Sig, args: seq<Actual>, w: Word)
    requires Matched(n, sig, args, w) && sig != [] && sig[0].Pair?
    ensures Agrees(o, n, sig, args, w)
    decreases |w|, |sig|, 1
  {
    var rest := sig[1..];
    TakenAtoms(Two, w);
    AtomsAtLeast(args);
    FirstAtom(args);
    FitsBehind(n, sig, args);
    EndBehind(sig, args);
    PairRoom(n, sig, args, args);
    if args[0].Pack? {
      if args[0].width == 2 {
        PairRoom(n, sig, args, LeftOf(args));
        PackedRow(o, n, sig, args, w, n);
      }
    } else {
      TwoInFront(args, w);
      if args[1].Value? {
        PairRoom(n, sig, args, args[2..]);
        CompletePacked(o, n, rest, args[2..], w[2..]);
        EndAfter(rest, w[2..], args, args[2..]);
        Takes(o, sig, args, w);
        Step(o, n, sig, args, w, 2, n, rest, args[2..]);
      }
    }
  }

  /** In front of a pair no value is taken one by one any more. */
  lemma PairRoom(n: nat, sig: Sig, args: seq<Actual>, left: seq<Actual>)
    requires Packable(sig) && sig != [] && TakesPair(sig[0]) && Fits(n, sig, args)
    ensures n == 0 && Fits(0, sig[1..], left) && Fits(0, sig, left)
  {
    NoSingles(sig[1..]);
    NoPairsNoRow(sig);
  }

  /** Two values in a row, the second perhaps in a pack. */
  lemma TwoInFront(args: seq<Actual>, w: Word)
    requires Filled(args) && args != [] && !args[0].Pack? && ArgsOf(w) == Atoms(args) && StartsWith(w, Two)
    ensures args[0].Value? && |args| >= 2 && (args[1].Value? || args[1].Pack?)
    ensures args[1].Value? ==>
              InFront(args, w, 2) && Filled(args[2..]) && ArgsOf(w[2..]) == Atoms(args[2..])
    ensures args[1].Value? && |args| > 2 ==> args[2..][|args| - 3] == args[|args| - 1]
  {
    var tail := args[1..];
    FirstAtom(args);
    DropOne(args, w);
    AtomsAtLeast(tail);
    TakenAtoms(One, w[1..]);
    FirstAtom(tail);
    if args[1].Value? {
      DropOne(tail, w[1..]);
      assert tail[1..] == args[2..] && w[1..][1..] == w[2..];
    }
  }

  /** many<> values with a pack in front. */
  lemma {:induction false} PackedRows(o: Overloads, n: nat, sig: Sig, args: seq<Actual>, w: Word)
    requires Matched(n, sig, args, w) && sig != [] && sig[0].Many? && !sig[0].item.Opt?
    requires args != [] && args[0].Pack?
    ensures Agrees(o, n, sig, args, w)
    decreases |w|, |sig|, 1
  {
    var rest, item, rows, tail := sig[1..], sig[0].item, args[0].rows, args[1..];
    FirstAtom(args);
    AtomsAtLeast(args);
    AtomsAtLeast(tail);
    ManyRoom(n, sig, args, 0, []);
    if args[0].width == Width(item) {
      if (rest == [Arg] || rest == [Pair]) && tail == [] {
        assert !Encode(o, sig, tail).Ok?;
      } else {
        PackedAllRows(o, n, sig, args, w);
      }
    }
  }

  lemma {:induction false} PackedAllRows(o: Overloads, n: nat, sig: Sig, args: seq<Actual>, w: Word)
    requires Matched(n, sig, args, w) && sig != [] && sig[0].Many? && !sig[0].item.Opt?
    requires args != [] && args[0].Pack? && args[0].width == Width(sig[0].item) && Filled(args[1..])
    requires sig[1..] == [Arg] || sig[1..] == [Pair] ==> Atoms(args[1..]) != []
    ensures Agrees(o, n, sig, args, w)
    decreases |w|, |sig|, 0
  {
    var item, rows, tail := sig[0].item, args[0].rows, args[1..];
    assert forall j :: 0 <= j < |rows| ==> |rows[j]| == args[0].width;
    ManyRoom(n, sig, args, if item == One then |Atoms(tail)| else 0, tail);
    ManyTakesRows(sig, rows, w, Atoms(tail));
    var k := |Rows(rows)|;
    var m := RowsPlaced(item, n, args);
    ManyRoom(n, sig, args, m, tail);
    CompletePacked(o, m, sig, tail, w[k..]);
    EndAfter(sig, w[k..], args, tail);
    TakesRows(o, sig, args);
    Step(o, n, sig, args, w, k, m, sig, tail);
  }

  lemma RowsPlaced(item: Item, n: nat, args: seq<Actual>) returns (m: nat)
    requires Filled(args) && args != [] && args[0].Pack? && !item.Opt? && args[0].width == Width(item)
    requires if item == One then n >= |Atoms(args)| else n == 0
    ensures if item == One then m >= |Atoms(args[1..])| else m == 0
    ensures Placed(n, args) <==> Placed(m, args[1..])
  {
    m := 0;
    if item == One {
      FirstAtom(args);
      RowsOfOne(args[0].rows);
      m := n - |args[0].rows|;
    }
  }

  lemma TakesRows(o: Overloads, sig: Sig, args: seq<Actual>)
    requires sig != [] && sig[0].Many? && !sig[0].item.Opt?
    requires args != [] && args[0].Pack? && args[0].width == Width(sig[0].item)
    ensures Encode(o, sig, args) == Cons(Rows(args[0].rows), Encode(o, sig, args[1..]))
  {
  }

  lemma ManyRoom(n: nat, sig: Sig, args: seq<Actual>, m: nat, left: seq<Actual>)
    requires Packable(sig) && Fits(n, sig, args) && sig != [] && sig[0].Many? && !sig[0].item.Opt?
    requires if sig[0].item == One then m >= |Atoms(left)| else m == 0
    ensures Fits(m, sig, left) && Fits(m, sig[1..], left)
    ensures if sig[0].item == One then n >= |Atoms(args)| && sig[1..] != [Pair] else n == 0 && sig[1..] != [Arg]
  {
    LastOfTwo(sig);
    if sig[0].item == Two {
      PairRoom(n, sig, args, left);
    } else {
      assert sig[0] in sig;
      assert forall k :: 0 <= k < |sig| - 1 ==> sig[1..][k] == sig[k + 1];
    }
  }

  /** many<> that takes an item which is no pack. */
  lemma {:induction false} PackedItem(o: Overloads, n: nat, sig: Sig, args: seq<Actual>, w: Word)
    requires Matched(n, sig, args, w) && sig != [] && sig[0].Many? && Another(sig, w)
    requires args != [] && args[0].Pack? ==> sig[0].item.Opt?
    ensures Agrees(o, n, sig, args, w)
    decreases |w|, |sig|, 1
  {
    var item := sig[0].item;
    TakenAtoms(item, w);
    AtomsAtLeast(args);
    FirstAtom(args);
    if item == Two {
      TwoInFront(args, w);
      ManyRoom(n, sig, args, 0, args[2..]);
      if args[1].Value? {
        PackedNext(o, n, sig, args, w, 0, args[2..]);
      } else {
        HalfAPair(o, sig, args);
      }
    } else {
      DropOne(args, w);
      if item == One {
        ManyRoom(n, sig, args, |Atoms(args[1..])|, args[1..]);
        ManyRoom(n, sig, args, n - 1, args[1..]);
      }
      PackedNext(o, n, sig, args, w, if item == One then n - 1 else n, args[1..]);
    }
  }

  lemma {:induction false} PackedNext(o: Overloads, n: nat, sig: Sig, args: seq<Actual>, w: Word,
                                      m: nat, left: seq<Actual>)
    requires Matched(n, sig, args, w) && sig != [] && sig[0].Many? && Another(sig, w)
    requires InFront(args, w, Width(sig[0].item)) && left == args[Width(sig[0].item)..]
    requires Filled(left) && ArgsOf(w[Width(sig[0].item)..]) == Atoms(left) && Fits(m, sig, left)
    requires Placed(n, args) <==> Placed(m, left)
    requires left != [] ==> left[|left| - 1] == args[|args| - 1]
    ensures Agrees(o, n, sig, args, w)
    decreases |w|, |sig|, 0
  {
    var k := Width(sig[0].item);
    TakenAtoms(sig[0].item, w);
    TakesAnother(sig, w);
    NotJustTheLast(sig, args, w);
    CompletePacked(o, m, sig, left, w[k..]);
    EndAfter(sig, w[k..], args, left);
    TakesItem(o, sig, args, w);
    Step(o, n, sig, args, w, k, m, sig, left);
  }

  /** A value and a pack are no pair. */
  lemma HalfAPair(o: Overloads, sig: Sig, args: seq<Actual>)
    requires sig != [] && sig[0] == Many(Two) && |args| >= 2 && args[0].Value? && !args[1].Value?
    requires sig[1..] != [Arg]
    ensures !Encode(o, sig, args).Ok?
  {
    var longer := [Pair] + sig;
    assert longer[1..] == sig;
    assert !IsFlag(args[0]);
    if LastLeft(sig[1..], |args|) {
      assert Encode(o, sig, args) == Encode(o, [Pair], args);
    } else {
      assert Encode(o, sig, args) == Encode(o, longer, args);
    }
  }

  lemma LastOfTwo(sig: Sig)
    requires Packable(sig) && sig != [] && sig[0].Many?
    ensures sig[1..] == [Arg] ==> sig[0] != Many(Two)
    ensures sig[1..] == [Pair] ==> sig[0] == Many(Two)
  {
    assert sig[1..] == [Arg] ==> TakesOne(sig[1..][0]);
    assert sig[1..] == [Pair] ==> TakesPair(sig[1..][0]);
  }

  /** With another item in front, what is left is more than the last parameter
      takes. */
  lemma NotJustTheLast(sig: Sig, args: seq<Actual>, w: Word)
    requires Packable(sig) && Filled(args) && ArgsOf(w) == Atoms(args) && sig != [] && sig[0].Many?
    requires StartsWith(w, sig[0].item) && InFront(args, w, Width(sig[0].item))
    requires !LastLeft(sig[1..], |Atoms(args)|)
    ensures !LastLeft(sig[1..], |args|)
  {
    var rest := sig[1..];
    LastOfTwo(sig);
    if |args| == Width(sig[0].item) {
      AtomsInline(args);
    }
  }

  /** many<> that takes nothing more. */
  lemma {:induction false} PackedStop(o: Overloads, n: nat, sig: Sig, args: seq<Actual>, w: Word)
    requires Matched(n, sig, args, w) && sig != [] && sig[0].Many? && !Another(sig, w)
    requires args != [] && args[0].Pack? ==> sig[0].item.Opt?
    ensures Agrees(o, n, sig, args, w)
    decreases |w|, |sig|, 0
  {
    var rest, item := sig[1..], sig[0].item;
    AtomsAtLeast(args);
    FitsBehind(n, sig, args);
    CompletePacked(o, n, rest, args, w);
    if args == [] {
    } else {
      FirstAtom(args);
      TakesAnother(sig, w);
      if item.Opt? {
        SkipsFlags(o, sig, args);
        EndBehind(sig, args);
      } else if LastLeft(rest, |Atoms(args)|) {
        ManyRoom(n, sig, args, if item == One then |Atoms(args)| else 0, args);
        StopsForLast(sig, args);
      } else {
        AllMarksAreFlags(args);
        assert forall k :: 0 <= k < |args| ==> IsFlag(args[k]);
        NoItemInFront(o, sig, args, w);
      }
    }
  }

  lemma StopsForLast(sig: Sig, args: seq<Actual>)
    requires Packable(sig) && Filled(args) && args != [] && args[0].Value?
    requires sig != [] && (sig[0] == Many(One) || sig[0] == Many(Two)) && LastLeft(sig[1..], |Atoms(args)|)
    ensures LastLeft(sig[1..], |args|)
    ensures sig[1..] == [Arg] ==> args == [args[0]]
  {
    FirstAtom(args);
    AtomsAtLeast(args[1..]);
  }

  // ------------------------------------------------------------- theorems

  /** Where packs fit: a call with packs encodes exactly when the call with their
      elements written out does, its packs are in place and no pack is all there
      is for a parameter behind many<>. It then encodes the same. */
  lemma PacksFitExactly(o: Overloads, sig: Sig, args: seq<Actual>)
    requires Regular(sig) && Packable(sig) && Filled(args)
    ensures var c, plain := Encode(o, sig, args), Encode(o, sig, WrittenOut(args));
            && (c.Ok? <==> plain.Ok? && Placed(Room(sig, args), args) && !PackAtEnd(sig, args))
            && (c.Ok? ==> c == plain)
  {
    var c, plain := Encode(o, sig, args), Encode(o, sig, WrittenOut(args));
    var n := Room(sig, args);
    AtomsWrittenOut(args);
    Sound(o, sig, args);
    Sound(o, sig, WrittenOut(args));
    RoomFits(sig, args);
    if c.Ok? {
      CompletePacked(o, n, sig, args, c.word);
      Complete(o, sig, WrittenOut(args), c.word);
    }
    if plain.Ok? {
      CompletePacked(o, n, sig, args, plain.word);
      Complete(o, sig, WrittenOut(args), plain.word);
    }
  }

  lemma RoomFits(sig: Sig, args: seq<Actual>)
    requires Packable(sig)
    ensures Fits(Room(sig, args), sig, args)
  {
    if !NoPairs(sig) {
      NoPairsNoRow(sig);
    }
  }

  /** For signatures without pairs and packs of single values: packs fit unless
      the signature ends in many<arg>, arg and the last argument is a pack. */
  lemma SinglesFitExactly(o: Overloads, sig: Sig, args: seq<Actual>)
    requires Regular(sig) && NoPairs(sig) && Filled(args)
    requires forall k :: 0 <= k < |args| && args[k].Pack? ==> args[k].width == 1
    requires Encode(o, sig, WrittenOut(args)).Ok?
    ensures Encode(o, sig, args) == Encode(o, sig, WrittenOut(args)) <==> !PackAtEnd(sig, args)
  {
    NoPairsPackable(sig);
    SinglesArePlaced(|Atoms(args)|, args);
    PacksFitExactly(o, sig, args);
  }

  lemma {:induction false} NoPairsPackable(sig: Sig)
    requires NoPairs(sig)
    ensures Packable(sig)
  {
    if sig == [] {
    } else {
      assert forall k :: 0 <= k < |sig[1..]| ==> sig[1..][k] == sig[k + 1];
      NoPairsPackable(sig[1..]);
      assert !NoPairs([Pair]) by {
        assert TakesPair([Pair][0]);
      }
    }
  }

  lemma {:induction false} SinglesArePlaced(n: nat, args: seq<Actual>)
    requires Filled(args) && n >= |Atoms(args)|
    requires forall k :: 0 <= k < |args| && args[k].Pack? ==> args[k].width == 1
    ensures Placed(n, args)
  {
    if args == [] {
    } else {
      FirstAtom(args);
      if args[0].Pack? {
        RowsOfOne(args[0].rows);
        SinglesArePlaced(n - |args[0].rows|, args[1..]);
      } else {
        SinglesArePlaced(if args[0].Value? then n - 1 else n, args[1..]);
      }
    }
  }

  lemma {:induction false} RowsOfOne(rows: seq<seq<string>>)
    requires forall j :: 0 <= j < |rows| ==> |rows[j]| == 1
    ensures |Rows(rows)| == |rows|
  {
    if rows == [] {
    } else {
      RowsOfOne(rows[1..]);
    }
  }

  /** Packs of the right width and single items, in any mixture. */
  predicate Aligned(item: Item, args: seq<Actual>)
    requires !item.Opt?
  {
    args == []
    || (args[0].Pack? && args[0].width == Width(item) && Aligned(item, args[1..]))
    || (item == One && args[0].Value? && Aligned(item, args[1..]))
    || (item == Two && |args| >= 2 && args[0].Value? && args[1].Value? && Aligned(item, args[2..]))
  }

  function Items(item: Item, args: seq<Actual>): nat
    requires !item.Opt? && Aligned(item, args)
  {
    if args == [] then 0
    else if args[0].Pack? then |args[0].rows| + Items(item, args[1..])
    else 1 + Items(item, args[Width(item)..])
  }

  /** The signatures of MSET, DEL and their like: at least k items, then any
      number. */
  function Variadic(item: Item, k: nat): Sig {
    if k == 0 then [Many(item)] else [Single(item)] + Variadic(item, k - 1)
  }

  function AllIfEnough(item: Item, k: nat, args: seq<Actual>): Choice
    requires !item.Opt? && Aligned(item, args)
  {
    if Items(item, args) >= k then Ok(Atoms(args)) else Missing
  }

  /** For them packs may be mixed with single items at will, empty packs
      included: encoding writes all of them out in order if there are enough,
      and reports missing arguments otherwise. */
  lemma {:induction false} VariadicTakesAll(o: Overloads, item: Item, k: nat, args: seq<Actual>)
    requires !item.Opt? && WellFormed(args) && Aligned(item, args)
    ensures Encode(o, Variadic(item, k), args) == AllIfEnough(item, k, args)
    decreases Remaining(args), k
  {
    var sig := Variadic(item, k);
    if args == [] {
      if k == 0 {
        assert sig[1..] == [];
      }
    } else {
      InTail(args);
      if args[0].Value? {
        VariadicTail(item, args);
        VariadicTakesAll(o, item, if k == 0 then 0 else k - 1, args[Width(item)..]);
        VariadicItem(o, item, k, args);
      } else if k > 0 {
        VariadicFromPack(o, item, k, args);
      } else {
        VariadicTakesAll(o, item, 0, args[1..]);
        TakesRows(o, sig, args);
      }
    }
  }

  /** A single item in front. */
  lemma VariadicTail(item: Item, args: seq<Actual>)
    requires !item.Opt? && WellFormed(args) && Aligned(item, args) && args != [] && args[0].Value?
    ensures |args| >= Width(item) && WellFormed(args[Width(item)..]) && Aligned(item, args[Width(item)..])
    ensures Remaining(args[Width(item)..]) < Remaining(args)
    ensures forall k :: 0 <= k < Width(item) ==> args[k].Value?
    ensures Atoms(args) == (if item == One then [Val(args[0].bytes)] else [Val(args[0].bytes), Val(args[1].bytes)])
                         + Atoms(args[Width(item)..])
  {
    if item == Two {
      TwoValues(args);
    }
  }

  lemma VariadicItem(o: Overloads, item: Item, k: nat, args: seq<Actual>)
    requires !item.Opt? && WellFormed(args) && Aligned(item, args) && args != [] && args[0].Value?
    ensures var n, w := Width(item), Atoms(args);
            && n <= |args| && n <= |w| && w[n..] == Atoms(args[n..])
            && Encode(o, Variadic(item, k), args)
               == Cons(w[..n], Encode(o, Variadic(item, if k == 0 then 0 else k - 1), args[n..]))
            && Aligned(item, args[n..])
            && Cons(w[..n], AllIfEnough(item, if k == 0 then 0 else k - 1, args[n..])) == AllIfEnough(item, k, args)
  {
    var sig, w := Variadic(item, k), Atoms(args);
    VariadicTail(item, args);
    assert w == w[..Width(item)] + w[Width(item)..];
    if k == 0 {
      assert sig[1..] == [];
      TakesItem(o, sig, args, w);
    } else {
      assert sig[0] == Single(item) && sig[1..] == Variadic(item, k - 1);
      Takes(o, sig, args, w);
    }
  }

  lemma {:induction false} VariadicFromPack(o: Overloads, item: Item, k: nat, args: seq<Actual>)
    requires !item.Opt? && WellFormed(args) && Aligned(item, args) && k > 0
    requires args != [] && args[0].Pack?
    ensures EncodeFromPack(o, Variadic(item, k), args) == AllIfEnough(item, k, args)
    decreases Remaining(args), k, 0
  {
    var sig, pack := Variadic(item, k), args[0];
    assert sig[1..] == Variadic(item, k - 1);
    InTail(args);
    if pack.rows == [] {
      VariadicTakesAll(o, item, k, args[1..]);
      assert [] + Atoms(args[1..]) == Atoms(args[1..]);
    } else {
      EnoughBehindRow(item, k, args);
      LeftIsLess(args);
      VariadicTakesAll(o, item, k - 1, LeftOf(args));
    }
  }

  lemma EnoughBehindRow(item: Item, k: nat, args: seq<Actual>)
    requires !item.Opt? && Aligned(item, args) && k > 0 && args != [] && args[0].Pack? && args[0].rows != []
    ensures Aligned(item, LeftOf(args))
    ensures Cons(Row(args[0].rows[0]), AllIfEnough(item, k - 1, LeftOf(args))) == AllIfEnough(item, k, args)
  {
    AtomsLeft(args);
    if |args[0].rows| > 1 {
      assert LeftOf(args)[1..] == args[1..];
    }
  }
}
