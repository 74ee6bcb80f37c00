// The command signatures of include/red1z/signature.h: which words of bulk
// strings a signature allows, and how the encode overloads choose one for the
// arguments of a call.
module Signature {

  /** The flag tags of include/red1z/flags.h. */
  datatype Tag =
    | ExPx | NxXx | Ch | KeepTtl | Incr | Replace | AbsTtl | IdleTime | Freq
    | Weights | Aggregate | WithScores | LInsert | Match | OfType | Count
    | By | Limit | Get | Order | Alpha | Store | RefCount | Encoding
    | GetBf | SetBf | IncrBy | Overflow | Block | MaxLenOrMinId | MkStream
    | NoMkStream | NoAck | Idle | Time | RetryCount | Force | JustId

  // -------------------------------------------------------- signatures

  /** What may stand under many<>. */
  datatype Item = One | Two | Opt(tag: Tag)

  /** arg<>, pair<arg<>, arg<>>, kw<I>, flag<Tag, Opt>, many<Item>. */
  datatype Param =
    | Arg
    | Pair
    | Kw(idx: nat)
    | Flag(tag: Tag, optional: bool)
    | Many(item: Item)

  type Sig = seq<Param>

  function Single(item: Item): Param {
    match item
    case One => Arg
    case Two => Pair
    case Opt(tag) => Flag(tag, true)
  }

  /** kw_count. */
  function KwCount(sig: Sig): nat {
    if sig == [] then 0
    else (if sig[0].Kw? then 1 else 0) + KwCount(sig[1..])
  }

  // --------------------------------------------------------- arguments

  /** An argument of a call: one value as the bytes it is sent as, a flag object
      with its words (none if it is unset), or an unpacked range of rows, each a
      single value or the components of a tuple. */
  datatype Actual =
    | Value(bytes: string)
    | FlagArg(tag: Tag, words: seq<string>)
    | Pack(width: nat, rows: seq<seq<string>>)

  predicate WellFormed(args: seq<Actual>) {
    forall k, j :: 0 <= k < |args| && args[k].Pack? && 0 <= j < |args[k].rows| ==>
      |args[k].rows[j]| == args[k].width
  }

  predicate IsFlag(a: Actual) { a.FlagArg? }

  predicate AllFlags(args: seq<Actual>) {
    forall k :: 0 <= k < |args| ==> IsFlag(args[k])
  }

  /** arg_size. */
  function ArgSize(a: Actual): nat {
    match a
    case Value(_) => 1
    case FlagArg(_, words) => |words|
    case Pack(width, rows) => |rows| * width
  }

  function ArgSizes(args: seq<Actual>): nat {
    if args == [] then 0 else ArgSize(args[0]) + ArgSizes(args[1..])
  }

  // ------------------------------------------------------------- words

  /** One step of an encoding: a keyword of the command, a value, or a flag. */
  datatype Token =
    | Key(idx: nat)
    | Val(bytes: string)
    | Mark(tag: Tag, words: seq<string>)

  type Word = seq<Token>

  function Row(row: seq<string>): Word {
    seq(|row|, k requires 0 <= k < |row| => Val(row[k]))
  }

  function Rows(rows: seq<seq<string>>): Word {
    if rows == [] then [] else Row(rows[0]) + Rows(rows[1..])
  }

  /** The arguments written out in caller order, packs replaced by their
      elements. */
  function Atoms(args: seq<Actual>): Word {
    if args == [] then [] else AtomsOf(args[0]) + Atoms(args[1..])
  }

  function AtomsOf(a: Actual): Word {
    match a
    case Value(bytes) => [Val(bytes)]
    case FlagArg(tag, words) => [Mark(tag, words)]
    case Pack(_, rows) => Rows(rows)
  }

  /** A word without its keywords. */
  function ArgsOf(w: Word): Word {
    if w == [] then []
    else (if w[0].Key? then [] else [w[0]]) + ArgsOf(w[1..])
  }

  function Spell(keywords: seq<string>, t: Token): seq<string>
    requires t.Key? ==> t.idx < |keywords|
  {
    match t
    case Key(idx) => [keywords[idx]]
    case Val(bytes) => [bytes]
    case Mark(_, words) => words
  }

  predicate Spellable(keywords: seq<string>, w: Word) {
    forall k :: 0 <= k < |w| && w[k].Key? ==> w[k].idx < |keywords|
  }

  /** The bulk strings of a word. */
  function SpellAll(keywords: seq<string>, w: Word): seq<string>
    requires Spellable(keywords, w)
  {
    if w == [] then [] else Spell(keywords, w[0]) + SpellAll(keywords, w[1..])
  }

  // -------------------------------------------------- what a signature means

  predicate StartsWith(w: Word, item: Item) {
    match item
    case One => |w| >= 1 && w[0].Val?
    case Two => |w| >= 2 && w[0].Val? && w[1].Val?
    case Opt(tag) => |w| >= 1 && w[0].Mark? && w[0].tag == tag
  }

  function Width(item: Item): nat {
    if item.Two? then 2 else 1
  }

  /** The words of a signature: its parameters one after the other, a keyword for
      kw, one value for arg, two for pair, a flag of the right tag or, if it is
      optional, nothing for flag, and any number of items for many. */
  predicate Means(sig: Sig, w: Word)
    decreases |w|, |sig|
  {
    if sig == [] then w == []
    else
      var rest := sig[1..];
      match sig[0]
      case Arg => StartsWith(w, One) && Means(rest, w[1..])
      case Pair => StartsWith(w, Two) && Means(rest, w[2..])
      case Kw(idx) => w != [] && w[0] == Key(idx) && Means(rest, w[1..])
      case Flag(tag, optional) =>
        || (StartsWith(w, Opt(tag)) && Means(rest, w[1..]))
        || (optional && Means(rest, w))
      case Many(item) =>
        || Means(rest, w)
        || (StartsWith(w, item) && Means(sig, w[Width(item)..]))
  }

  // ------------------------------------------------------- the overloads

  /** Missing is the exception of the overload for exhausted arguments; NoMatch
      is a call that no overload takes. */
  datatype Choice =
    | Ok(word: Word)
    | Missing
    | NoMatch

  function Cons(t: Word, c: Choice): Choice {
    if c.Ok? then Ok(t + c.word) else c
  }

  function Elements(a: Actual): nat {
    if a.Pack? then 1 + |a.rows| else 1
  }

  function Remaining(args: seq<Actual>): nat {
    if args == [] then 0 else Elements(args[0]) + Remaining(args[1..])
  }

  /** A many<T> weighs less once its T stands in front of it, so that the
      expansion of many<T> to T, many<T> makes progress too. */
  function Weight(sig: Sig, before: seq<Param>): nat {
    if sig == [] then 0
    else
      (if !sig[0].Many? then 1
       else if before == [Single(sig[0].item)] then 0
       else 2) + Weight(sig[1..], [sig[0]])
  }

  lemma WeightBehind(sig: Sig)
    requires sig != []
    requires |sig| > 1 && sig[1].Many? ==> sig[0] != Single(sig[1].item)
    ensures Weight(sig[1..], []) < Weight(sig, [])
  {
    if |sig| > 1 {
      assert Weight(sig[1..], [sig[0]]) == Weight(sig[1..], []);
    }
  }

  lemma WeightBehindFlags(sig: Sig)
    requires |sig| > 1 && sig[1].Many? && sig[0] == Single(sig[1].item)
    ensures Weight(sig[1..][1..], []) < Weight(sig, [])
  {
    var rest := sig[1..];
    if |rest| > 1 {
      assert Weight(rest[1..], [rest[0]]) == Weight(rest[1..], []);
    }
  }

  lemma WeightExpanded(sig: Sig)
    requires sig != [] && sig[0].Many?
    ensures Weight([Single(sig[0].item)] + sig, []) < Weight(sig, [])
  {
    assert ([Single(sig[0].item)] + sig)[1..] == sig;
  }

  /** The overload for trailing flags behind many<> (lines 223-229) declares a
      template parameter that no argument determines, so it is never a candidate:
      AsWritten is the set of overloads without it, AsMeant the set with it. */
  datatype Overloads = AsWritten | AsMeant

  /** many<> gives way to the parameters behind it: the overload for trailing
      flags, or the one for a trailing arg<> or pair<>. */
  predicate Stops(o: Overloads, sig: Sig, args: seq<Actual>)
    requires sig != [] && sig[0].Many?
  {
    var rest := sig[1..];
    || (o.AsMeant? && !sig[0].item.Opt? && AllFlags(args))
    || (rest == [Arg] && |args| == 1)
    || (rest == [Pair] && |args| == 2)
  }

  /** The arguments behind the first row of a pack, its other rows packed again. */
  function LeftOf(args: seq<Actual>): seq<Actual>
    requires args != [] && args[0].Pack? && args[0].rows != []
  {
    if |args[0].rows| > 1 then [Pack(args[0].width, args[0].rows[1..])] + args[1..] else args[1..]
  }

  lemma LeftIsLess(args: seq<Actual>)
    requires args != [] && args[0].Pack? && args[0].rows != []
    ensures Remaining(LeftOf(args)) < Remaining(args)
    ensures WellFormed(args) ==> WellFormed(LeftOf(args))
  {
    if |args[0].rows| > 1 {
      assert LeftOf(args)[1..] == args[1..];
    }
    if WellFormed(args) {
      InTail(args);
    }
  }

  lemma InTail(args: seq<Actual>)
    requires WellFormed(args) && args != []
    ensures WellFormed(args[1..])
    ensures args[0].Pack? && args[0].rows != [] ==>
              WellFormed([Pack(args[0].width, args[0].rows[1..])] + args[1..])
  {
  }

  /** The overloads of encode for a signature and the arguments still to be
      encoded: an expansion of many<> gives way to the overloads for trailing
      parameters when just their arguments are left, and packs are always taken
      by the overloads for packs. */
  function Encode(o: Overloads, sig: Sig, args: seq<Actual>): Choice
    decreases Remaining(args), if args == [] then |sig| else Weight(sig, []), 1
  {
    if sig == [] then
      if args == [] then Ok([]) else NoMatch
    else
      var rest := sig[1..];
      match sig[0]
      case Kw(idx) => WeightBehind(sig); Cons([Key(idx)], Encode(o, rest, args))
      case Flag(tag, optional) =>
        if args == [] then
          if optional then Encode(o, rest, []) else Missing
        else if args[0].FlagArg? && args[0].tag == tag then
          Cons([Mark(tag, args[0].words)], Encode(o, rest, args[1..]))
        else if !optional then NoMatch
        else if rest != [] && rest[0] == Many(Opt(tag)) then
          WeightBehindFlags(sig);
          Encode(o, rest[1..], args)
        else
          WeightBehind(sig);
          Encode(o, rest, args)
      case Arg =>
        if args == [] then Missing
        else
          (match args[0]
           case Value(bytes) => Cons([Val(bytes)], Encode(o, rest, args[1..]))
           case FlagArg(_, _) => NoMatch
           case Pack(width, rows) => if width == 1 then EncodeFromPack(o, sig, args) else NoMatch)
      case Pair =>
        if args == [] then Missing
        else if args[0].Pack? then
          if args[0].width == 2 then EncodeFromPack(o, sig, args) else NoMatch
        else if |args| >= 2 && args[0].Value? && args[1].Value? then
          assert args[2..] == args[1..][1..];
          assert Remaining(args) == Elements(args[0]) + (Elements(args[1]) + Remaining(args[2..]));
          Cons([Val(args[0].bytes), Val(args[1].bytes)], Encode(o, rest, args[2..]))
        else NoMatch
      case Many(item) =>
        if args == [] then
          if o.AsMeant? || rest == [] then Encode(o, rest, []) else Missing
        else if !item.Opt? && args[0].Pack? then
          if args[0].width == Width(item) then Cons(Rows(args[0].rows), Encode(o, sig, args[1..]))
          else NoMatch
        else if Stops(o, sig, args) then
          WeightBehind(sig);
          Encode(o, rest, args)
        else
          WeightExpanded(sig);
          Encode(o, [Single(item)] + sig, args)
  }

  /** encode_from_pack: the parameter takes the first row, the others are packed
      again. */
  function EncodeFromPack(o: Overloads, sig: Sig, args: seq<Actual>): Choice
    requires sig != [] && (sig[0].Arg? || sig[0].Pair?)
    requires args != [] && args[0].Pack?
    decreases Remaining(args), if args == [] then |sig| else Weight(sig, []), 0
  {
    if args[0].rows == [] then Encode(o, sig, args[1..])
    else
      LeftIsLess(args);
      Cons(Row(args[0].rows[0]), Encode(o, sig[1..], LeftOf(args)))
  }

  // ------------------------------------------------------- soundness

  lemma {:induction false} ArgsOfAppend(a: Word, b: Word)
    ensures ArgsOf(a + b) == ArgsOf(a) + ArgsOf(b)
  {
    if a == [] {
      assert a + b == b;
    } else {
      ArgsOfAppend(a[1..], b);
      assert (a + b)[1..] == a[1..] + b && (a + b)[0] == a[0];
    }
  }

  lemma {:induction false} ArgsOfRow(row: seq<string>)
    ensures ArgsOf(Row(row)) == Row(row)
  {
    if row == [] {
    } else {
      ArgsOfRow(row[1..]);
      assert Row(row)[1..] == Row(row[1..]);
    }
  }

  lemma {:induction false} ArgsOfRows(rows: seq<seq<string>>)
    ensures ArgsOf(Rows(rows)) == Rows(rows)
  {
    if rows == [] {
    } else {
      ArgsOfRow(rows[0]);
      ArgsOfRows(rows[1..]);
      ArgsOfAppend(Row(rows[0]), Rows(rows[1..]));
    }
  }

  /** The rows of a pack in front of what many<> has taken. */
  lemma {:induction false} RowsMean(sig: Sig, rows: seq<seq<string>>, w: Word)
    requires sig != [] && sig[0].Many? && !sig[0].item.Opt?
    requires forall j :: 0 <= j < |rows| ==> |rows[j]| == Width(sig[0].item)
    requires Means(sig, w)
    ensures Means(sig, Rows(rows) + w)
  {
    if rows == [] {
      assert [] + w == w;
    } else {
      RowsMean(sig, rows[1..], w);
      RowInFront(sig, rows[0], Rows(rows[1..]) + w);
      Regroup(Row(rows[0]), Rows(rows[1..]), w);
    }
  }

  lemma RowInFront(sig: Sig, row: seq<string>, w: Word)
    requires sig != [] && sig[0].Many? && !sig[0].item.Opt? && |row| == Width(sig[0].item)
    requires Means(sig, w)
    ensures Means(sig, Row(row) + w)
  {
    var all := Row(row) + w;
    assert all[|row|..] == w;
    assert StartsWith(all, sig[0].item);
  }

  /** A choice that is a word is one of the signature, and its values and flags
      are the arguments, in their order. */
  predicate Faithful(c: Choice, sig: Sig, args: seq<Actual>) {
    c.Ok? ==> Means(sig, c.word) && ArgsOf(c.word) == Atoms(args)
  }

  /** A token in front of a word. */
  lemma Front(t: Token, w: Word)
    ensures ([t] + w)[1..] == w
    ensures ArgsOf([t] + w) == (if t.Key? then [] else [t]) + ArgsOf(w)
  {
  }

  lemma Front2(a: string, b: string, w: Word)
    ensures ([Val(a), Val(b)] + w)[2..] == w
    ensures ArgsOf([Val(a), Val(b)] + w) == [Val(a), Val(b)] + ArgsOf(w)
  {
    assert [Val(a), Val(b)] + w == [Val(a)] + ([Val(b)] + w);
    Front(Val(b), w);
    Front(Val(a), [Val(b)] + w);
  }

  /** The parameter in front takes nothing, or has been expanded. */
  lemma SkippedIsFaithful(c: Choice, sig: Sig, args: seq<Actual>)
    requires sig != [] && (sig[0].Many? || (sig[0].Flag? && sig[0].optional))
    requires Faithful(c, sig[1..], args) || (sig[0].Many? && Faithful(c, [Single(sig[0].item)] + sig, args))
    ensures Faithful(c, sig, args)
  {
    if sig[0].Many? {
      assert ([Single(sig[0].item)] + sig)[1..] == sig;
    }
  }

  /** The parameter in front takes one token: a keyword of its own, or the first
      argument. */
  lemma TokenIsFaithful(c: Choice, sig: Sig, args: seq<Actual>, t: Token, left: seq<Actual>)
    requires sig != [] && Faithful(c, sig[1..], left)
    requires match sig[0]
             case Kw(idx) => t == Key(idx) && left == args
             case Arg => t.Val? && args != [] && AtomsOf(args[0]) == [t] && left == args[1..]
             case Flag(tag, _) => t.Mark? && t.tag == tag && args != [] && AtomsOf(args[0]) == [t] && left == args[1..]
             case _ => false
    ensures Faithful(Cons([t], c), sig, args)
  {
    if c.Ok? {
      Front(t, c.word);
      assert [] + ArgsOf(c.word) == ArgsOf(c.word);
    }
  }

  lemma PairIsFaithful(c: Choice, sig: Sig, args: seq<Actual>)
    requires sig != [] && sig[0].Pair? && |args| >= 2 && args[0].Value? && args[1].Value?
    requires Faithful(c, sig[1..], args[2..])
    ensures Faithful(Cons([Val(args[0].bytes), Val(args[1].bytes)], c), sig, args)
  {
    if c.Ok? {
      Front2(args[0].bytes, args[1].bytes, c.word);
      TwoValues(args);
    }
  }

  lemma TwoValues(args: seq<Actual>)
    requires |args| >= 2 && args[0].Value? && args[1].Value?
    ensures Remaining(args[2..]) < Remaining(args)
    ensures Atoms(args) == [Val(args[0].bytes), Val(args[1].bytes)] + Atoms(args[2..])
  {
    var tail := args[1..];
    assert tail[1..] == args[2..];
    assert Atoms(tail) == [Val(args[1].bytes)] + Atoms(args[2..]);
    assert Remaining(tail) == 1 + Remaining(args[2..]);
    Regroup([Val(args[0].bytes)], [Val(args[1].bytes)], Atoms(args[2..]));
  }

  /** many<> takes a whole pack. */
  lemma PackIsFaithful(c: Choice, sig: Sig, args: seq<Actual>)
    requires WellFormed(args) && sig != [] && sig[0].Many? && !sig[0].item.Opt?
    requires args != [] && args[0].Pack? && args[0].width == Width(sig[0].item)
    requires Faithful(c, sig, args[1..])
    ensures Faithful(Cons(Rows(args[0].rows), c), sig, args)
  {
    if c.Ok? {
      var rows := args[0].rows;
      assert forall j :: 0 <= j < |rows| ==> |rows[j]| == args[0].width;
      RowsMean(sig, rows, c.word);
      ArgsOfRows(rows);
      ArgsOfAppend(Rows(rows), c.word);
    }
  }

  /** arg<> or pair<> takes the first row of a pack. */
  lemma RowIsFaithful(c: Choice, sig: Sig, args: seq<Actual>, left: seq<Actual>)
    requires sig != [] && args != [] && args[0].Pack? && args[0].rows != []
    requires (sig[0].Arg? && |args[0].rows[0]| == 1) || (sig[0].Pair? && |args[0].rows[0]| == 2)
    requires left == LeftOf(args) && Faithful(c, sig[1..], left)
    ensures Faithful(Cons(Row(args[0].rows[0]), c), sig, args)
  {
    if c.Ok? {
      RowMeans(sig, args[0].rows[0], c.word);
      AtomsLeft(args);
    }
  }

  /** Whatever the overloads choose is a word of the signature whose values and
      flags are the caller's arguments, in the caller's order. */
  lemma {:induction false} Sound(o: Overloads, sig: Sig, args: seq<Actual>)
    requires WellFormed(args)
    ensures Faithful(Encode(o, sig, args), sig, args)
    decreases Remaining(args), if args == [] then |sig| else Weight(sig, []), 1
  {
    if sig == [] {
    } else {
      var rest := sig[1..];
      if args != [] {
        InTail(args);
      }
      match sig[0]
      case Kw(idx) =>
        WeightBehind(sig);
        Sound(o, rest, args);
        TokenIsFaithful(Encode(o, rest, args), sig, args, Key(idx), args);
      case Flag(_, _) => SoundFlag(o, sig, args);
      case Arg =>
        if args == [] {
        } else if args[0].Pack? {
          SoundFromPack(o, sig, args);
        } else if args[0].Value? {
          Sound(o, rest, args[1..]);
          TokenIsFaithful(Encode(o, rest, args[1..]), sig, args, Val(args[0].bytes), args[1..]);
        }
      case Pair =>
        if args == [] {
        } else if args[0].Pack? {
          SoundFromPack(o, sig, args);
        } else if |args| >= 2 && args[0].Value? && args[1].Value? {
          TwoValues(args);
          Sound(o, rest, args[2..]);
          PairIsFaithful(Encode(o, rest, args[2..]), sig, args);
        }
      case Many(_) => SoundMany(o, sig, args);
    }
  }

  lemma {:induction false} SoundFlag(o: Overloads, sig: Sig, args: seq<Actual>)
    requires WellFormed(args) && sig != [] && sig[0].Flag?
    ensures Faithful(Encode(o, sig, args), sig, args)
    decreases Remaining(args), if args == [] then |sig| else Weight(sig, []), 0
  {
    var rest, tag := sig[1..], sig[0].tag;
    if args == [] {
      if sig[0].optional {
        Sound(o, rest, []);
        SkippedIsFaithful(Encode(o, rest, []), sig, []);
      }
    } else if args[0].FlagArg? && args[0].tag == tag {
      InTail(args);
      Sound(o, rest, args[1..]);
      TokenIsFaithful(Encode(o, rest, args[1..]), sig, args, Mark(tag, args[0].words), args[1..]);
    } else if sig[0].optional {
      if rest != [] && rest[0] == Many(Opt(tag)) {
        WeightBehindFlags(sig);
        Sound(o, rest[1..], args);
        SkippedIsFaithful(Encode(o, rest[1..], args), rest, args);
        SkippedIsFaithful(Encode(o, rest[1..], args), sig, args);
      } else {
        WeightBehind(sig);
        Sound(o, rest, args);
        SkippedIsFaithful(Encode(o, rest, args), sig, args);
      }
    }
  }

  lemma {:induction false} SoundMany(o: Overloads, sig: Sig, args: seq<Actual>)
    requires WellFormed(args) && sig != [] && sig[0].Many?
    ensures Faithful(Encode(o, sig, args), sig, args)
    decreases Remaining(args), if args == [] then |sig| else Weight(sig, []), 0
  {
    var rest, item := sig[1..], sig[0].item;
    WeightBehind(sig);
    if args == [] {
      Sound(o, rest, []);
      SkippedIsFaithful(Encode(o, rest, []), sig, []);
    } else if !item.Opt? && args[0].Pack? {
      InTail(args);
      Sound(o, sig, args[1..]);
      if args[0].width == Width(item) {
        PackIsFaithful(Encode(o, sig, args[1..]), sig, args);
      }
    } else if Stops(o, sig, args) {
      Sound(o, rest, args);
      SkippedIsFaithful(Encode(o, rest, args), sig, args);
    } else {
      WeightExpanded(sig);
      Sound(o, [Single(item)] + sig, args);
      SkippedIsFaithful(Encode(o, [Single(item)] + sig, args), sig, args);
    }
  }

  lemma {:induction false} SoundFromPack(o: Overloads, sig: Sig, args: seq<Actual>)
    requires WellFormed(args) && sig != [] && (sig[0].Arg? || sig[0].Pair?)
    requires args != [] && args[0].Pack?
    ensures args[0].width == (if sig[0].Arg? then 1 else 2) ==>
              Faithful(EncodeFromPack(o, sig, args), sig, args)
    decreases Remaining(args), if args == [] then |sig| else Weight(sig, []), 0
  {
    InTail(args);
    if args[0].rows == [] {
      Sound(o, sig, args[1..]);
      assert [] + Atoms(args[1..]) == Atoms(args[1..]);
    } else {
      var left := LeftOf(args);
      LeftIsLess(args);
      assert |args[0].rows[0]| == args[0].width;
      Sound(o, sig[1..], left);
      if args[0].width == (if sig[0].Arg? then 1 else 2) {
        RowIsFaithful(Encode(o, sig[1..], left), sig, args, left);
      }
    }
  }

  /** A row in front of what the rest of a signature has taken. */
  lemma RowMeans(sig: Sig, row: seq<string>, w: Word)
    requires sig != [] && ((sig[0].Arg? && |row| == 1) || (sig[0].Pair? && |row| == 2))
    requires Means(sig[1..], w)
    ensures Means(sig, Row(row) + w) && ArgsOf(Row(row) + w) == Row(row) + ArgsOf(w)
  {
    assert (Row(row) + w)[|row|..] == w;
    ArgsOfRow(row);
    ArgsOfAppend(Row(row), w);
  }

  lemma AtomsLeft(args: seq<Actual>)
    requires args != [] && args[0].Pack? && args[0].rows != []
    ensures Atoms(args) == Row(args[0].rows[0]) + Atoms(LeftOf(args))
  {
    var pack, others, left := args[0], Atoms(args[1..]), LeftOf(args);
    if |pack.rows| > 1 {
      assert left[1..] == args[1..];
      assert Atoms(left) == Rows(pack.rows[1..]) + others;
      Regroup(Row(pack.rows[0]), Rows(pack.rows[1..]), others);
    } else {
      assert pack.rows[1..] == [];
      assert Rows(pack.rows) == Row(pack.rows[0]) + [];
      assert Rows(pack.rows) == Row(pack.rows[0]);
    }
  }

  lemma Regroup(a: Word, b: Word, c: Word)
    ensures (a + b) + c == a + (b + c) && [] + c == c
  {
  }

  // --------------------------------------------------- counting bulk strings

  function Keys(sig: Sig): Word {
    if sig == [] then []
    else (if sig[0].Kw? then [Key(sig[0].idx)] else []) + Keys(sig[1..])
  }

  function KeysOf(w: Word): Word {
    if w == [] then []
    else (if w[0].Key? then [w[0]] else []) + KeysOf(w[1..])
  }

  function Length(w: Word): nat {
    if w == [] then 0
    else (if w[0].Mark? then |w[0].words| else 1) + Length(w[1..])
  }

  /** A word holds the keywords of its signature, in order, and no others. */
  lemma {:induction false} KeysInOrder(sig: Sig, w: Word)
    requires Means(sig, w)
    ensures KeysOf(w) == Keys(sig)
    decreases |w|, |sig|
  {
    if sig == [] {
    } else {
      var rest := sig[1..];
      match sig[0]
      case Arg => KeysInOrder(rest, w[1..]);
      case Pair => KeysInOrder(rest, w[2..]); NoKeysInTwo(w);
      case Kw(idx) => KeysInOrder(rest, w[1..]);
      case Flag(tag, optional) =>
        if StartsWith(w, Opt(tag)) && Means(rest, w[1..]) {
          KeysInOrder(rest, w[1..]);
        } else {
          KeysInOrder(rest, w);
        }
      case Many(item) =>
        if Means(rest, w) {
          KeysInOrder(rest, w);
        } else {
          KeysInOrder(sig, w[Width(item)..]);
          if item == Two {
            NoKeysInTwo(w);
          }
        }
    }
  }

  lemma NoKeysInTwo(w: Word)
    requires StartsWith(w, Two)
    ensures KeysOf(w) == KeysOf(w[2..])
  {
    assert w[1..][1..] == w[2..];
  }

  lemma {:induction false} LengthOfParts(w: Word)
    ensures Length(w) == |KeysOf(w)| + Length(ArgsOf(w))
  {
    if w == [] {
    } else {
      LengthOfParts(w[1..]);
      if w[0].Key? {
        assert ArgsOf(w) == ArgsOf(w[1..]);
      } else {
        assert ([w[0]] + ArgsOf(w[1..]))[1..] == ArgsOf(w[1..]);
        assert KeysOf(w) == KeysOf(w[1..]);
      }
    }
  }

  lemma {:induction false} LengthAppend(a: Word, b: Word)
    ensures Length(a + b) == Length(a) + Length(b)
  {
    if a == [] {
      assert a + b == b;
    } else {
      LengthAppend(a[1..], b);
      assert (a + b)[1..] == a[1..] + b && (a + b)[0] == a[0];
    }
  }

  lemma {:induction false} LengthOfRow(row: seq<string>)
    ensures Length(Row(row)) == |row|
  {
    if row == [] {
    } else {
      LengthOfRow(row[1..]);
      assert Row(row)[1..] == Row(row[1..]);
    }
  }

  lemma {:induction false} LengthOfRows(rows: seq<seq<string>>, width: nat)
    requires forall j :: 0 <= j < |rows| ==> |rows[j]| == width
    ensures Length(Rows(rows)) == |rows| * width
  {
    if rows == [] {
    } else {
      LengthOfRow(rows[0]);
      LengthOfRows(rows[1..], width);
      LengthAppend(Row(rows[0]), Rows(rows[1..]));
    }
  }

  lemma {:induction false} LengthOfAtoms(args: seq<Actual>)
    requires WellFormed(args)
    ensures Length(Atoms(args)) == ArgSizes(args)
  {
    if args == [] {
    } else {
      InTail(args);
      LengthOfAtoms(args[1..]);
      LengthAppend(AtomsOf(args[0]), Atoms(args[1..]));
      if args[0].Pack? {
        LengthOfRows(args[0].rows, args[0].width);
      }
    }
  }

  lemma {:induction false} LengthOfSpelling(keywords: seq<string>, w: Word)
    requires Spellable(keywords, w)
    ensures |SpellAll(keywords, w)| == Length(w)
  {
    if w == [] {
    } else {
      LengthOfSpelling(keywords, w[1..]);
    }
  }

  lemma {:induction false} KeysCounted(sig: Sig)
    ensures |Keys(sig)| == KwCount(sig)
  {
    if sig == [] {
    } else {
      KeysCounted(sig[1..]);
    }
  }

  /** The static_assert on kw<I>: the command names enough keywords. */
  predicate Covered(sig: Sig, keywords: seq<string>) {
    forall k :: 0 <= k < |sig| && sig[k].Kw? ==> sig[k].idx < |keywords|
  }

  lemma {:induction false} CoveredIsSpellable(sig: Sig, keywords: seq<string>, w: Word)
    requires Covered(sig, keywords) && Means(sig, w)
    ensures Spellable(keywords, w)
  {
    KeysInOrder(sig, w);
    KeysFromSig(sig, keywords);
    KeysAmong(keywords, w);
  }

  lemma {:induction false} KeysFromSig(sig: Sig, keywords: seq<string>)
    requires Covered(sig, keywords)
    ensures Spellable(keywords, Keys(sig))
  {
    if sig == [] {
    } else {
      KeysFromSig(sig[1..], keywords);
    }
  }

  lemma {:induction false} KeysAmong(keywords: seq<string>, w: Word)
    requires Spellable(keywords, KeysOf(w))
    ensures Spellable(keywords, w)
  {
    if w == [] {
    } else {
      if w[0].Key? {
        assert KeysOf(w)[0] == w[0];
        assert forall k :: 0 <= k < |KeysOf(w[1..])| ==> KeysOf(w)[k + 1] == KeysOf(w[1..])[k];
      } else {
        assert KeysOf(w) == KeysOf(w[1..]);
      }
      KeysAmong(keywords, w[1..]);
    }
  }

  /** The count written into the array header before anything is encoded is the
      number of bulk strings that follow, whenever encoding completes. */
  lemma HeaderAgrees(o: Overloads, sig: Sig, args: seq<Actual>, keywords: seq<string>)
    requires WellFormed(args) && Covered(sig, keywords) && Encode(o, sig, args).Ok?
    ensures var w := Encode(o, sig, args).word;
            Spellable(keywords, w) && |SpellAll(keywords, w)| == ArgSizes(args) + KwCount(sig)
  {
    var w := Encode(o, sig, args).word;
    Sound(o, sig, args);
    CoveredIsSpellable(sig, keywords, w);
    LengthOfSpelling(keywords, w);
    LengthOfParts(w);
    LengthOfAtoms(args);
    KeysInOrder(sig, w);
    KeysCounted(sig);
  }
}
