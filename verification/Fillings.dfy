// What the commands of include/red1z/commands send: the strings of the request
// for every way to fill in a signature, and those of some of the commands.
module Fillings {
  import opened Decimal
  import opened Server
  import opened Signature
  import opened Regularity
  import opened CommandSignatures
  import opened Encoder

  /** A parameter together with what a caller gives for it. */
  datatype Filling =
    | ForKw(idx: nat)
    | ForArg(value: string)
    | ForPair(fst: string, snd: string)
    | ForFlag(tag: Tag, words: seq<string>)
    | ForOption(tag: Tag, flag: Option<seq<string>>)
    | ForArgs(values: seq<string>)
    | ForPairs(pairs: seq<(string, string)>)
    | ForFlags(tag: Tag, flags: seq<seq<string>>)

  function ParamOf(f: Filling): Param {
    match f
    case ForKw(idx) => Kw(idx)
    case ForArg(_) => Arg
    case ForPair(_, _) => Pair
    case ForFlag(tag, _) => Flag(tag, false)
    case ForOption(tag, _) => Flag(tag, true)
    case ForArgs(_) => Many(One)
    case ForPairs(_) => Many(Two)
    case ForFlags(tag, _) => Many(Opt(tag))
  }

  function SigOf(fs: seq<Filling>): Sig {
    if fs == [] then [] else [ParamOf(fs[0])] + SigOf(fs[1..])
  }

  function Listed(pairs: seq<(string, string)>): seq<string> {
    if pairs == [] then [] else [pairs[0].0, pairs[0].1] + Listed(pairs[1..])
  }

  function ValueArgs(values: seq<string>): seq<Actual> {
    if values == [] then [] else [Value(values[0])] + ValueArgs(values[1..])
  }

  function FlagArgs(tag: Tag, flags: seq<seq<string>>): seq<Actual> {
    if flags == [] then [] else [FlagArg(tag, flags[0])] + FlagArgs(tag, flags[1..])
  }

  function OptionArg(tag: Tag, flag: Option<seq<string>>): seq<Actual> {
    if flag.Some? then [FlagArg(tag, flag.value)] else []
  }

  /** The arguments of the call. */
  function Given(f: Filling): seq<Actual> {
    match f
    case ForKw(_) => []
    case ForArg(value) => [Value(value)]
    case ForPair(fst, snd) => [Value(fst), Value(snd)]
    case ForFlag(tag, words) => [FlagArg(tag, words)]
    case ForOption(tag, flag) => OptionArg(tag, flag)
    case ForArgs(values) => ValueArgs(values)
    case ForPairs(pairs) => ValueArgs(Listed(pairs))
    case ForFlags(tag, flags) => FlagArgs(tag, flags)
  }

  function GivenAll(fs: seq<Filling>): seq<Actual> {
    if fs == [] then [] else Given(fs[0]) + GivenAll(fs[1..])
  }

  function Words(flag: Option<seq<string>>): seq<string> {
    if flag.Some? then flag.value else []
  }

  /** The strings that are to be sent. */
  function Sent(keywords: seq<string>, f: Filling): seq<string>
    requires f.ForKw? ==> f.idx < |keywords|
  {
    match f
    case ForKw(idx) => [keywords[idx]]
    case ForArg(value) => [value]
    case ForPair(fst, snd) => [fst, snd]
    case ForFlag(_, words) => words
    case ForOption(_, flag) => Words(flag)
    case ForArgs(values) => values
    case ForPairs(pairs) => Listed(pairs)
    case ForFlags(_, flags) => Flat(flags)
  }

  predicate Named(keywords: seq<string>, fs: seq<Filling>) {
    forall k :: 0 <= k < |fs| && fs[k].ForKw? ==> fs[k].idx < |keywords|
  }

  function SentAll(keywords: seq<string>, fs: seq<Filling>): seq<string>
    requires Named(keywords, fs)
  {
    if fs == [] then [] else Sent(keywords, fs[0]) + SentAll(keywords, fs[1..])
  }

  // ---------------------------------------------------- the word of a filling

  function Marks(tag: Tag, flags: seq<seq<string>>): Word {
    if flags == [] then [] else [Mark(tag, flags[0])] + Marks(tag, flags[1..])
  }

  function WordOf(f: Filling): Word {
    match f
    case ForKw(idx) => [Key(idx)]
    case ForArg(value) => [Val(value)]
    case ForPair(fst, snd) => [Val(fst), Val(snd)]
    case ForFlag(tag, words) => [Mark(tag, words)]
    case ForOption(tag, flag) => if flag.Some? then [Mark(tag, flag.value)] else []
    case ForArgs(values) => Row(values)
    case ForPairs(pairs) => Row(Listed(pairs))
    case ForFlags(tag, flags) => Marks(tag, flags)
  }

  function WordOfAll(fs: seq<Filling>): Word {
    if fs == [] then [] else WordOf(fs[0]) + WordOfAll(fs[1..])
  }

  lemma {:induction false} ManyOnes(rest: Sig, values: seq<string>, w: Word)
    requires Means(rest, w)
    ensures Means([Many(One)] + rest, Row(values) + w)
  {
    var sig, all := [Many(One)] + rest, Row(values) + w;
    assert sig[1..] == rest;
    if values == [] {
      assert all == w;
    } else {
      ManyOnes(rest, values[1..], w);
      assert all[1..] == Row(values[1..]) + w;
    }
  }

  lemma {:induction false} ManyTwos(rest: Sig, pairs: seq<(string, string)>, w: Word)
    requires Means(rest, w)
    ensures Means([Many(Two)] + rest, Row(Listed(pairs)) + w)
  {
    var sig, all := [Many(Two)] + rest, Row(Listed(pairs)) + w;
    assert sig[1..] == rest;
    if pairs == [] {
      assert all == w;
    } else {
      ManyTwos(rest, pairs[1..], w);
      assert all[2..] == Row(Listed(pairs[1..])) + w;
    }
  }

  lemma {:induction false} ManyMarks(rest: Sig, tag: Tag, flags: seq<seq<string>>, w: Word)
    requires Means(rest, w)
    ensures Means([Many(Opt(tag))] + rest, Marks(tag, flags) + w)
  {
    var sig, all := [Many(Opt(tag))] + rest, Marks(tag, flags) + w;
    assert sig[1..] == rest;
    if flags == [] {
      assert all == w;
    } else {
      ManyMarks(rest, tag, flags[1..], w);
      assert all[1..] == Marks(tag, flags[1..]) + w;
    }
  }

  lemma FirstMeans(f: Filling, rest: Sig, w: Word)
    requires Means(rest, w)
    ensures Means([ParamOf(f)] + rest, WordOf(f) + w)
  {
    var sig, all := [ParamOf(f)] + rest, WordOf(f) + w;
    assert sig[1..] == rest;
    match f
    case ForArgs(values) => ManyOnes(rest, values, w);
    case ForPairs(pairs) => ManyTwos(rest, pairs, w);
    case ForFlags(tag, flags) => ManyMarks(rest, tag, flags, w);
    case ForPair(_, _) => assert all[2..] == w;
    case ForOption(_, flag) =>
      if flag.Some? {
        assert all[1..] == w;
      } else {
        assert all == w;
      }
    case _ => assert all[1..] == w;
  }

  lemma {:induction false} FillingMeans(fs: seq<Filling>)
    ensures Means(SigOf(fs), WordOfAll(fs))
  {
    if fs == [] {
    } else {
      FillingMeans(fs[1..]);
      FirstMeans(fs[0], SigOf(fs[1..]), WordOfAll(fs[1..]));
    }
  }

  // --------------------------------------------- its arguments and its strings

  lemma {:induction false} AtomsAppend(a: seq<Actual>, b: seq<Actual>)
    ensures Atoms(a + b) == Atoms(a) + Atoms(b)
  {
    hide AtomsOf;
    if a == [] {
      assert a + b == b;
    } else {
      AtomsAppend(a[1..], b);
      assert (a + b)[1..] == a[1..] + b && (a + b)[0] == a[0];
      Regroup(AtomsOf(a[0]), Atoms(a[1..]), Atoms(b));
    }
  }

  lemma {:induction false} AtomsOfValueArgs(values: seq<string>)
    ensures Inline(ValueArgs(values)) && Atoms(ValueArgs(values)) == Row(values)
  {
    if values == [] {
    } else {
      AtomsOfValueArgs(values[1..]);
      assert Row(values) == [Val(values[0])] + Row(values[1..]);
    }
  }

  lemma {:induction false} AtomsOfFlagArgs(tag: Tag, flags: seq<seq<string>>)
    ensures Inline(FlagArgs(tag, flags))
    ensures Atoms(FlagArgs(tag, flags)) == Marks(tag, flags) == ArgsOf(Marks(tag, flags))
  {
    if flags == [] {
    } else {
      AtomsOfFlagArgs(tag, flags[1..]);
    }
  }

  lemma FirstGiven(f: Filling)
    ensures Inline(Given(f)) && Atoms(Given(f)) == ArgsOf(WordOf(f))
  {
    match f
    case ForPair(fst, snd) =>
      assert [Value(fst), Value(snd)][1..] == [Value(snd)];
      assert Atoms([Value(snd)]) == [Val(snd)] + [];
      Front2(fst, snd, []);
      assert [Val(fst), Val(snd)] + [] == [Val(fst), Val(snd)];
    case ForArgs(values) =>
      AtomsOfValueArgs(values);
      ArgsOfRow(values);
    case ForPairs(pairs) =>
      AtomsOfValueArgs(Listed(pairs));
      ArgsOfRow(Listed(pairs));
    case ForFlags(tag, flags) => AtomsOfFlagArgs(tag, flags);
    case _ =>
  }

  lemma {:induction false} FillingGiven(fs: seq<Filling>)
    ensures Inline(GivenAll(fs)) && Atoms(GivenAll(fs)) == ArgsOf(WordOfAll(fs))
  {
    if fs == [] {
    } else {
      FillingGiven(fs[1..]);
      FirstGiven(fs[0]);
      AtomsAppend(Given(fs[0]), GivenAll(fs[1..]));
      ArgsOfAppend(WordOf(fs[0]), WordOfAll(fs[1..]));
    }
  }

  lemma {:induction false} SpellMarks(keywords: seq<string>, tag: Tag, flags: seq<seq<string>>)
    ensures Spellable(keywords, Marks(tag, flags)) && SpellAll(keywords, Marks(tag, flags)) == Flat(flags)
  {
    if flags == [] {
    } else {
      SpellMarks(keywords, tag, flags[1..]);
    }
  }

  lemma FirstSpelled(keywords: seq<string>, f: Filling)
    requires f.ForKw? ==> f.idx < |keywords|
    ensures Spellable(keywords, WordOf(f)) && SpellAll(keywords, WordOf(f)) == Sent(keywords, f)
  {
    hide SpellAll, Row;
    match f
    case ForKw(idx) => SpelledOne(keywords, Key(idx));
    case ForArg(value) => SpelledOne(keywords, Val(value));
    case ForPair(fst, snd) => SpelledTwo(keywords, fst, snd);
    case ForFlag(tag, words) => SpelledOne(keywords, Mark(tag, words));
    case ForOption(tag, flag) =>
      if flag.Some? {
        SpelledOne(keywords, Mark(tag, flag.value));
      } else {
        SpellMarks(keywords, tag, []);
      }
    case ForArgs(values) => SpellRow(keywords, values);
    case ForPairs(pairs) => SpellRow(keywords, Listed(pairs));
    case ForFlags(tag, flags) => SpellMarks(keywords, tag, flags);
  }

  lemma {:induction false} FillingSpelled(keywords: seq<string>, fs: seq<Filling>)
    requires Named(keywords, fs)
    ensures Spellable(keywords, WordOfAll(fs)) && SpellAll(keywords, WordOfAll(fs)) == SentAll(keywords, fs)
    ensures Covered(SigOf(fs), keywords)
  {
    if fs == [] {
    } else {
      FillingSpelled(keywords, fs[1..]);
      FirstSpelled(keywords, fs[0]);
      SpellAppend(keywords, WordOf(fs[0]), WordOfAll(fs[1..]));
      var sig := SigOf(fs);
      forall k | 0 <= k < |sig| && sig[k].Kw? ensures sig[k].idx < |keywords| {
        if k > 0 {
          assert sig[k] == SigOf(fs[1..])[k - 1];
        }
      }
    }
  }

  /** However a regular signature is filled in, the overloads choose its word:
      as they are meant always, as written if it is tight. */
  lemma FillingChosen(o: Overloads, fs: seq<Filling>)
    requires Regular(SigOf(fs)) && (o.AsMeant? || Tight(SigOf(fs)))
    ensures Encode(o, SigOf(fs), GivenAll(fs)) == Ok(WordOfAll(fs))
  {
    FillingMeans(fs);
    FillingGiven(fs);
    Complete(AsMeant, SigOf(fs), GivenAll(fs), WordOfAll(fs));
    if o.AsWritten? {
      TightAgrees(SigOf(fs), GivenAll(fs));
    }
  }

  /** And what is sent are the strings of the filling, in the order of the
      signature: every keyword under its own number, every value, and the words
      of every flag. */
  method EncodeFilled(c: string, keywords: seq<string>, sig: Sig, args: seq<Actual>, ghost fs: seq<Filling>)
    returns (s: Status, cmd: string)
    requires Named(keywords, fs) && SigOf(fs) == sig && GivenAll(fs) == args
    requires Regular(sig) && Tight(sig)
    ensures s == Done && cmd == Wire([c] + SentAll(keywords, fs))
  {
    FillingSpelled(keywords, fs);
    FillingGiven(fs);
    FillingChosen(AsWritten, fs);
    s, cmd := EncodeCommand(c, keywords, sig, args);
  }

  // -------------------------------------------------------- single commands

  lemma Nothing(keywords: seq<string>) returns (fs: seq<Filling>)
    ensures Named(keywords, fs) && SigOf(fs) == [] && GivenAll(fs) == [] && SentAll(keywords, fs) == []
  {
    fs := [];
  }

  /** One more parameter behind the others. */
  lemma {:induction false} Then(keywords: seq<string>, fs: seq<Filling>, f: Filling) returns (all: seq<Filling>)
    requires Named(keywords, fs) && (f.ForKw? ==> f.idx < |keywords|)
    ensures all == fs + [f] && Named(keywords, all)
    ensures SigOf(all) == SigOf(fs) + [ParamOf(f)]
    ensures GivenAll(all) == GivenAll(fs) + Given(f)
    ensures SentAll(keywords, all) == SentAll(keywords, fs) + Sent(keywords, f)
  {
    hide Given, Sent, ParamOf;
    all := fs + [f];
    if fs == [] {
      assert all[1..] == [];
    } else {
      var rest := Then(keywords, fs[1..], f);
      assert all[0] == fs[0] && all[1..] == rest;
    }
  }

  lemma TightStreamSignatures()
    ensures Tight(XADD) && Tight(XREAD) && Tight(XREADGROUP)
  {
    TightByParameter(XADD);
    TightByParameter(XREAD);
    TightByParameter(XREADGROUP);
  }

  /** XREADGROUP: the options in the order of the command, and the ids behind the
      second keyword. */
  method XReadGroup(group: string, consumer: string, count: Option<seq<string>>, block: Option<seq<string>>,
                    noAck: Option<seq<string>>, ids: seq<string>) returns (s: Status, cmd: string)
    ensures s == Done
    ensures cmd == Wire(["XREADGROUP"] + (["GROUP", group, consumer] + Words(count) + Words(block) + Words(noAck)
                                          + ["STREAMS"] + ids))
  {
    var args := [Value(group), Value(consumer)] + OptionArg(Count, count) + OptionArg(Block, block)
      + OptionArg(NoAck, noAck) + ValueArgs(ids);
    StreamSignatures();
    TightStreamSignatures();
    ghost var fs := FillXReadGroup(group, consumer, count, block, noAck, ids);
    s, cmd := EncodeFilled("XREADGROUP", ["GROUP", "STREAMS"], XREADGROUP, args, fs);
  }

  lemma FillGroup(keywords: seq<string>, group: string, consumer: string) returns (fs: seq<Filling>)
    requires keywords != []
    ensures Named(keywords, fs) && SigOf(fs) == [Kw(0), Arg, Arg]
    ensures GivenAll(fs) == [Value(group), Value(consumer)]
    ensures SentAll(keywords, fs) == [keywords[0], group, consumer]
  {
    hide SigOf, GivenAll, SentAll, Named;
    fs := Nothing(keywords);
    fs := Then(keywords, fs, ForKw(0));
    fs := Then(keywords, fs, ForArg(group));
    fs := Then(keywords, fs, ForArg(consumer));
  }

  lemma FillXReadGroup(group: string, consumer: string, count: Option<seq<string>>, block: Option<seq<string>>,
                       noAck: Option<seq<string>>, ids: seq<string>) returns (fs: seq<Filling>)
    ensures SigOf(fs) == XREADGROUP
    ensures GivenAll(fs) == [Value(group), Value(consumer)] + OptionArg(Count, count) + OptionArg(Block, block)
                            + OptionArg(NoAck, noAck) + ValueArgs(ids)
    ensures Named(["GROUP", "STREAMS"], fs)
    ensures SentAll(["GROUP", "STREAMS"], fs) == ["GROUP", group, consumer] + Words(count) + Words(block)
                                                 + Words(noAck) + ["STREAMS"] + ids
  {
    hide SigOf, GivenAll, SentAll, Words, OptionArg, ValueArgs, Named;
    var kw := ["GROUP", "STREAMS"];
    fs := FillGroup(kw, group, consumer);
    fs := Then(kw, fs, ForOption(Count, count));
    fs := Then(kw, fs, ForOption(Block, block));
    fs := Then(kw, fs, ForOption(NoAck, noAck));
    fs := Then(kw, fs, ForKw(1));
    assert SigOf(fs) == [Kw(0), Arg, Arg, Flag(Count, true), Flag(Block, true), Flag(NoAck, true), Kw(1)];
    fs := Then(kw, fs, ForArgs(ids));
  }

  /** XREAD. */
  method XRead(count: Option<seq<string>>, block: Option<seq<string>>, ids: seq<string>)
    returns (s: Status, cmd: string)
    ensures s == Done && cmd == Wire(["XREAD"] + (Words(count) + Words(block) + ["STREAMS"] + ids))
  {
    var args := OptionArg(Count, count) + OptionArg(Block, block) + ValueArgs(ids);
    StreamSignatures();
    TightStreamSignatures();
    ghost var fs := FillXRead(count, block, ids);
    s, cmd := EncodeFilled("XREAD", ["STREAMS"], XREAD, args, fs);
  }

  lemma FillXRead(count: Option<seq<string>>, block: Option<seq<string>>, ids: seq<string>)
    returns (fs: seq<Filling>)
    ensures SigOf(fs) == XREAD && GivenAll(fs) == OptionArg(Count, count) + OptionArg(Block, block) + ValueArgs(ids)
    ensures Named(["STREAMS"], fs)
    ensures SentAll(["STREAMS"], fs) == Words(count) + Words(block) + ["STREAMS"] + ids
  {
    hide SigOf, GivenAll, SentAll, Words, OptionArg, ValueArgs, Named;
    var kw := ["STREAMS"];
    fs := Nothing(kw);
    fs := Then(kw, fs, ForOption(Count, count));
    fs := Then(kw, fs, ForOption(Block, block));
    fs := Then(kw, fs, ForKw(0));
    fs := Then(kw, fs, ForArgs(ids));
  }

  /** SET. */
  method Set(key: string, value: string, expiry: Option<seq<string>>, condition: Option<seq<string>>)
    returns (s: Status, cmd: string)
    ensures s == Done && cmd == Wire(["SET"] + ([key, value] + Words(expiry) + Words(condition)))
  {
    var args := [Value(key), Value(value)] + OptionArg(ExPx, expiry) + OptionArg(NxXx, condition);
    StringSignatures();
    TightPairSignatures();
    ghost var fs := FillSet(key, value, expiry, condition);
    s, cmd := EncodeFilled("SET", [], SET, args, fs);
  }

  lemma TightPairSignatures()
    ensures Tight(SET) && Tight(MSET) && Tight(ZADD)
  {
    TightByParameter(SET);
    TightByParameter(MSET);
    TightByParameter(ZADD);
  }

  lemma FillSet(key: string, value: string, expiry: Option<seq<string>>, condition: Option<seq<string>>)
    returns (fs: seq<Filling>)
    ensures SigOf(fs) == SET && Named([], fs)
    ensures GivenAll(fs) == [Value(key), Value(value)] + OptionArg(ExPx, expiry) + OptionArg(NxXx, condition)
    ensures SentAll([], fs) == [key, value] + Words(expiry) + Words(condition)
  {
    hide SigOf, GivenAll, SentAll, Words, OptionArg, Named;
    fs := Nothing([]);
    fs := Then([], fs, ForPair(key, value));
    fs := Then([], fs, ForOption(ExPx, expiry));
    fs := Then([], fs, ForOption(NxXx, condition));
  }

  /** MSET: the pairs, of which there has to be one. */
  method MSet(pairs: seq<(string, string)>) returns (s: Status, cmd: string)
    ensures s == if pairs == [] then MissingArguments else Done
    ensures s == Done ==> cmd == Wire(["MSET"] + Listed(pairs))
  {
    var args := ValueArgs(Listed(pairs));
    StringSignatures();
    TightPairSignatures();
    hide Encode, Listed, ValueArgs, SigOf, GivenAll, SentAll;
    if pairs == [] {
      MSetOfNothing();
      s, cmd := EncodeCommand("MSET", [], MSET, args);
    } else {
      ghost var fs := FillMSet(pairs);
      s, cmd := EncodeFilled("MSET", [], MSET, args, fs);
    }
  }

  lemma MSetOfNothing()
    ensures ValueArgs(Listed([])) == [] && Encode(AsWritten, MSET, []) == Missing
  {
  }

  lemma FillMSet(pairs: seq<(string, string)>) returns (fs: seq<Filling>)
    requires pairs != []
    ensures Named([], fs) && SigOf(fs) == MSET && GivenAll(fs) == ValueArgs(Listed(pairs))
    ensures SentAll([], fs) == Listed(pairs)
  {
    hide SigOf, GivenAll, SentAll, Named, Listed, ValueArgs;
    fs := Nothing([]);
    fs := FillPairs(fs, pairs);
  }

  /** The pairs behind other parameters. */
  lemma FillPairs(fs: seq<Filling>, pairs: seq<(string, string)>) returns (all: seq<Filling>)
    requires Named([], fs) && pairs != []
    ensures Named([], all) && SigOf(all) == SigOf(fs) + [Pair, Many(Two)]
    ensures GivenAll(all) == GivenAll(fs) + ValueArgs(Listed(pairs))
    ensures SentAll([], all) == SentAll([], fs) + Listed(pairs)
  {
    hide SigOf, GivenAll, SentAll, Named;
    ListedFirst(pairs);
    all := Then([], fs, ForPair(pairs[0].0, pairs[0].1));
    all := Then([], all, ForPairs(pairs[1..]));
  }

  lemma ListedFirst(pairs: seq<(string, string)>)
    requires pairs != []
    ensures var first, more := pairs[0], Listed(pairs[1..]);
            && Listed(pairs) == [first.0, first.1] + more
            && ValueArgs(Listed(pairs)) == [Value(first.0), Value(first.1)] + ValueArgs(more)
  {
    var first, more := pairs[0], Listed(pairs[1..]);
    assert ([first.0, first.1] + more)[1..] == [first.1] + more;
    assert ([first.1] + more)[1..] == more;
  }

  /** ZADD: the options in the order of the command, and one pair at least. */
  method ZAdd(key: string, condition: Option<seq<string>>, changed: Option<seq<string>>, incr: Option<seq<string>>,
              pairs: seq<(string, string)>) returns (s: Status, cmd: string)
    ensures s == if pairs == [] then MissingArguments else Done
    ensures s == Done ==>
              cmd == Wire(["ZADD"] + ([key] + Words(condition) + Words(changed) + Words(incr) + Listed(pairs)))
  {
    var args := [Value(key)] + OptionArg(NxXx, condition) + OptionArg(Ch, changed) + OptionArg(Incr, incr)
      + ValueArgs(Listed(pairs));
    SortedSetSignatures();
    TightPairSignatures();
    hide Encode, Listed, ValueArgs, OptionArg, Words, SigOf, GivenAll, SentAll;
    if pairs == [] {
      ZAddOfNothing(key, condition, changed, incr);
      OptionsInline(key, condition, changed, incr, args);
      s, cmd := EncodeCommand("ZADD", [], ZADD, args);
    } else {
      ghost var fs := FillZAdd(key, condition, changed, incr, pairs);
      s, cmd := EncodeFilled("ZADD", [], ZADD, args, fs);
    }
  }

  lemma FillZAdd(key: string, condition: Option<seq<string>>, changed: Option<seq<string>>,
                 incr: Option<seq<string>>, pairs: seq<(string, string)>) returns (fs: seq<Filling>)
    requires pairs != []
    ensures SigOf(fs) == ZADD && Named([], fs)
    ensures GivenAll(fs) == [Value(key)] + OptionArg(NxXx, condition) + OptionArg(Ch, changed)
                            + OptionArg(Incr, incr) + ValueArgs(Listed(pairs))
    ensures SentAll([], fs) == [key] + Words(condition) + Words(changed) + Words(incr) + Listed(pairs)
  {
    hide SigOf, GivenAll, SentAll, Words, OptionArg, ValueArgs, Named, Listed;
    fs := Nothing([]);
    fs := Then([], fs, ForArg(key));
    fs := Then([], fs, ForOption(NxXx, condition));
    fs := Then([], fs, ForOption(Ch, changed));
    fs := Then([], fs, ForOption(Incr, incr));
    fs := FillPairs(fs, pairs);
  }

  lemma OptionsInline(key: string, condition: Option<seq<string>>, changed: Option<seq<string>>,
                      incr: Option<seq<string>>, args: seq<Actual>)
    requires args == [Value(key)] + OptionArg(NxXx, condition) + OptionArg(Ch, changed) + OptionArg(Incr, incr)
                     + ValueArgs(Listed([]))
    ensures WellFormed(args)
  {
    assert Inline(OptionArg(NxXx, condition)) && Inline(OptionArg(Ch, changed)) && Inline(OptionArg(Incr, incr));
    assert Inline([Value(key)]) && Inline(ValueArgs(Listed([])));
  }

  /** A missing argument behind an optional flag. */
  lemma MissingBehind(tag: Tag, flag: Option<seq<string>>, sig: Sig, args: seq<Actual>)
    requires sig != [] && sig[0] != Many(Opt(tag)) && Encode(AsWritten, sig, args) == Missing
    requires args != [] ==> args[0].FlagArg? && args[0].tag != tag
    ensures Encode(AsWritten, [Flag(tag, true)] + sig, OptionArg(tag, flag) + args) == Missing
  {
    var given := OptionArg(tag, flag) + args;
    assert ([Flag(tag, true)] + sig)[1..] == sig;
    if flag.Some? {
      assert given[1..] == args;
    } else {
      assert given == args;
    }
  }

  lemma MissingBehindArg(value: string, sig: Sig, args: seq<Actual>)
    requires Encode(AsWritten, sig, args) == Missing
    ensures Encode(AsWritten, [Arg] + sig, [Value(value)] + args) == Missing
  {
    assert ([Arg] + sig)[1..] == sig && ([Value(value)] + args)[1..] == args;
  }

  lemma FirstOption(tag: Tag, flag: Option<seq<string>>, args: seq<Actual>, others: set<Tag>)
    requires args != [] ==> args[0].FlagArg? && args[0].tag in others
    ensures var all := OptionArg(tag, flag) + args;
            all != [] ==> all[0].FlagArg? && all[0].tag in others + {tag}
  {
  }

  lemma ZAddOfNothing(key: string, condition: Option<seq<string>>, changed: Option<seq<string>>,
                      incr: Option<seq<string>>)
    ensures Encode(AsWritten, ZADD, [Value(key)] + OptionArg(NxXx, condition) + OptionArg(Ch, changed)
                                    + OptionArg(Incr, incr) + ValueArgs(Listed([]))) == Missing
  {
    hide Encode, OptionArg;
    var pairs: Sig, none: seq<Actual> := [Pair, Many(Two)], [];
    MSetOfNothing();
    assert pairs == MSET;
    MissingBehind(Incr, incr, pairs, none);
    var behind := OptionArg(Incr, incr) + none;
    FirstOption(Incr, incr, none, {});
    MissingBehind(Ch, changed, [Flag(Incr, true)] + pairs, behind);
    var more := OptionArg(Ch, changed) + behind;
    FirstOption(Ch, changed, behind, {Incr});
    MissingBehind(NxXx, condition, [Flag(Ch, true)] + ([Flag(Incr, true)] + pairs), more);
    var given := OptionArg(NxXx, condition) + more;
    var rest := [Flag(NxXx, true)] + ([Flag(Ch, true)] + ([Flag(Incr, true)] + pairs));
    MissingBehindArg(key, rest, given);
    assert ZADD == [Arg] + rest;
    assert [Value(key)] + given == [Value(key)] + OptionArg(NxXx, condition) + OptionArg(Ch, changed)
                                   + OptionArg(Incr, incr) + ValueArgs(Listed([]));
  }
}
