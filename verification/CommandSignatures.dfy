// The signatures that the commands of include/red1z/commands are declared with.
module CommandSignatures {
  import opened Signature
  import opened Regularity
  import opened Packs

  const SCAN: Sig := [Arg, Flag(Match, true), Flag(Count, true), Flag(OfType, true)]
  const RESTORE: Sig := [Arg, Arg, Arg, Flag(Replace, true), Flag(AbsTtl, true),
                         Flag(IdleTime, true), Flag(Freq, true)]
  const SORT: Sig := [Arg, Flag(By, true), Flag(Limit, true), Many(Opt(Get)), Flag(Order, true),
                      Flag(Alpha, true), Flag(Store, true)]
  const BITFIELD: Sig := [Arg, Flag(GetBf, true), Flag(SetBf, true), Flag(IncrBy, true),
                          Flag(Overflow, true)]
  const MSET: Sig := [Pair, Many(Two)]
  const SET: Sig := [Pair, Flag(ExPx, true), Flag(NxXx, true)]
  const BLPOP: Sig := [Arg, Many(One), Arg]
  const HSET: Sig := [Arg, Pair, Many(Two)]
  const ZADD: Sig := [Arg, Flag(NxXx, true), Flag(Ch, true), Flag(Incr, true), Pair, Many(Two)]
  const ZINTERSTORE: Sig := [Arg, Arg, Arg, Many(One), Flag(Weights, true), Flag(Aggregate, true)]
  const XADD: Sig := [Arg, Flag(NoMkStream, true), Flag(MaxLenOrMinId, true), Arg, Pair, Many(Two)]
  const XAUTOCLAIM: Sig := [Arg, Arg, Arg, Arg, Arg, Many(One), Flag(Count, true),
                            Flag(JustId, true)]
  const XCLAIM: Sig := [Arg, Arg, Arg, Arg, Arg, Many(One), Flag(Idle, true), Flag(Time, true),
                        Flag(RetryCount, true), Flag(Force, true), Flag(JustId, true)]
  const XREAD: Sig := [Flag(Count, true), Flag(Block, true), Kw(0), Many(One)]
  const XREADGROUP: Sig := [Kw(0), Arg, Arg, Flag(Count, true), Flag(Block, true),
                            Flag(NoAck, true), Kw(1), Many(One)]

  predicate Tagged(p: Param, tag: Tag) {
    (p.Flag? && p.tag == tag) || (p.Many? && p.item == Opt(tag))
  }

  predicate FlagOrKey(p: Param) {
    p.Kw? || p.Flag? || (p.Many? && p.item.Opt?)
  }

  /** The same as Regular, parameter by parameter. */
  predicate RegularAt(sig: Sig, k: nat)
    requires k < |sig|
  {
    match sig[k]
    case Flag(tag, true) => forall j :: k < j < |sig| ==> !Tagged(sig[j], tag)
    case Many(Opt(tag)) => forall j :: k < j < |sig| ==> !Tagged(sig[j], tag)
    case Many(_) =>
      || (k + 2 == |sig| && (sig[k + 1] == Arg || sig[k + 1] == Pair))
      || forall j :: k < j < |sig| ==> FlagOrKey(sig[j])
    case _ => true
  }

  lemma {:induction false} TagsAre(sig: Sig, tag: Tag)
    ensures tag in Tags(sig) <==> exists k :: 0 <= k < |sig| && Tagged(sig[k], tag)
  {
    if sig == [] {
    } else {
      TagsAre(sig[1..], tag);
      if tag in Tags(sig[1..]) {
        var k :| 0 <= k < |sig[1..]| && Tagged(sig[1..][k], tag);
        assert Tagged(sig[k + 1], tag);
      }
      if k :| 0 < k < |sig| && Tagged(sig[k], tag) {
        assert Tagged(sig[1..][k - 1], tag);
      }
    }
  }

  lemma {:induction false} RegularByParameter(sig: Sig)
    requires forall k :: 0 <= k < |sig| ==> RegularAt(sig, k)
    ensures Regular(sig)
  {
    if sig == [] {
    } else {
      var rest := sig[1..];
      forall k | 0 <= k < |rest| ensures RegularAt(rest, k) {
        assert RegularAt(sig, k + 1) && rest[k] == sig[k + 1];
      }
      RegularByParameter(rest);
      assert RegularAt(sig, 0);
      match sig[0]
      case Flag(tag, true) => TagsAre(rest, tag);
      case Many(Opt(tag)) => TagsAre(rest, tag);
      case _ =>
    }
  }

  lemma KeySignatures()
    ensures Regular(SCAN) && Regular(RESTORE)
  {
    RegularByParameter(SCAN);
    RegularByParameter(RESTORE);
  }

  lemma SortSignature()
    ensures Regular(SORT)
  {
    RegularByParameter(SORT);
  }

  lemma StringSignatures()
    ensures Regular(BITFIELD) && Regular(MSET) && Regular(SET)
  {
    RegularByParameter(BITFIELD);
    RegularByParameter(MSET);
    RegularByParameter(SET);
  }

  lemma ListAndHashSignatures()
    ensures Regular(BLPOP) && Regular(HSET)
  {
    RegularByParameter(BLPOP);
    RegularByParameter(HSET);
  }

  lemma SortedSetSignatures()
    ensures Regular(ZADD) && Regular(ZINTERSTORE)
  {
    RegularByParameter(ZADD);
    RegularByParameter(ZINTERSTORE);
  }

  lemma StreamSignatures()
    ensures Regular(XADD) && Regular(XREAD) && Regular(XREADGROUP)
  {
    RegularByParameter(XADD);
    RegularByParameter(XREAD);
    RegularByParameter(XREADGROUP);
  }

  lemma AutoClaimSignature()
    ensures Regular(XAUTOCLAIM)
  {
    RegularByParameter(XAUTOCLAIM);
  }

  lemma ClaimSignature()
    ensures Regular(XCLAIM)
  {
    RegularByParameter(XCLAIM);
  }

  /** Every signature that a command is declared with is regular, so which word
      the overloads choose is settled for all of them. */
  lemma SignaturesInUseAreRegular()
    ensures Regular(SCAN) && Regular(RESTORE) && Regular(SORT) && Regular(BITFIELD) && Regular(MSET)
    ensures Regular(SET) && Regular(BLPOP) && Regular(HSET) && Regular(ZADD) && Regular(ZINTERSTORE)
    ensures Regular(XADD) && Regular(XAUTOCLAIM) && Regular(XCLAIM) && Regular(XREAD) && Regular(XREADGROUP)
  {
    KeySignatures();
    SortSignature();
    StringSignatures();
    ListAndHashSignatures();
    SortedSetSignatures();
    StreamSignatures();
    AutoClaimSignature();
    ClaimSignature();
  }

  // ------------------------------------------------- as written and as meant

  predicate LastOrBeforeLast(sig: Sig, k: nat)
    requires k < |sig|
  {
    k + 1 == |sig| || (k + 2 == |sig| && (sig[k + 1] == Arg || sig[k + 1] == Pair))
  }

  lemma {:induction false} TightByParameter(sig: Sig)
    requires forall k :: 0 <= k < |sig| && sig[k].Many? ==> !sig[k].item.Opt? && LastOrBeforeLast(sig, k)
    ensures Tight(sig)
  {
    if sig == [] {
    } else {
      var rest := sig[1..];
      forall k | 0 <= k < |rest| && rest[k].Many? ensures !rest[k].item.Opt? && LastOrBeforeLast(rest, k) {
        assert rest[k] == sig[k + 1] && LastOrBeforeLast(sig, k + 1);
      }
      TightByParameter(rest);
      if sig[0].Many? {
        assert LastOrBeforeLast(sig, 0);
      }
    }
  }

  lemma {:induction false} LooseAtParameter(sig: Sig, k: nat)
    requires k < |sig| && sig[k].Many? && !sig[k].item.Opt? && !LastOrBeforeLast(sig, k)
    ensures Loose(sig)
  {
    var rest := sig[1..];
    if k == 0 {
      assert |rest| == 1 ==> rest == [sig[1]];
    } else {
      assert rest[k - 1] == sig[k] && (k + 1 < |sig| ==> rest[k] == sig[k + 1]);
      LooseAtParameter(sig[1..], k - 1);
    }
  }

  /** Eleven of the signatures do as written what they are meant to do, with
      every call. */
  lemma WrittenAsMeant(args: seq<Actual>)
    ensures forall sig :: sig in {SCAN, RESTORE, BITFIELD, MSET, SET, BLPOP, HSET, ZADD, XADD, XREAD, XREADGROUP} ==>
              Encode(AsWritten, sig, args) == Encode(AsMeant, sig, args)
  {
    forall sig | sig in {SCAN, RESTORE, BITFIELD, MSET, SET, BLPOP, HSET, ZADD, XADD, XREAD, XREADGROUP}
      ensures Encode(AsWritten, sig, args) == Encode(AsMeant, sig, args)
    {
      TightByParameter(sig);
      TightAgrees(sig, args);
    }
  }

  /** ZINTERSTORE, XAUTOCLAIM and XCLAIM cannot be called at all. */
  lemma NeverEncoded(args: seq<Actual>)
    ensures !Encode(AsWritten, ZINTERSTORE, args).Ok?
    ensures !Encode(AsWritten, XAUTOCLAIM, args).Ok?
    ensures !Encode(AsWritten, XCLAIM, args).Ok?
  {
    LooseAtParameter(ZINTERSTORE, 3);
    LooseNeverEncodes(ZINTERSTORE, args);
    LooseAtParameter(XAUTOCLAIM, 5);
    LooseNeverEncodes(XAUTOCLAIM, args);
    LooseAtParameter(XCLAIM, 5);
    LooseNeverEncodes(XCLAIM, args);
  }

  /** SORT can be called exactly with a flag that stands behind GET. */
  lemma SortNeedsTrailingFlag(args: seq<Actual>)
    requires Inline(args)
    ensures var written, meant := Encode(AsWritten, SORT, args), Encode(AsMeant, SORT, args);
            && (written.Ok? <==> meant.Ok? && exists k :: 0 <= k < |args| && args[k].FlagArg?
                                                          && args[k].tag in {Order, Alpha, Store})
            && (written.Ok? ==> written == meant)
  {
    SortSignature();
    SortShape();
    AgreesWithFlagBehind(SORT, {Order, Alpha, Store}, args);
  }

  lemma SortShape()
    ensures FlagsBehindMany(SORT, {Order, Alpha, Store})
  {
    var tags := {Order, Alpha, Store};
    var flags := [Flag(Order, true), Flag(Alpha, true), Flag(Store, true)];
    assert flags[1..] == [Flag(Alpha, true), Flag(Store, true)] && flags[1..][1..] == [Flag(Store, true)];
    assert Tags(flags) == tags;
    var s3 := [Many(Opt(Get))] + flags;
    assert s3[1..] == flags && FlagsBehindMany(s3, tags);
    var s2 := [Flag(Limit, true)] + s3;
    assert s2[1..] == s3 && FlagsBehindMany(s2, tags);
    var s1 := [Flag(By, true)] + s2;
    assert s1[1..] == s2 && FlagsBehindMany(s1, tags);
    assert SORT[1..] == s1;
  }

  /** A call that the overloads as written refuse: SORT with nothing but a key. */
  lemma SortOfAKey(key: string)
    ensures Encode(AsWritten, SORT, [Value(key)]) == Missing
    ensures Encode(AsMeant, SORT, [Value(key)]) == Ok([Val(key)])
  {
    var none: seq<Actual> := [];
    assert [Value(key)][1..] == none;
    AllOptional(SORT[1..]);
    var gets := SORT[1..][1..][1..];
    assert gets[0] == Many(Opt(Get)) && gets[1..] != [];
    assert Encode(AsWritten, gets, none) == Missing;
    assert Encode(AsWritten, SORT[1..][1..], none) == Missing;
    assert Encode(AsWritten, SORT[1..], none) == Missing;
    assert Encode(AsWritten, SORT, [Value(key)]) == Cons([Val(key)], Missing);
    assert Encode(AsMeant, SORT, [Value(key)]) == Cons([Val(key)], Ok([]));
    assert [Val(key)] + [] == [Val(key)];
  }

  lemma {:induction false} AllOptional(sig: Sig)
    requires forall k :: 0 <= k < |sig| ==> sig[k].Many? || (sig[k].Flag? && sig[k].optional)
    ensures Encode(AsMeant, sig, []) == Ok([])
  {
    if sig == [] {
    } else {
      AllOptional(sig[1..]);
    }
  }

  // ------------------------------------------------------------- with packs

  predicate OnlyValues(args: seq<Actual>) {
    forall k :: 0 <= k < |args| ==> !args[k].FlagArg?
  }

  predicate ValuesOnly(w: Word) {
    forall k :: 0 <= k < |w| ==> w[k].Val?
  }

  lemma {:induction false} AtomsAreValues(args: seq<Actual>)
    requires OnlyValues(args)
    ensures ValuesOnly(Atoms(args)) && ArgsOf(Atoms(args)) == Atoms(args)
  {
    if args == [] {
    } else {
      AtomsAreValues(args[1..]);
      if args[0].Pack? {
        ValuesInRows(args[0].rows);
        ArgsOfRows(args[0].rows);
      }
      ArgsOfAppend(AtomsOf(args[0]), Atoms(args[1..]));
    }
  }

  lemma {:induction false} ManyThenArg(w: Word)
    requires ValuesOnly(w)
    ensures Means([Many(One), Arg], w) <==> |w| >= 1
    decreases |w|
  {
    var sig := [Many(One), Arg];
    assert sig[1..] == [Arg] && [Arg][1..] == [];
    if w == [] {
    } else {
      ManyThenArg(w[1..]);
      assert Means([Arg], w) <==> w[1..] == [];
    }
  }

  lemma {:induction false} ManyPairs(w: Word)
    requires ValuesOnly(w)
    ensures Means([Many(Two)], w) <==> |w| % 2 == 0
    decreases |w|
  {
    var sig := [Many(Two)];
    assert sig[1..] == [];
    if |w| < 2 {
    } else {
      ManyPairs(w[2..]);
    }
  }

  lemma {:induction false} AllAreArgs(w: Word)
    requires KeysOf(w) == []
    ensures ArgsOf(w) == w
  {
    if w == [] {
    } else {
      AllAreArgs(w[1..]);
    }
  }

  lemma {:induction false} NoKeywords(sig: Sig)
    requires forall k :: 0 <= k < |sig| ==> !sig[k].Kw?
    ensures Keys(sig) == []
  {
    if sig == [] {
    } else {
      NoKeywords(sig[1..]);
    }
  }

  /** Values, singly or in packs, for a signature that is encoded as meant. */
  lemma ValuesInPacks(sig: Sig, args: seq<Actual>)
    requires Tight(sig) && Regular(sig) && Packable(sig) && Filled(args) && OnlyValues(args)
    requires forall k :: 0 <= k < |sig| ==> !sig[k].Kw?
    ensures var c, all := Encode(AsWritten, sig, args), Atoms(args);
            && (c.Ok? <==> Means(sig, all) && Placed(Room(sig, args), args) && !PackAtEnd(sig, args))
            && (c.Ok? ==> c.word == all)
  {
    var plain, all := WrittenOut(args), Atoms(args);
    PacksFitExactly(AsWritten, sig, args);
    AtomsWrittenOut(args);
    AtomsAreValues(args);
    TightAgrees(sig, plain);
    ChoosesTheWord(AsMeant, sig, plain, all);
    var c := Encode(AsMeant, sig, plain);
    if c.Ok? {
      Sound(AsMeant, sig, plain);
      KeysInOrder(sig, c.word);
      NoKeywords(sig);
      AllAreArgs(c.word);
    }
  }

  /** BLPOP with keys singly or in ranges, in any mixture, and the timeout: all
      are sent in order unless the last argument, the timeout, is a range. */
  lemma BlPopWithPacks(args: seq<Actual>)
    requires Filled(args) && OnlyValues(args)
    requires forall k :: 0 <= k < |args| && args[k].Pack? ==> args[k].width == 1
    ensures var c := Encode(AsWritten, BLPOP, args);
            && (c.Ok? <==> |Atoms(args)| >= 2 && !args[|args| - 1].Pack?)
            && (c.Ok? ==> c.word == Atoms(args))
  {
    var all := Atoms(args);
    ListAndHashSignatures();
    TightByParameter(BLPOP);
    NoPairsPackable(BLPOP);
    AtomsAreValues(args);
    SinglesArePlaced(|all|, args);
    ValuesInPacks(BLPOP, args);
    BlPopWords(all);
  }

  lemma BlPopWords(w: Word)
    requires ValuesOnly(w)
    ensures Means(BLPOP, w) <==> |w| >= 2
  {
    assert BLPOP[1..] == [Many(One), Arg];
    if w != [] {
      ManyThenArg(w[1..]);
    }
  }

  /** HSET with a key and fields singly or in ranges of pairs, in any mixture:
      they are sent in order if there are any and no pair is torn apart. */
  lemma HSetWithPacks(args: seq<Actual>)
    requires Filled(args) && OnlyValues(args)
    ensures var c := Encode(AsWritten, HSET, args);
            && (c.Ok? <==> |Atoms(args)| >= 3 && |Atoms(args)| % 2 == 1 && Placed(1, args))
            && (c.Ok? ==> c.word == Atoms(args))
  {
    var all := Atoms(args);
    ListAndHashSignatures();
    TightByParameter(HSET);
    HSetShape(args);
    AtomsAreValues(args);
    ValuesInPacks(HSET, args);
    HSetWords(all);
  }

  lemma HSetWords(w: Word)
    requires ValuesOnly(w)
    ensures Means(HSET, w) <==> |w| >= 3 && |w| % 2 == 1
  {
    var pairs := [Pair, Many(Two)];
    assert HSET[1..] == pairs && pairs[1..] == [Many(Two)];
    if |w| >= 3 {
      ManyPairs(w[1..][2..]);
      assert Means(pairs, w[1..]) <==> Means([Many(Two)], w[1..][2..]);
    }
  }

  lemma HSetShape(args: seq<Actual>)
    ensures Packable(HSET) && Room(HSET, args) == 1
  {
    assert TakesPair(HSET[1]);
    assert HSET[1..] == [Pair, Many(Two)] && HSET[1..][1..] == [Many(Two)] && [Many(Two)][1..] == [];
    assert NoOnes([Many(Two)]);
    NoSingles([Pair, Many(Two)]);
  }

  /** The calls these overloads are for: a range of keys and a timeout, a key
      and a range of fields. */
  lemma RangeOfKeys(keys: seq<seq<string>>, timeout: string)
    requires keys != [] && forall j :: 0 <= j < |keys| ==> |keys[j]| == 1
    ensures Encode(AsWritten, BLPOP, [Pack(1, keys), Value(timeout)]) == Ok(Rows(keys) + [Val(timeout)])
  {
    var args := [Pack(1, keys), Value(timeout)];
    assert args[1..] == [Value(timeout)];
    assert Atoms([Value(timeout)]) == [Val(timeout)] + [];
    assert Atoms(args) == Rows(keys) + Atoms([Value(timeout)]);
    RowsOfOne(keys);
    BlPopWithPacks(args);
  }

  lemma RangeOfFields(key: string, fields: seq<seq<string>>)
    requires fields != [] && forall j :: 0 <= j < |fields| ==> |fields[j]| == 2
    ensures Encode(AsWritten, HSET, [Value(key), Pack(2, fields)]) == Ok([Val(key)] + Rows(fields))
  {
    var args := [Value(key), Pack(2, fields)];
    assert args[1..] == [Pack(2, fields)];
    assert Atoms([Pack(2, fields)]) == Rows(fields) + [];
    assert Atoms(args) == [Val(key)] + Atoms([Pack(2, fields)]);
    assert Placed(0, [Pack(2, fields)]);
    RowsOfTwo(fields);
    HSetWithPacks(args);
  }

  lemma {:induction false} RowsOfTwo(rows: seq<seq<string>>)
    requires forall j :: 0 <= j < |rows| ==> |rows[j]| == 2
    ensures |Rows(rows)| == 2 * |rows|
  {
    if rows == [] {
    } else {
      RowsOfTwo(rows[1..]);
    }
  }
}
