// Signatures that can be read off greedily, and which word the encode overloads
// of include/red1z/signature.h choose for the arguments of a call.
module Regularity {
  import opened Signature

  function Tags(sig: Sig): set<Tag> {
    if sig == [] then {}
    else
      (match sig[0]
       case Flag(tag, _) => {tag}
       case Many(Opt(tag)) => {tag}
       case _ => {}) + Tags(sig[1..])
  }

  /** Only keywords and flags. */
  predicate Trailing(sig: Sig) {
    forall k :: 0 <= k < |sig| ==>
      sig[k].Kw? || sig[k].Flag? || (sig[k].Many? && sig[k].item.Opt?)
  }

  /** Signatures that can be read off greedily: no optional flag comes back
      later under the same tag, and many<> values are followed by at most one
      arg, by one pair, or by flags. */
  predicate Regular(sig: Sig) {
    sig == [] ||
    (&& Regular(sig[1..])
     && match sig[0]
        case Flag(tag, true) => tag !in Tags(sig[1..])
        case Many(Opt(tag)) => tag !in Tags(sig[1..])
        case Many(_) => sig[1..] == [Arg] || sig[1..] == [Pair] || Trailing(sig[1..])
        case _ => true)
  }

  predicate Inline(args: seq<Actual>) {
    forall k :: 0 <= k < |args| ==> !args[k].Pack?
  }

  /** many<> in front takes another item. */
  predicate Another(sig: Sig, w: Word)
    requires sig != [] && sig[0].Many?
  {
    StartsWith(w, sig[0].item) && Means(sig, w[Width(sig[0].item)..])
  }

  /** What the overloads as written ask of a word besides: every many<> with
      parameters behind it is still left with an argument for them, and many<>
      values have but one arg or one pair behind them. */
  predicate LeavesArguments(sig: Sig, w: Word)
    requires Means(sig, w)
    decreases |w|, |sig|
  {
    if sig == [] then true
    else
      var rest := sig[1..];
      match sig[0]
      case Arg => LeavesArguments(rest, w[1..])
      case Pair => LeavesArguments(rest, w[2..])
      case Kw(_) => LeavesArguments(rest, w[1..])
      case Flag(tag, _) =>
        if StartsWith(w, Opt(tag)) && Means(rest, w[1..]) then LeavesArguments(rest, w[1..])
        else LeavesArguments(rest, w)
      case Many(item) =>
        if Another(sig, w) then LeavesArguments(sig, w[Width(item)..])
        else
          || rest == []
          || (ArgsOf(w) != [] && (!item.Opt? ==> rest == [Arg] || rest == [Pair]) && LeavesArguments(rest, w))
  }

  // ------------------------------------------------------- words and tags

  predicate MarksIn(tags: set<Tag>, w: Word) {
    forall k :: 0 <= k < |w| && w[k].Mark? ==> w[k].tag in tags
  }

  lemma MarksBehind(fewer: set<Tag>, tags: set<Tag>, w: Word, n: nat)
    requires n <= |w| && fewer <= tags && MarksIn(fewer, w[n..])
    requires forall k :: 0 <= k < n && w[k].Mark? ==> w[k].tag in tags
    ensures MarksIn(tags, w)
  {
    forall k | n <= k < |w| && w[k].Mark? ensures w[k].tag in tags {
      assert w[k] == w[n..][k - n];
    }
  }

  /** The flags of a word carry tags of its signature. */
  lemma {:induction false} MarksAreTagged(sig: Sig, w: Word)
    requires Means(sig, w)
    ensures MarksIn(Tags(sig), w)
    decreases |w|, |sig|
  {
    if sig == [] {
    } else {
      var rest := sig[1..];
      match sig[0]
      case Arg =>
        MarksAreTagged(rest, w[1..]);
        MarksBehind(Tags(rest), Tags(sig), w, 1);
      case Pair =>
        MarksAreTagged(rest, w[2..]);
        MarksBehind(Tags(rest), Tags(sig), w, 2);
      case Kw(_) =>
        MarksAreTagged(rest, w[1..]);
        MarksBehind(Tags(rest), Tags(sig), w, 1);
      case Flag(tag, _) =>
        if StartsWith(w, Opt(tag)) && Means(rest, w[1..]) {
          MarksAreTagged(rest, w[1..]);
          MarksBehind(Tags(rest), Tags(sig), w, 1);
        } else {
          MarksAreTagged(rest, w);
        }
      case Many(item) =>
        if Another(sig, w) {
          MarksAreTagged(sig, w[Width(item)..]);
          MarksBehind(Tags(sig), Tags(sig), w, Width(item));
        } else {
          MarksAreTagged(rest, w);
        }
    }
  }

  lemma {:induction false} MarksOfArgs(tags: set<Tag>, w: Word)
    requires MarksIn(tags, w)
    ensures MarksIn(tags, ArgsOf(w))
  {
    if w == [] {
    } else {
      MarksOfArgs(tags, w[1..]);
      if w[0].Key? {
        assert ArgsOf(w) == ArgsOf(w[1..]);
      } else {
        assert ArgsOf(w)[1..] == ArgsOf(w[1..]);
        MarksBehind(tags, tags, ArgsOf(w), 1);
      }
    }
  }

  predicate NoValues(w: Word) {
    forall k :: 0 <= k < |w| ==> !w[k].Val?
  }

  /** Behind many<> values, keywords and flags hold nothing but flags. */
  lemma {:induction false} TrailingHasNoValues(sig: Sig, w: Word)
    requires Trailing(sig) && Means(sig, w)
    ensures NoValues(w)
    decreases |w|, |sig|
  {
    if sig == [] {
    } else {
      var rest := sig[1..];
      match sig[0]
      case Kw(_) =>
        TrailingHasNoValues(rest, w[1..]);
        NoValueInFront(w);
      case Flag(tag, _) =>
        if StartsWith(w, Opt(tag)) && Means(rest, w[1..]) {
          TrailingHasNoValues(rest, w[1..]);
          NoValueInFront(w);
        } else {
          TrailingHasNoValues(rest, w);
        }
      case Many(item) =>
        if Another(sig, w) {
          TrailingHasNoValues(sig, w[1..]);
          NoValueInFront(w);
        } else {
          TrailingHasNoValues(rest, w);
        }
    }
  }

  lemma NoValueInFront(w: Word)
    requires w != [] && !w[0].Val? && NoValues(w[1..])
    ensures NoValues(w)
  {
    forall k | 0 < k < |w| ensures !w[k].Val? {
      assert w[k] == w[1..][k - 1];
    }
  }

  lemma {:induction false} ArgsAreMarks(w: Word)
    requires NoValues(w)
    ensures forall k :: 0 <= k < |ArgsOf(w)| ==> ArgsOf(w)[k].Mark?
  {
    if w == [] {
    } else {
      ArgsAreMarks(w[1..]);
    }
  }

  function Need(p: Param): nat
    requires p.Arg? || p.Pair?
  {
    if p.Arg? then 1 else 2
  }

  lemma LastParam(p: Param, w: Word)
    requires p.Arg? || p.Pair?
    requires Means([p], w)
    ensures |ArgsOf(w)| == Need(p) && forall k :: 0 <= k < |ArgsOf(w)| ==> ArgsOf(w)[k].Val?
  {
    assert [p][1..] == [];
    if p.Pair? {
      assert w == [w[0], w[1]] && w[1..] == [w[1]] && w[1..][1..] == [];
      assert ArgsOf(w[1..]) == [w[1]];
      assert ArgsOf(w) == [w[0]] + [w[1]];
    } else {
      assert w == [w[0]] && w[1..] == [];
      assert ArgsOf(w) == [w[0]];
    }
  }

  lemma {:induction false} ManyThenLast(item: Item, p: Param, w: Word)
    requires p.Arg? || p.Pair?
    requires Means([Many(item), p], w)
    ensures |ArgsOf(w)| >= Need(p)
    ensures Another([Many(item), p], w) ==> |ArgsOf(w)| >= Need(p) + Width(item)
    decreases |w|
  {
    assert [Many(item), p][1..] == [p];
    if Another([Many(item), p], w) {
      ManyThenLast(item, p, w[Width(item)..]);
      TakenAtoms(item, w);
    } else {
      LastParam(p, w);
    }
  }

  /** The arguments that one item takes. */
  lemma TakenAtoms(item: Item, w: Word)
    requires StartsWith(w, item)
    ensures ArgsOf(w) == w[..Width(item)] + ArgsOf(w[Width(item)..])
  {
    if item == Two {
      assert w[1..][1..] == w[2..];
      assert w[..2] == [w[0], w[1]];
    } else {
      assert w[..1] == [w[0]];
    }
  }

  /** Just the arguments of the one parameter behind many<> are left. */
  predicate LastLeft(rest: Sig, n: nat) {
    (rest == [Arg] && n == 1) || (rest == [Pair] && n == 2)
  }

  /** Whether many<> takes another item: it does unless the arguments left are
      those of the parameters behind it. */
  lemma TakesAnother(sig: Sig, w: Word)
    requires Regular(sig) && Means(sig, w)
    requires sig != [] && sig[0].Many? && ArgsOf(w) != []
    ensures var rest, item, taken := sig[1..], sig[0].item, ArgsOf(w);
            && (Another(sig, w) ==> !LastLeft(rest, |taken|) && taken[0] == w[0])
            && (!Another(sig, w) && !LastLeft(rest, |taken|) ==>
                  && rest != [Arg] && rest != [Pair]
                  && (item.Opt? ==> !(taken[0].Mark? && taken[0].tag == item.tag))
                  && (!item.Opt? ==> forall k :: 0 <= k < |taken| ==> taken[k].Mark?))
            && (!Another(sig, w) && LastLeft(rest, |taken|) ==> taken[0].Val?)
  {
    var rest, item := sig[1..], sig[0].item;
    if rest == [Arg] || rest == [Pair] {
      assert sig == [Many(item), rest[0]];
      ManyThenLast(item, rest[0], w);
    }
    if Another(sig, w) {
      TakenAtoms(item, w);
    } else if rest == [Arg] || rest == [Pair] {
      LastParam(rest[0], w);
    } else if item.Opt? {
      MarksAreTagged(rest, w);
      MarksOfArgs(Tags(rest), w);
    } else {
      TrailingHasNoValues(rest, w);
      ArgsAreMarks(w);
    }
  }

  // ----------------------------------------------- arguments without packs

  lemma {:induction false} AtomsInline(args: seq<Actual>)
    requires Inline(args)
    ensures |Atoms(args)| == |args|
    ensures forall k :: 0 <= k < |args| ==> AtomsOf(args[k]) == [Atoms(args)[k]]
  {
    if args == [] {
    } else {
      AtomsInline(args[1..]);
      assert forall k :: 0 < k < |args| ==> Atoms(args)[k] == Atoms(args[1..])[k - 1];
    }
  }

  lemma DropOne(args: seq<Actual>, w: Word)
    requires args != [] ==> !args[0].Pack?
    requires ArgsOf(w) == Atoms(args) && w != [] && !w[0].Key?
    ensures args != [] && AtomsOf(args[0]) == [w[0]] && ArgsOf(w[1..]) == Atoms(args[1..])
  {
    var taken, left := ArgsOf(w), ArgsOf(w[1..]);
    assert taken == [w[0]] + left;
    assert taken[0] == w[0] && taken[1..] == left;
    if args != [] {
      var a := AtomsOf(args[0]);
      assert |a| == 1;
      assert Atoms(args)[0] == a[0] && Atoms(args)[1..] == Atoms(args[1..]);
    }
  }

  /** Taking the arguments of one item off both sides. */
  lemma DropAtoms(args: seq<Actual>, w: Word, item: Item)
    requires Inline(args) && ArgsOf(w) == Atoms(args) && StartsWith(w, item)
    ensures |args| >= Width(item) && Inline(args[Width(item)..])
    ensures ArgsOf(w[Width(item)..]) == Atoms(args[Width(item)..])
    ensures forall k :: 0 <= k < Width(item) ==> AtomsOf(args[k]) == [w[k]]
  {
    DropOne(args, w);
    if item == Two {
      DropOne(args[1..], w[1..]);
      assert args[1..][1..] == args[2..] && w[1..][1..] == w[2..];
    }
  }

  lemma SameToken(a: Actual, t: Token)
    requires !a.Pack? && AtomsOf(a) == [t]
    ensures match a
            case Value(bytes) => t == Val(bytes)
            case FlagArg(tag, words) => t == Mark(tag, words)
  {
    assert AtomsOf(a)[0] == t;
  }

  /** The arguments in front spell the front of the word. */
  predicate InFront(args: seq<Actual>, w: Word, n: nat) {
    && n <= |args| && n <= |w|
    && forall k :: 0 <= k < n ==> !args[k].Pack? && AtomsOf(args[k]) == [w[k]]
  }

  /** A parameter that takes what it stands for. */
  lemma Takes(o: Overloads, sig: Sig, args: seq<Actual>, w: Word)
    requires sig != []
    requires match sig[0]
             case Arg => InFront(args, w, 1) && w[0].Val?
             case Pair => InFront(args, w, 2) && w[0].Val? && w[1].Val?
             case Flag(tag, _) => InFront(args, w, 1) && w[0].Mark? && w[0].tag == tag
             case _ => false
    ensures var n := if sig[0].Pair? then 2 else 1;
            Encode(o, sig, args) == Cons(w[..n], Encode(o, sig[1..], args[n..]))
  {
    SameToken(args[0], w[0]);
    if sig[0].Pair? {
      SameToken(args[1], w[1]);
      assert w[..2] == [w[0], w[1]];
    } else {
      assert w[..1] == [w[0]];
    }
  }

  /** many<T> that takes an item: its expansion, and then T. */
  lemma TakesItem(o: Overloads, sig: Sig, args: seq<Actual>, w: Word)
    requires sig != [] && sig[0].Many? && InFront(args, w, Width(sig[0].item)) && StartsWith(w, sig[0].item)
    requires !LastLeft(sig[1..], |args|)
    ensures var n := Width(sig[0].item);
            Encode(o, sig, args) == Cons(w[..n], Encode(o, sig, args[n..]))
  {
    var longer := [Single(sig[0].item)] + sig;
    assert longer[1..] == sig;
    SameToken(args[0], w[0]);
    assert !sig[0].item.Opt? ==> !IsFlag(args[0]);
    Takes(o, longer, args, w);
  }

  /** many<> of a flag that is not in front. */
  lemma SkipsFlags(o: Overloads, sig: Sig, args: seq<Actual>)
    requires sig != [] && sig[0].Many? && sig[0].item.Opt? && args != []
    requires !(args[0].FlagArg? && args[0].tag == sig[0].item.tag)
    ensures Encode(o, sig, args) == Encode(o, sig[1..], args)
  {
    var longer := [Single(sig[0].item)] + sig;
    assert longer[1..] == sig;
    assert !Stops(o, sig, args) ==> Encode(o, sig, args) == Encode(o, longer, args);
  }

  lemma ConsIs(t: Word, c: Choice, w: Word)
    requires |t| <= |w| && w[..|t|] == t
    ensures Cons(t, c) == Ok(w) <==> c == Ok(w[|t|..])
  {
    assert w == t + w[|t|..];
    if c.Ok? {
      assert (t + c.word)[|t|..] == c.word;
    }
  }

  /** A word of a regular signature made of the arguments is what the overloads
      choose, as they are meant always, as written just if it leaves every
      many<> arguments for the parameters behind it. */
  lemma {:induction false} Complete(o: Overloads, sig: Sig, args: seq<Actual>, w: Word)
    requires Regular(sig) && Inline(args) && Means(sig, w) && ArgsOf(w) == Atoms(args)
    ensures Encode(o, sig, args) == Ok(w) <==> o.AsMeant? || LeavesArguments(sig, w)
    decreases |w|, |sig|, 2
  {
    AtomsInline(args);
    if sig == [] {
    } else {
      match sig[0]
      case Kw(idx) =>
        Complete(o, sig[1..], args, w[1..]);
        WeightBehind(sig);
        ConsIs([Key(idx)], Encode(o, sig[1..], args), w);
      case Arg => CompleteTaken(o, sig, args, w, One);
      case Pair => CompleteTaken(o, sig, args, w, Two);
      case Flag(_, _) => CompleteFlag(o, sig, args, w);
      case Many(_) => CompleteMany(o, sig, args, w);
    }
  }

  lemma {:induction false} CompleteTaken(o: Overloads, sig: Sig, args: seq<Actual>, w: Word, item: Item)
    requires Regular(sig) && Inline(args) && Means(sig, w) && ArgsOf(w) == Atoms(args)
    requires sig != [] && match sig[0]
                          case Arg => item == One
                          case Pair => item == Two
                          case Flag(tag, _) => item == Opt(tag) && StartsWith(w, item) && Means(sig[1..], w[1..])
                          case _ => false
    ensures Encode(o, sig, args) == Ok(w) <==> o.AsMeant? || LeavesArguments(sig, w)
    decreases |w|, |sig|, 0
  {
    var n := Width(item);
    DropAtoms(args, w, item);
    Complete(o, sig[1..], args[n..], w[n..]);
    Takes(o, sig, args, w);
    ConsIs(w[..n], Encode(o, sig[1..], args[n..]), w);
  }

  lemma {:induction false} CompleteFlag(o: Overloads, sig: Sig, args: seq<Actual>, w: Word)
    requires Regular(sig) && Inline(args) && Means(sig, w) && ArgsOf(w) == Atoms(args)
    requires sig != [] && sig[0].Flag?
    ensures Encode(o, sig, args) == Ok(w) <==> o.AsMeant? || LeavesArguments(sig, w)
    decreases |w|, |sig|, 1
  {
    var rest, tag := sig[1..], sig[0].tag;
    if StartsWith(w, Opt(tag)) && Means(rest, w[1..]) {
      CompleteTaken(o, sig, args, w, Opt(tag));
    } else {
      AtomsInline(args);
      MarksAreTagged(rest, w);
      MarksOfArgs(Tags(rest), w);
      if args != [] && args[0].FlagArg? {
        SameToken(args[0], ArgsOf(w)[0]);
      }
      assert rest != [] ==> rest[0] != Many(Opt(tag));
      Complete(o, rest, args, w);
    }
  }

  lemma {:induction false} CompleteMany(o: Overloads, sig: Sig, args: seq<Actual>, w: Word)
    requires Regular(sig) && Inline(args) && Means(sig, w) && ArgsOf(w) == Atoms(args)
    requires sig != [] && sig[0].Many?
    ensures Encode(o, sig, args) == Ok(w) <==> o.AsMeant? || LeavesArguments(sig, w)
    decreases |w|, |sig|, 1
  {
    var rest, item := sig[1..], sig[0].item;
    AtomsInline(args);
    if Another(sig, w) {
      var n := Width(item);
      DropAtoms(args, w, item);
      TakesAnother(sig, w);
      Complete(o, sig, args[n..], w[n..]);
      TakesItem(o, sig, args, w);
      ConsIs(w[..n], Encode(o, sig, args[n..]), w);
    } else {
      Complete(o, rest, args, w);
      if args != [] {
        TakesAnother(sig, w);
        SameToken(args[0], ArgsOf(w)[0]);
        if !LastLeft(rest, |args|) {
          NoItemInFront(o, sig, args, w);
        }
      }
    }
  }

  /** many<> that has no item in front of it: the overloads as meant go on
      behind it, those as written do so only for a flag. */
  lemma NoItemInFront(o: Overloads, sig: Sig, args: seq<Actual>, w: Word)
    requires sig != [] && sig[0].Many? && Inline(args) && args != [] && ArgsOf(w) == Atoms(args)
    requires !LastLeft(sig[1..], |args|)
    requires var item := sig[0].item;
             && (item.Opt? ==> !(ArgsOf(w)[0].Mark? && ArgsOf(w)[0].tag == item.tag))
             && (!item.Opt? ==> forall k :: 0 <= k < |ArgsOf(w)| ==> ArgsOf(w)[k].Mark?)
    ensures o.AsMeant? || sig[0].item.Opt? ==> Encode(o, sig, args) == Encode(o, sig[1..], args)
    ensures o.AsWritten? && !sig[0].item.Opt? ==> !Encode(o, sig, args).Ok?
  {
    AtomsInline(args);
    SameToken(args[0], ArgsOf(w)[0]);
    if sig[0].item.Opt? {
      SkipsFlags(o, sig, args);
    } else {
      forall k | 0 <= k < |args| ensures IsFlag(args[k]) {
        SameToken(args[k], ArgsOf(w)[k]);
      }
      var longer := [Single(sig[0].item)] + sig;
      assert o.AsWritten? ==> Encode(o, sig, args) == Encode(o, longer, args);
    }
  }

  /** For a regular signature and arguments without packs: the overloads as they
      are meant choose a word exactly when it is a word of the signature made of
      those arguments, and the overloads as written exactly when it also leaves
      every many<> arguments for the parameters behind it. */
  lemma ChoosesTheWord(o: Overloads, sig: Sig, args: seq<Actual>, w: Word)
    requires Regular(sig) && Inline(args)
    ensures Encode(o, sig, args) == Ok(w) <==>
              && Means(sig, w) && ArgsOf(w) == Atoms(args)
              && (o.AsMeant? || LeavesArguments(sig, w))
  {
    Sound(o, sig, args);
    if Means(sig, w) && ArgsOf(w) == Atoms(args) {
      Complete(o, sig, args, w);
    }
  }

  // ------------------------------------------------- as written and as meant

  /** many<> is the last parameter, or many<> of values in front of a last arg
      or pair. */
  predicate Tight(sig: Sig) {
    sig == [] ||
    (&& Tight(sig[1..])
     && (sig[0].Many? ==> sig[1..] == [] || (!sig[0].item.Opt? && (sig[1..] == [Arg] || sig[1..] == [Pair]))))
  }

  /** For such signatures the overloads as written do what they are meant to do
      with every call, whatever packs it holds and also if it fails. */
  lemma {:induction false} TightAgrees(sig: Sig, args: seq<Actual>)
    requires Tight(sig)
    ensures Encode(AsWritten, sig, args) == Encode(AsMeant, sig, args)
    decreases Remaining(args), if args == [] then |sig| else Weight(sig, []), 1
  {
    if sig == [] {
    } else {
      var rest := sig[1..];
      match sig[0]
      case Kw(_) =>
        WeightBehind(sig);
        TightAgrees(rest, args);
      case Flag(tag, _) =>
        if args == [] {
          TightAgrees(rest, []);
        } else if args[0].FlagArg? && args[0].tag == tag {
          TightAgrees(rest, args[1..]);
        } else if !sig[0].optional {
        } else if rest != [] && rest[0] == Many(Opt(tag)) {
          WeightBehindFlags(sig);
          TightAgrees(rest[1..], args);
        } else {
          WeightBehind(sig);
          TightAgrees(rest, args);
        }
      case Arg => TightTaken(sig, args);
      case Pair => TightTaken(sig, args);
      case Many(item) =>
        if args == [] {
          TightAgrees(rest, []);
        } else if !item.Opt? && args[0].Pack? {
          TightAgrees(sig, args[1..]);
        } else if Stops(AsWritten, sig, args) {
          WeightBehind(sig);
          TightAgrees(rest, args);
        } else {
          TightExpanded(sig, args);
        }
    }
  }

  lemma {:induction false} TightTaken(sig: Sig, args: seq<Actual>)
    requires Tight(sig) && sig != [] && (sig[0].Arg? || sig[0].Pair?)
    ensures Encode(AsWritten, sig, args) == Encode(AsMeant, sig, args)
    decreases Remaining(args), if args == [] then |sig| else Weight(sig, []), 0
  {
    var rest := sig[1..];
    if args == [] {
    } else if args[0].Pack? {
      if args[0].rows == [] {
        TightAgrees(sig, args[1..]);
      } else {
        LeftIsLess(args);
        TightAgrees(rest, LeftOf(args));
      }
    } else if sig[0].Arg? {
      TightAgrees(rest, args[1..]);
    } else if |args| >= 2 && args[0].Value? && args[1].Value? {
      TwoValues(args);
      TightAgrees(rest, args[2..]);
    }
  }

  lemma {:induction false} TightExpanded(sig: Sig, args: seq<Actual>)
    requires Tight(sig) && sig != [] && sig[0].Many? && args != []
    requires !sig[0].item.Opt? ==> !args[0].Pack?
    requires !Stops(AsWritten, sig, args)
    ensures Encode(AsWritten, sig, args) == Encode(AsMeant, sig, args)
    decreases Remaining(args), if args == [] then |sig| else Weight(sig, []), 0
  {
    var longer := [Single(sig[0].item)] + sig;
    assert longer[1..] == sig;
    WeightExpanded(sig);
    TightAgrees(longer, args);
    assert Encode(AsWritten, sig, args) == Encode(AsWritten, longer, args);
    if Stops(AsMeant, sig, args) {
      assert IsFlag(args[0]);
    } else {
      assert Encode(AsMeant, sig, args) == Encode(AsMeant, longer, args);
    }
  }

  /** many<> of values in front of anything but one arg or one pair. */
  predicate Loose(sig: Sig) {
    sig != [] &&
    (|| Loose(sig[1..])
     || (sig[0].Many? && !sig[0].item.Opt? && sig[1..] != [] && sig[1..] != [Arg] && sig[1..] != [Pair]))
  }

  lemma NotLoose(p: Param)
    ensures !Loose([p])
  {
    assert [p][1..] == [];
  }

  /** With such a signature the overloads as written encode no call at all. */
  lemma {:induction false} LooseNeverEncodes(sig: Sig, args: seq<Actual>)
    requires Loose(sig)
    ensures !Encode(AsWritten, sig, args).Ok?
    decreases Remaining(args), if args == [] then |sig| else Weight(sig, []), 1
  {
    var rest := sig[1..];
    match sig[0]
    case Kw(_) =>
      WeightBehind(sig);
      LooseNeverEncodes(rest, args);
    case Flag(tag, _) =>
      if args == [] {
        LooseNeverEncodes(rest, []);
      } else if args[0].FlagArg? && args[0].tag == tag {
        LooseNeverEncodes(rest, args[1..]);
      } else if !sig[0].optional {
      } else if rest != [] && rest[0] == Many(Opt(tag)) {
        WeightBehindFlags(sig);
        LooseNeverEncodes(rest[1..], args);
      } else {
        WeightBehind(sig);
        LooseNeverEncodes(rest, args);
      }
    case Arg => LooseTaken(sig, args);
    case Pair => LooseTaken(sig, args);
    case Many(item) =>
      if args == [] {
      } else if !item.Opt? && args[0].Pack? {
        LooseNeverEncodes(sig, args[1..]);
      } else {
        NotLoose(Arg);
        NotLoose(Pair);
        var longer := [Single(item)] + sig;
        assert longer[1..] == sig;
        WeightExpanded(sig);
        LooseNeverEncodes(longer, args);
      }
  }

  lemma {:induction false} LooseTaken(sig: Sig, args: seq<Actual>)
    requires Loose(sig) && (sig[0].Arg? || sig[0].Pair?)
    ensures !Encode(AsWritten, sig, args).Ok?
    decreases Remaining(args), if args == [] then |sig| else Weight(sig, []), 0
  {
    var rest := sig[1..];
    if args == [] {
    } else if args[0].Pack? {
      if args[0].rows == [] {
        LooseNeverEncodes(sig, args[1..]);
      } else {
        LeftIsLess(args);
        LooseNeverEncodes(rest, LeftOf(args));
      }
    } else if sig[0].Arg? {
      LooseNeverEncodes(rest, args[1..]);
    } else if |args| >= 2 && args[0].Value? && args[1].Value? {
      TwoValues(args);
      LooseNeverEncodes(rest, args[2..]);
    }
  }

  predicate OnlyFlags(sig: Sig) {
    forall k :: 0 <= k < |sig| ==> sig[k].Flag? && sig[k].optional
  }

  /** One many<> of a flag, with nothing but flags, of the tags `tags`, behind it,
      and in front of it single values and flags of other tags. */
  predicate FlagsBehindMany(sig: Sig, tags: set<Tag>) {
    sig != [] &&
    match sig[0]
    case Arg => FlagsBehindMany(sig[1..], tags)
    case Flag(tag, true) => tag !in tags && FlagsBehindMany(sig[1..], tags)
    case Many(Opt(tag)) => tag !in tags && sig[1..] != [] && OnlyFlags(sig[1..]) && Tags(sig[1..]) == tags
    case _ => false
  }

  predicate MarkAmong(tags: set<Tag>, w: Word) {
    exists k :: 0 <= k < |w| && w[k].Mark? && w[k].tag in tags
  }

  lemma MarkBehind(tags: set<Tag>, w: Word)
    requires w != [] && !(w[0].Mark? && w[0].tag in tags)
    ensures MarkAmong(tags, w) <==> MarkAmong(tags, w[1..])
  {
    if k :| 0 <= k < |w| && w[k].Mark? && w[k].tag in tags {
      assert w[1..][k - 1] == w[k];
    }
    if k :| 0 <= k < |w[1..]| && w[1..][k].Mark? && w[1..][k].tag in tags {
      assert w[k + 1] == w[1..][k];
    }
  }

  lemma {:induction false} FlagsLeave(sig: Sig, w: Word)
    requires OnlyFlags(sig) && Means(sig, w)
    ensures LeavesArguments(sig, w) && ArgsOf(w) == w && forall k :: 0 <= k < |w| ==> w[k].Mark?
    decreases |w|, |sig|
  {
    if sig == [] {
    } else if StartsWith(w, Opt(sig[0].tag)) && Means(sig[1..], w[1..]) {
      FlagsLeave(sig[1..], w[1..]);
      assert w == [w[0]] + w[1..];
    } else {
      FlagsLeave(sig[1..], w);
    }
  }

  /** Such a signature has its words encoded as written exactly if a flag of
      `tags` is among the arguments. */
  lemma {:induction false} FlagMustFollow(sig: Sig, tags: set<Tag>, w: Word)
    requires FlagsBehindMany(sig, tags) && Means(sig, w)
    ensures LeavesArguments(sig, w) <==> MarkAmong(tags, w)
    ensures ArgsOf(w) == w
    decreases |w|, |sig|
  {
    var rest := sig[1..];
    match sig[0]
    case Arg =>
      FlagMustFollow(rest, tags, w[1..]);
      MarkBehind(tags, w);
      assert w == [w[0]] + w[1..];
    case Flag(tag, _) =>
      if StartsWith(w, Opt(tag)) && Means(rest, w[1..]) {
        FlagMustFollow(rest, tags, w[1..]);
        MarkBehind(tags, w);
        assert w == [w[0]] + w[1..];
      } else {
        FlagMustFollow(rest, tags, w);
      }
    case Many(item) =>
      if Another(sig, w) {
        FlagMustFollow(sig, tags, w[1..]);
        MarkBehind(tags, w);
        assert w == [w[0]] + w[1..];
      } else {
        FlagsLeave(rest, w);
        MarksAreTagged(rest, w);
        if w != [] {
          assert w[0].Mark? && w[0].tag in tags;
        }
      }
  }

  /** What that comes to for the caller. */
  lemma AgreesWithFlagBehind(sig: Sig, tags: set<Tag>, args: seq<Actual>)
    requires Regular(sig) && FlagsBehindMany(sig, tags) && Inline(args)
    ensures var written, meant := Encode(AsWritten, sig, args), Encode(AsMeant, sig, args);
            && (written.Ok? <==> meant.Ok? && exists k :: 0 <= k < |args| && args[k].FlagArg? && args[k].tag in tags)
            && (written.Ok? ==> written == meant)
  {
    var written, meant := Encode(AsWritten, sig, args), Encode(AsMeant, sig, args);
    AtomsInline(args);
    forall k | 0 <= k < |args| ensures args[k].FlagArg? ==> Atoms(args)[k] == Mark(args[k].tag, args[k].words)
                               ensures args[k].Value? ==> Atoms(args)[k].Val? {
      SameToken(args[k], Atoms(args)[k]);
    }
    if written.Ok? {
      ChoosesTheWord(AsWritten, sig, args, written.word);
      ChoosesTheWord(AsMeant, sig, args, written.word);
      FlagMustFollow(sig, tags, written.word);
    }
    if meant.Ok? {
      ChoosesTheWord(AsMeant, sig, args, meant.word);
      ChoosesTheWord(AsWritten, sig, args, meant.word);
      FlagMustFollow(sig, tags, meant.word);
      if k :| 0 <= k < |args| && args[k].FlagArg? && args[k].tag in tags {
        assert meant.word[k].Mark?;
      }
    }
  }

  /** What goes wrong with a signature that is not regular: an optional flag
      takes the argument that the mandatory one behind it is left without. */
  lemma OptionalTakesFirst(o: Overloads)
    ensures var sig, args := [Flag(Get, true), Flag(Get, false)], [FlagArg(Get, ["GET"])];
            var w := [Mark(Get, ["GET"])];
            Means(sig, w) && ArgsOf(w) == Atoms(args) && Encode(o, sig, args) == Missing
  {
    var sig, args := [Flag(Get, true), Flag(Get, false)], [FlagArg(Get, ["GET"])];
    var w := [Mark(Get, ["GET"])];
    assert sig[1..] == [Flag(Get, false)] && [Flag(Get, false)][1..] == [];
    assert args[1..] == [] && w[1..] == [];
    assert Means([Flag(Get, false)], w);
    assert Encode(o, [Flag(Get, false)], []) == Missing;
    assert Atoms(args) == [Mark(Get, ["GET"])] + [];
    assert ArgsOf(w) == [Mark(Get, ["GET"])] + [];
  }
}
