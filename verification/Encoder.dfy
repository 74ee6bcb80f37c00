// The Encoder of include/red1z/io.h and the encode overloads that append to it.
module Encoder {
  import opened Decimal
  import opened Resp
  import opened Server
  import opened Signature

  /** The bytes of bulk strings one after the other. */
  function Blob(strings: seq<string>): string {
    PrintAll(Bulks(strings))
  }

  lemma {:induction false} BlobAppend(a: seq<string>, b: seq<string>)
    ensures Blob(a + b) == Blob(a) + Blob(b)
  {
    assert Bulks(a + b) == Bulks(a) + Bulks(b);
    PrintAllAppend(Bulks(a), Bulks(b));
  }

  /** How a call of encode ends. */
  datatype Status = Done | MissingArguments | NoOverload

  class Encoder {
    var cmd: string

    constructor (size: nat)
      ensures cmd == "*" + Decimal.Decimal(size) + CRLF
    {
      cmd := "*" + Decimal.Decimal(size) + CRLF;
    }

    /** Encoder::encode: one bulk string. */
    method EncodeOne(data: string)
      modifies this
      ensures cmd == old(cmd) + Blob([data])
    {
      cmd := cmd + ['$'];
      cmd := cmd + Decimal.Decimal(|data|);
      cmd := cmd + CRLF;
      cmd := cmd + data;
      cmd := cmd + CRLF;
      OneBlob(data);
      assert cmd == old(cmd) + ("$" + Decimal.Decimal(|data|) + CRLF + data + CRLF);
    }

    lemma OneBlob(data: string)
      ensures Blob([data]) == "$" + Decimal.Decimal(|data|) + CRLF + data + CRLF
    {
      var ts := Bulks([data]);
      assert ts == [Bulk(data)];
      assert PrintAll(ts[1..]) == "";
      assert PrintAll(ts) == Print(ts[0]) + "";
    }

    /** The words of a flag, the components of a row, or an argument list. */
    method EncodeEach(strings: seq<string>)
      modifies this
      ensures cmd == old(cmd) + Blob(strings)
    {
      assert strings[..0] == [];
      for i := 0 to |strings|
        invariant cmd == old(cmd) + Blob(strings[..i])
      {
        EncodeOne(strings[i]);
        BlobAppend(strings[..i], [strings[i]]);
        assert strings[..i + 1] == strings[..i] + [strings[i]];
      }
      assert strings[..|strings|] == strings;
    }

    /** ArgPack::encode and the pack loops of many<>. */
    method EncodeRows(keywords: seq<string>, rows: seq<seq<string>>)
      modifies this
      ensures Spellable(keywords, Rows(rows))
      ensures cmd == old(cmd) + Blob(SpellAll(keywords, Rows(rows)))
    {
      assert rows[..0] == [];
      for i := 0 to |rows|
        invariant cmd == old(cmd) + Blob(Flat(rows[..i]))
      {
        EncodeEach(rows[i]);
        FlatAppend(rows[..i], rows[i]);
        BlobAppend(Flat(rows[..i]), rows[i]);
        assert rows[..i + 1] == rows[..i] + [rows[i]];
      }
      assert rows[..|rows|] == rows;
      SpellRows(keywords, rows);
    }

    /** What the overloads append for a choice. */
    ghost predicate Emitted(keywords: seq<string>, c: Choice, s: Status, before: string)
      reads this
    {
      match c
      case Ok(w) => s == Done && Spellable(keywords, w) && cmd == before + Blob(SpellAll(keywords, w))
      case Missing => s == MissingArguments
      case NoMatch => s == NoOverload
    }

    lemma EmittedBehind(keywords: seq<string>, t: Word, c: Choice, s: Status, before: string, mid: string)
      requires Spellable(keywords, t) && mid == before + Blob(SpellAll(keywords, t))
      requires Emitted(keywords, c, s, mid)
      ensures Emitted(keywords, Cons(t, c), s, before)
    {
      if c.Ok? {
        SpellAppend(keywords, t, c.word);
        BlobAppend(SpellAll(keywords, t), SpellAll(keywords, c.word));
      }
    }

    lemma CoveredBehind(keywords: seq<string>, sig: Sig)
      requires sig != [] && Covered(sig, keywords)
      ensures Covered(sig[1..], keywords)
      ensures sig[0].Many? ==> Covered([Single(sig[0].item)] + sig, keywords)
    {
    }

    /** The encode overloads as written: they append what function Encode chooses. */
    method EncodeArgs(keywords: seq<string>, sig: Sig, args: seq<Actual>) returns (s: Status)
      requires Covered(sig, keywords) && WellFormed(args)
      modifies this
      ensures Emitted(keywords, Encode(AsWritten, sig, args), s, old(cmd))
      decreases Remaining(args), if args == [] then |sig| else Weight(sig, []), 3
    {
      if sig == [] {
        return if args == [] then Done else NoOverload;
      }
      CoveredBehind(keywords, sig);
      if args != [] {
        InTail(args);
      }
      match sig[0]
      case Kw(idx) =>
        WeightBehind(sig);
        SpelledOne(keywords, Key(idx));
        s := EncodeThen(keywords, [Key(idx)], keywords[idx..idx + 1], sig, sig[1..], args, args);
      case Flag(_, _) => s := EncodeFlag(keywords, sig, args);
      case Arg => s := EncodeArg(keywords, sig, args);
      case Pair => s := EncodePair(keywords, sig, args);
      case Many(_) => s := EncodeMany(keywords, sig, args);
    }

    method EncodeFlag(keywords: seq<string>, sig: Sig, args: seq<Actual>) returns (s: Status)
      requires Covered(sig, keywords) && WellFormed(args) && sig != [] && sig[0].Flag?
      modifies this
      ensures Emitted(keywords, Encode(AsWritten, sig, args), s, old(cmd))
      decreases Remaining(args), if args == [] then |sig| else Weight(sig, []), 1
    {
      var rest, tag := sig[1..], sig[0].tag;
      CoveredBehind(keywords, sig);
      if args == [] {
        if !sig[0].optional {
          return MissingArguments;
        }
        s := EncodeArgs(keywords, rest, []);
      } else if args[0].FlagArg? && args[0].tag == tag {
        InTail(args);
        SpelledOne(keywords, Mark(tag, args[0].words));
        s := EncodeThen(keywords, [Mark(tag, args[0].words)], args[0].words, sig, rest, args, args[1..]);
      } else if !sig[0].optional {
        return NoOverload;
      } else if rest != [] && rest[0] == Many(Opt(tag)) {
        WeightBehindFlags(sig);
        CoveredBehind(keywords, rest);
        s := EncodeArgs(keywords, rest[1..], args);
      } else {
        WeightBehind(sig);
        s := EncodeArgs(keywords, rest, args);
      }
    }

    method EncodeArg(keywords: seq<string>, sig: Sig, args: seq<Actual>) returns (s: Status)
      requires Covered(sig, keywords) && WellFormed(args) && sig != [] && sig[0].Arg?
      modifies this
      ensures Emitted(keywords, Encode(AsWritten, sig, args), s, old(cmd))
      decreases Remaining(args), if args == [] then |sig| else Weight(sig, []), 2
    {
      CoveredBehind(keywords, sig);
      if args == [] {
        return MissingArguments;
      }
      InTail(args);
      match args[0]
      case Value(bytes) =>
        SpelledOne(keywords, Val(bytes));
        s := EncodeThen(keywords, [Val(bytes)], [bytes], sig, sig[1..], args, args[1..]);
      case FlagArg(_, _) => return NoOverload;
      case Pack(width, _) =>
        if width != 1 {
          return NoOverload;
        }
        s := EncodeFirstRow(keywords, sig, args);
    }

    method EncodePair(keywords: seq<string>, sig: Sig, args: seq<Actual>) returns (s: Status)
      requires Covered(sig, keywords) && WellFormed(args) && sig != [] && sig[0].Pair?
      modifies this
      ensures Emitted(keywords, Encode(AsWritten, sig, args), s, old(cmd))
      decreases Remaining(args), if args == [] then |sig| else Weight(sig, []), 2
    {
      CoveredBehind(keywords, sig);
      if args == [] {
        return MissingArguments;
      }
      if args[0].Pack? {
        if args[0].width != 2 {
          return NoOverload;
        }
        s := EncodeFirstRow(keywords, sig, args);
      } else if |args| >= 2 && args[0].Value? && args[1].Value? {
        var a, b := args[0].bytes, args[1].bytes;
        SpelledTwo(keywords, a, b);
        TwoValues(args);
        s := EncodeThen(keywords, [Val(a), Val(b)], [a, b], sig, sig[1..], args, args[2..]);
      } else {
        return NoOverload;
      }
    }

    method EncodeMany(keywords: seq<string>, sig: Sig, args: seq<Actual>) returns (s: Status)
      requires Covered(sig, keywords) && WellFormed(args) && sig != [] && sig[0].Many?
      modifies this
      ensures Emitted(keywords, Encode(AsWritten, sig, args), s, old(cmd))
      decreases Remaining(args), if args == [] then |sig| else Weight(sig, []), 1
    {
      var rest, item := sig[1..], sig[0].item;
      CoveredBehind(keywords, sig);
      WeightBehind(sig);
      if args == [] {
        if rest != [] {
          return MissingArguments;
        }
        s := EncodeArgs(keywords, rest, []);
      } else if !item.Opt? && args[0].Pack? {
        if args[0].width != Width(item) {
          return NoOverload;
        }
        InTail(args);
        EncodeRows(keywords, args[0].rows);
        ghost var mid := cmd;
        s := EncodeArgs(keywords, sig, args[1..]);
        EmittedBehind(keywords, Rows(args[0].rows), Encode(AsWritten, sig, args[1..]), s, old(cmd), mid);
      } else if Stops(AsWritten, sig, args) {
        s := EncodeArgs(keywords, rest, args);
      } else {
        WeightExpanded(sig);
        s := EncodeArgs(keywords, [Single(item)] + sig, args);
      }
    }

    /** encode_from_pack. */
    method EncodeFirstRow(keywords: seq<string>, sig: Sig, args: seq<Actual>) returns (s: Status)
      requires Covered(sig, keywords) && WellFormed(args) && sig != [] && (sig[0].Arg? || sig[0].Pair?)
      requires args != [] && args[0].Pack?
      modifies this
      ensures Emitted(keywords, EncodeFromPack(AsWritten, sig, args), s, old(cmd))
      decreases Remaining(args), if args == [] then |sig| else Weight(sig, []), 1
    {
      var pack := args[0];
      InTail(args);
      CoveredBehind(keywords, sig);
      if pack.rows == [] {
        s := EncodeArgs(keywords, sig, args[1..]);
      } else {
        SpellRow(keywords, pack.rows[0]);
        LeftIsLess(args);
        s := EncodeThen(keywords, Row(pack.rows[0]), pack.rows[0], sig, sig[1..], args, LeftOf(args));
      }
    }

    /** Appends `strings`, which spell `t`, and goes on with `sig` and `args`. */
    method EncodeThen(keywords: seq<string>, ghost t: Word, strings: seq<string>,
                      ghost sig0: Sig, sig: Sig, ghost args0: seq<Actual>, args: seq<Actual>) returns (s: Status)
      requires Covered(sig, keywords) && WellFormed(args)
      requires Spellable(keywords, t) && SpellAll(keywords, t) == strings
      requires Remaining(args) < Remaining(args0)
            || (args == args0 && (if args == [] then |sig| < |sig0| else Weight(sig, []) < Weight(sig0, [])))
      modifies this
      ensures Emitted(keywords, Cons(t, Encode(AsWritten, sig, args)), s, old(cmd))
      decreases Remaining(args0), if args0 == [] then |sig0| else Weight(sig0, []), 0
    {
      EncodeEach(strings);
      ghost var mid := cmd;
      s := EncodeArgs(keywords, sig, args);
      EmittedBehind(keywords, t, Encode(AsWritten, sig, args), s, old(cmd), mid);
    }

    /** The overloads for signature<generic>: every argument as it comes. */
    method EncodeGeneric(args: seq<Actual>)
      modifies this
      ensures Spellable([], Atoms(args)) && cmd == old(cmd) + Blob(SpellAll([], Atoms(args)))
    {
      if args == [] {
        assert Blob([]) == "";
        return;
      }
      match args[0] {
        case Value(bytes) =>
          SpelledOne([], Val(bytes));
          EncodeOne(bytes);
        case FlagArg(tag, words) =>
          SpelledOne([], Mark(tag, words));
          EncodeEach(words);
        case Pack(_, rows) => EncodeRows([], rows);
      }
      ghost var mid := cmd;
      EncodeGeneric(args[1..]);
      EmittedBehind([], AtomsOf(args[0]), Ok(Atoms(args[1..])), Done, old(cmd), mid);
    }
  }

  /** The bytes of a command whose header counts its strings. */
  lemma WireOfBlob(c: string, strings: seq<string>)
    ensures "*" + Decimal.Decimal(1 + |strings|) + CRLF + Blob([c]) + Blob(strings) == Wire([c] + strings)
  {
    BlobAppend([c], strings);
    assert Blob([c] + strings) == PrintAll(Bulks([c] + strings));
  }

  /** encode: the whole command. It is the request made of the command's name
      and the strings of the word chosen for its arguments. */
  method EncodeCommand(c: string, keywords: seq<string>, sig: Sig, args: seq<Actual>)
    returns (s: Status, cmd: string)
    requires Covered(sig, keywords) && WellFormed(args)
    ensures match Encode(AsWritten, sig, args)
            case Ok(w) => s == Done && Spellable(keywords, w) && cmd == Wire([c] + SpellAll(keywords, w))
            case Missing => s == MissingArguments
            case NoMatch => s == NoOverload
  {
    var e := new Encoder(ArgSizes(args) + 1 + KwCount(sig));
    e.EncodeOne(c);
    s := e.EncodeArgs(keywords, sig, args);
    cmd := e.cmd;
    if Encode(AsWritten, sig, args).Ok? {
      HeaderAgrees(AsWritten, sig, args, keywords);
      WireOfBlob(c, SpellAll(keywords, Encode(AsWritten, sig, args).word));
    }
  }

  /** encode_command, for the commands without a signature. */
  method EncodePlainCommand(c: string, args: seq<Actual>) returns (cmd: string)
    requires WellFormed(args)
    ensures Spellable([], Atoms(args)) && cmd == Wire([c] + SpellAll([], Atoms(args)))
  {
    var e := new Encoder(ArgSizes(args) + 1);
    e.EncodeOne(c);
    e.EncodeGeneric(args);
    cmd := e.cmd;
    LengthOfAtoms(args);
    LengthOfSpelling([], Atoms(args));
    WireOfBlob(c, SpellAll([], Atoms(args)));
  }

  lemma {:induction false} SpellAppend(keywords: seq<string>, a: Word, b: Word)
    requires Spellable(keywords, a) && Spellable(keywords, b)
    ensures Spellable(keywords, a + b)
    ensures SpellAll(keywords, a + b) == SpellAll(keywords, a) + SpellAll(keywords, b)
  {
    if a == [] {
      assert a + b == b;
    } else {
      SpellAppend(keywords, a[1..], b);
      assert (a + b)[1..] == a[1..] + b && (a + b)[0] == a[0];
    }
  }

  lemma SpelledOne(keywords: seq<string>, t: Token)
    requires t.Key? ==> t.idx < |keywords|
    ensures Spellable(keywords, [t]) && SpellAll(keywords, [t]) == Spell(keywords, t)
  {
    assert [t][1..] == [];
    assert SpellAll(keywords, [t]) == Spell(keywords, t) + [];
  }

  lemma SpelledTwo(keywords: seq<string>, a: string, b: string)
    ensures Spellable(keywords, [Val(a), Val(b)]) && SpellAll(keywords, [Val(a), Val(b)]) == [a, b]
  {
    assert [Val(a), Val(b)][1..] == [Val(b)] && [Val(b)][1..] == [];
    assert SpellAll(keywords, [Val(b)]) == [b];
  }

  lemma {:induction false} SpellRow(keywords: seq<string>, row: seq<string>)
    ensures Spellable(keywords, Row(row)) && SpellAll(keywords, Row(row)) == row
  {
    if row == [] {
    } else {
      SpellRow(keywords, row[1..]);
      assert Row(row)[1..] == Row(row[1..]);
    }
  }

  /** The strings of a range of rows. */
  function Flat(rows: seq<seq<string>>): seq<string> {
    if rows == [] then [] else rows[0] + Flat(rows[1..])
  }

  lemma {:induction false} SpellRows(keywords: seq<string>, rows: seq<seq<string>>)
    ensures Spellable(keywords, Rows(rows)) && SpellAll(keywords, Rows(rows)) == Flat(rows)
  {
    if rows == [] {
    } else {
      SpellRow(keywords, rows[0]);
      SpellRows(keywords, rows[1..]);
      SpellAppend(keywords, Row(rows[0]), Rows(rows[1..]));
    }
  }

  lemma {:induction false} FlatAppend(rows: seq<seq<string>>, row: seq<string>)
    ensures Flat(rows + [row]) == Flat(rows) + row
  {
    if rows == [] {
      assert (rows + [row])[1..] == [];
    } else {
      FlatAppend(rows[1..], row);
      assert (rows + [row])[1..] == rows[1..] + [row];
    }
  }

  /** The strings of a word, token by token: the keyword of its number for a
      keyword, the one value for a value, and the words in order for a flag. */
  lemma {:induction false} SpelledInOrder(keywords: seq<string>, w: Word) returns (parts: seq<seq<string>>)
    requires Spellable(keywords, w)
    ensures |parts| == |w| && SpellAll(keywords, w) == Flat(parts)
    ensures forall k :: 0 <= k < |w| ==>
              match w[k]
              case Key(idx) => parts[k] == [keywords[idx]]
              case Val(bytes) => parts[k] == [bytes]
              case Mark(_, words) => parts[k] == words
  {
    if w == [] {
      parts := [];
    } else {
      var more := SpelledInOrder(keywords, w[1..]);
      parts := [Spell(keywords, w[0])] + more;
      assert parts[1..] == more;
      forall k | 0 < k < |w| ensures w[k] == w[1..][k - 1] && parts[k] == more[k - 1] {
      }
    }
  }
}
