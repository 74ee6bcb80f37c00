// Decoding of stream replies: StreamReadCommand, MultiStreamReadCommand and
// OptMultiStreamReadCommand of include/red1z/commands/stream.h.
module Streams {
  import opened Decimal
  import opened Resp
  import opened Pipeline

  type Field = (string, string)
  type Entry<E> = (string, E)
  type Stream<E> = (string, seq<Entry<E>>)

  /** entry_type_traits: the two types an entry can be read into. */
  datatype Traits<!E> = Traits(empty: E, setField: (E, string, string) -> E)

  function VectorTraits(): Traits<seq<Field>> {
    Traits([], (entry: seq<Field>, name, value) => entry + [(name, value)])
  }

  /** emplace does nothing if the name is there already. */
  function MapTraits(): Traits<map<string, string>> {
    Traits(map[], (entry: map<string, string>, name, value) =>
                    if name in entry then entry else entry[name := value])
  }

  // ---------------------------------------------------------- accessors

  /** Reply::array; a negative size accepts any. */
  function ArrayOf(r: Rep, size: int): Try<seq<Rep>> {
    if !r.Array? then Error(NotAnArray)
    else if size >= 0 && |r.elems| != size then Error(UnexpectedArraySize)
    else Value(r.elems)
  }

  /** Reply::string, which get<std::string> comes to. */
  function TextOf(r: Rep): Try<string> {
    if r.Text? then Value(r.s) else Error(NotAString)
  }

  // ------------------------------------------------------ what is decoded

  /** The fields of an entry, added one by one. */
  function FillEntry<E>(traits: Traits<E>, entry: E, fields: seq<Rep>): Try<E>
    requires |fields| % 2 == 0
    decreases |fields|
  {
    if fields == [] then Value(entry)
    else
      match (TextOf(fields[0]), TextOf(fields[1]))
      case (Error(error), _) => Error(error)
      case (_, Error(error)) => Error(error)
      case (Value(name), Value(value)) => FillEntry(traits, traits.setField(entry, name, value), fields[2..])
  }

  function DecodeFields<E>(traits: Traits<E>, r: Rep): Try<E> {
    match ArrayOf(r, -1)
    case Error(error) => Error(error)
    case Value(fields) =>
      if |fields| % 2 != 0 then Error(OddFields) else FillEntry(traits, traits.empty, fields)
  }

  function DecodeEntry<E>(traits: Traits<E>, r: Rep): Try<Entry<E>> {
    match ArrayOf(r, 2)
    case Error(error) => Error(error)
    case Value(entry) =>
      match DecodeFields(traits, entry[1])
      case Error(error) => Error(error)
      case Value(fields) =>
        match TextOf(entry[0])
        case Error(error) => Error(error)
        case Value(id) => Value((id, fields))
  }

  /** `out` with the decoded elements behind it. */
  function DecodeEntries<E>(traits: Traits<E>, out: seq<Entry<E>>, elems: seq<Rep>): Try<seq<Entry<E>>>
    decreases |elems|
  {
    if elems == [] then Value(out)
    else
      match DecodeEntry(traits, elems[0])
      case Error(error) => Error(error)
      case Value(entry) => DecodeEntries(traits, out + [entry], elems[1..])
  }

  function DecodeStream<E>(traits: Traits<E>, r: Rep): Try<seq<Entry<E>>> {
    match ArrayOf(r, -1)
    case Error(error) => Error(error)
    case Value(elems) => DecodeEntries(traits, [], elems)
  }

  function DecodeNamed<E>(traits: Traits<E>, r: Rep): Try<Stream<E>> {
    match ArrayOf(r, 2)
    case Error(error) => Error(error)
    case Value(pair) =>
      match (TextOf(pair[0]), DecodeStream(traits, pair[1]))
      case (Error(error), _) => Error(error)
      case (_, Error(error)) => Error(error)
      case (Value(name), Value(entries)) => Value((name, entries))
  }

  function DecodeMulti<E>(traits: Traits<E>, out: seq<Stream<E>>, elems: seq<Rep>): Try<seq<Stream<E>>>
    decreases |elems|
  {
    if elems == [] then Value(out)
    else
      match DecodeNamed(traits, elems[0])
      case Error(error) => Error(error)
      case Value(stream) => DecodeMulti(traits, out + [stream], elems[1..])
  }

  // ---------------------------------------------------------- the methods

  /** The field loop. */
  method ReadFields<E>(traits: Traits<E>, fields: seq<Rep>) returns (r: Try<E>)
    requires |fields| % 2 == 0
    ensures r == FillEntry(traits, traits.empty, fields)
  {
    var n := |fields| / 2;
    var entry := traits.empty;
    for i := 0 to n
      invariant FillEntry(traits, traits.empty, fields) == FillEntry(traits, entry, fields[2 * i..])
    {
      var name := TextOf(fields[2 * i]);
      if name.Error? {
        return Error(name.error);
      }
      var value := TextOf(fields[2 * i + 1]);
      if value.Error? {
        return Error(value.error);
      }
      entry := traits.setField(entry, name.value, value.value);
      assert fields[2 * i..][2..] == fields[2 * (i + 1)..];
    }
    return Value(entry);
  }

  /** StreamReadCommand::process_into on an empty vector. */
  method ReadStream<E>(traits: Traits<E>, r: Rep) returns (out: Try<seq<Entry<E>>>)
    ensures out == DecodeStream(traits, r)
  {
    var elements := ArrayOf(r, -1);
    if elements.Error? {
      return Error(elements.error);
    }
    var entries: seq<Entry<E>> := [];
    for i := 0 to |elements.value|
      invariant DecodeEntries(traits, [], elements.value) == DecodeEntries(traits, entries, elements.value[i..])
    {
      var rr := elements.value[i];
      assert elements.value[i..][1..] == elements.value[i + 1..];
      var entry := ArrayOf(rr, 2);
      if entry.Error? {
        return Error(entry.error);
      }
      var fields := ArrayOf(entry.value[1], -1);
      if fields.Error? {
        return Error(fields.error);
      }
      if |fields.value| % 2 != 0 {
        return Error(OddFields);
      }
      var ent := ReadFields(traits, fields.value);
      if ent.Error? {
        return Error(ent.error);
      }
      var id := TextOf(entry.value[0]);
      if id.Error? {
        return Error(id.error);
      }
      entries := entries + [(id.value, ent.value)];
    }
    return Value(entries);
  }

  /** OptMultiStreamReadCommand::process: nothing for a null reply, otherwise
      MultiStreamReadCommand::process. */
  method ReadMulti<E>(traits: Traits<E>, r: Rep) returns (out: Try<Option<seq<Stream<E>>>>)
    ensures r.Nil? ==> out == Value(None)
    ensures r.Array? ==>
              match DecodeMulti(traits, [], r.elems)
              case Error(error) => out == Error(error)
              case Value(streams) => out == Value(Some(streams))
    ensures !r.Nil? && !r.Array? ==> out == Error(NotAnArray)
  {
    if r == Nil {
      return Value(None);
    }
    var elements := ArrayOf(r, -1);
    if elements.Error? {
      return Error(elements.error);
    }
    var streams: seq<Stream<E>> := [];
    for i := 0 to |elements.value|
      invariant DecodeMulti(traits, [], elements.value) == DecodeMulti(traits, streams, elements.value[i..])
    {
      assert elements.value[i..][1..] == elements.value[i + 1..];
      var e := ArrayOf(elements.value[i], 2);
      if e.Error? {
        return Error(e.error);
      }
      var name := TextOf(e.value[0]);
      if name.Error? {
        return Error(name.error);
      }
      var entries := ReadStream(traits, e.value[1]);
      if entries.Error? {
        return Error(entries.error);
      }
      streams := streams + [(name.value, entries.value)];
    }
    return Value(Some(streams));
  }

  // ------------------------------------------------- decoding inverts flattening

  function FlatFields(fields: seq<Field>): (reps: seq<Rep>)
    ensures |reps| == 2 * |fields|
  {
    if fields == [] then [] else [Text(fields[0].0), Text(fields[0].1)] + FlatFields(fields[1..])
  }

  function FlatEntry(entry: Entry<seq<Field>>): Rep {
    Array([Text(entry.0), Array(FlatFields(entry.1))])
  }

  function FlatEntries(entries: seq<Entry<seq<Field>>>): (reps: seq<Rep>)
    ensures |reps| == |entries|
  {
    if entries == [] then [] else [FlatEntry(entries[0])] + FlatEntries(entries[1..])
  }

  function FlatStream(stream: Stream<seq<Field>>): Rep {
    Array([Text(stream.0), Array(FlatEntries(stream.1))])
  }

  function FlatStreams(streams: seq<Stream<seq<Field>>>): (reps: seq<Rep>)
    ensures |reps| == |streams|
  {
    if streams == [] then [] else [FlatStream(streams[0])] + FlatStreams(streams[1..])
  }

  /** An entry read into the type of `traits`. */
  function Filled<E>(traits: Traits<E>, entry: E, fields: seq<Field>): E
    decreases |fields|
  {
    if fields == [] then entry
    else Filled(traits, traits.setField(entry, fields[0].0, fields[0].1), fields[1..])
  }

  function FilledEntries<E>(traits: Traits<E>, entries: seq<Entry<seq<Field>>>): (es: seq<Entry<E>>)
    ensures |es| == |entries|
  {
    seq(|entries|, k requires 0 <= k < |entries| => (entries[k].0, Filled(traits, traits.empty, entries[k].1)))
  }

  function FilledStreams<E>(traits: Traits<E>, streams: seq<Stream<seq<Field>>>): (ss: seq<Stream<E>>)
    ensures |ss| == |streams|
  {
    seq(|streams|, k requires 0 <= k < |streams| => (streams[k].0, FilledEntries(traits, streams[k].1)))
  }

  lemma {:induction false} FieldsDecode<E>(traits: Traits<E>, entry: E, fields: seq<Field>)
    ensures FillEntry(traits, entry, FlatFields(fields)) == Value(Filled(traits, entry, fields))
    decreases |fields|
  {
    if fields == [] {
    } else {
      FieldsDecode(traits, traits.setField(entry, fields[0].0, fields[0].1), fields[1..]);
      assert FlatFields(fields)[2..] == FlatFields(fields[1..]);
    }
  }

  /** One entry, and then the others. */
  lemma EntryDecodes<E>(traits: Traits<E>, out: seq<Entry<E>>, entry: Entry<seq<Field>>, more: seq<Rep>)
    ensures var first := (entry.0, Filled(traits, traits.empty, entry.1));
            DecodeEntries(traits, out, [FlatEntry(entry)] + more) == DecodeEntries(traits, out + [first], more)
  {
    FieldsDecode(traits, traits.empty, entry.1);
    assert ([FlatEntry(entry)] + more)[1..] == more;
  }

  lemma {:induction false} EntriesBehind<E>(traits: Traits<E>, out: seq<Entry<E>>, entries: seq<Entry<seq<Field>>>,
                                            more: seq<Rep>)
    ensures DecodeEntries(traits, out, FlatEntries(entries) + more)
         == DecodeEntries(traits, out + FilledEntries(traits, entries), more)
    decreases |entries|
  {
    hide DecodeEntries, Filled, FlatEntry;
    if entries == [] {
      assert out + FilledEntries(traits, entries) == out && FlatEntries(entries) + more == more;
    } else {
      var first, others := (entries[0].0, Filled(traits, traits.empty, entries[0].1)), entries[1..];
      EntryDecodes(traits, out, entries[0], FlatEntries(others) + more);
      EntriesBehind(traits, out + [first], others, more);
      FilledInTurn(out, first, FilledEntries(traits, others), FilledEntries(traits, entries));
      InFront(FlatEntry(entries[0]), FlatEntries(others), more);
    }
  }

  lemma EntriesDecode<E>(traits: Traits<E>, out: seq<Entry<E>>, entries: seq<Entry<seq<Field>>>)
    ensures DecodeEntries(traits, out, FlatEntries(entries)) == Value(out + FilledEntries(traits, entries))
  {
    EntriesBehind(traits, out, entries, []);
    assert FlatEntries(entries) + [] == FlatEntries(entries);
  }

  lemma InFront<X>(first: X, others: seq<X>, more: seq<X>)
    ensures [first] + others + more == [first] + (others + more)
  {
  }

  lemma FilledInTurn<X>(out: seq<X>, first: X, others: seq<X>, all: seq<X>)
    requires |all| == 1 + |others| && all[0] == first && forall k :: 0 <= k < |others| ==> all[k + 1] == others[k]
    ensures out + [first] + others == out + all
  {
    assert all == [first] + others;
  }

  /** One stream, and then the others. */
  lemma StreamDecodes<E>(traits: Traits<E>, out: seq<Stream<E>>, stream: Stream<seq<Field>>, more: seq<Rep>)
    ensures var first := (stream.0, FilledEntries(traits, stream.1));
            DecodeMulti(traits, out, [FlatStream(stream)] + more) == DecodeMulti(traits, out + [first], more)
  {
    EntriesDecode(traits, [], stream.1);
    var entries := FilledEntries(traits, stream.1);
    assert [] + entries == entries;
    assert ([FlatStream(stream)] + more)[1..] == more;
  }

  lemma {:induction false} StreamsBehind<E>(traits: Traits<E>, out: seq<Stream<E>>, streams: seq<Stream<seq<Field>>>,
                                            more: seq<Rep>)
    ensures DecodeMulti(traits, out, FlatStreams(streams) + more)
         == DecodeMulti(traits, out + FilledStreams(traits, streams), more)
    decreases |streams|
  {
    hide DecodeMulti, FilledEntries, FlatStream;
    if streams == [] {
      assert out + FilledStreams(traits, streams) == out && FlatStreams(streams) + more == more;
    } else {
      var first, others := (streams[0].0, FilledEntries(traits, streams[0].1)), streams[1..];
      StreamDecodes(traits, out, streams[0], FlatStreams(others) + more);
      StreamsBehind(traits, out + [first], others, more);
      FilledInTurn(out, first, FilledStreams(traits, others), FilledStreams(traits, streams));
      InFront(FlatStream(streams[0]), FlatStreams(others), more);
    }
  }

  /** Every nested list of streams, entries and fields is read back from its
      flattened reply, in order, into either type of entry. */
  lemma StreamsDecode<E>(traits: Traits<E>, out: seq<Stream<E>>, streams: seq<Stream<seq<Field>>>)
    ensures DecodeMulti(traits, out, FlatStreams(streams)) == Value(out + FilledStreams(traits, streams))
  {
    StreamsBehind(traits, out, streams, []);
    assert FlatStreams(streams) + [] == FlatStreams(streams);
  }

  // ------------------------------------------- and nothing else is decoded

  lemma {:induction false} FieldsOnly<E>(traits: Traits<E>, entry: E, reps: seq<Rep>) returns (fields: seq<Field>)
    requires |reps| % 2 == 0 && FillEntry(traits, entry, reps).Value?
    ensures reps == FlatFields(fields)
    ensures FillEntry(traits, entry, reps) == Value(Filled(traits, entry, fields))
    decreases |reps|
  {
    if reps == [] {
      fields := [];
    } else {
      var f := (reps[0].s, reps[1].s);
      var more := FieldsOnly(traits, traits.setField(entry, f.0, f.1), reps[2..]);
      fields := [f] + more;
      assert fields[1..] == more;
      assert reps == [Text(f.0), Text(f.1)] + reps[2..];
    }
  }

  lemma EntryOnly<E>(traits: Traits<E>, r: Rep) returns (entry: Entry<seq<Field>>)
    requires DecodeEntry(traits, r).Value?
    ensures r == FlatEntry(entry)
  {
    var pair := r.elems;
    var fields := FieldsOnly(traits, traits.empty, pair[1].elems);
    entry := (pair[0].s, fields);
    assert pair == [pair[0], pair[1]];
  }

  lemma {:induction false} EntriesOnly<E>(traits: Traits<E>, out: seq<Entry<E>>, elems: seq<Rep>)
    returns (entries: seq<Entry<seq<Field>>>)
    requires DecodeEntries(traits, out, elems).Value?
    ensures elems == FlatEntries(entries)
    decreases |elems|
  {
    hide DecodeEntry;
    if elems == [] {
      entries := [];
    } else {
      var first := EntryOnly(traits, elems[0]);
      var more := EntriesOnly(traits, out + [DecodeEntry(traits, elems[0]).value], elems[1..]);
      entries := [first] + more;
      assert entries[1..] == more;
      assert elems == [elems[0]] + elems[1..];
    }
  }

  lemma NamedOnly<E>(traits: Traits<E>, r: Rep) returns (stream: Stream<seq<Field>>)
    requires DecodeNamed(traits, r).Value?
    ensures r == FlatStream(stream)
  {
    var pair := r.elems;
    var entries := EntriesOnly(traits, [], pair[1].elems);
    stream := (pair[0].s, entries);
    assert pair == [pair[0], pair[1]];
  }

  lemma {:induction false} StreamsOnly<E>(traits: Traits<E>, out: seq<Stream<E>>, elems: seq<Rep>)
    returns (streams: seq<Stream<seq<Field>>>)
    requires DecodeMulti(traits, out, elems).Value?
    ensures elems == FlatStreams(streams)
    decreases |elems|
  {
    if elems == [] {
      streams := [];
    } else {
      var stream := NamedOnly(traits, elems[0]);
      var more := StreamsOnly(traits, out + [DecodeNamed(traits, elems[0]).value], elems[1..]);
      streams := [stream] + more;
      assert streams[1..] == more;
      assert elems == [elems[0]] + elems[1..];
    }
  }

  /** A reply is decoded exactly when it is the flattening of some streams; any
      other, one with an odd list of fields for example, is rejected. */
  lemma DecodesExactlyFlattenings<E>(traits: Traits<E>, elems: seq<Rep>)
    ensures DecodeMulti(traits, [], elems).Value? <==> exists streams :: elems == FlatStreams(streams)
  {
    if DecodeMulti(traits, [], elems).Value? {
      var streams := StreamsOnly(traits, [], elems);
    }
    forall streams | elems == FlatStreams(streams) ensures DecodeMulti(traits, [], elems).Value? {
      StreamsDecode(traits, [], streams);
    }
  }

  // ------------------------------------------------- what is rejected, and how

  predicate AllTexts(reps: seq<Rep>) {
    forall k :: 0 <= k < |reps| ==> reps[k].Text?
  }

  lemma {:induction false} FieldsRefused<E>(traits: Traits<E>, entry: E, reps: seq<Rep>)
    requires |reps| % 2 == 0
    ensures if AllTexts(reps) then FillEntry(traits, entry, reps).Value?
            else FillEntry(traits, entry, reps) == Error(NotAString)
    decreases |reps|
  {
    if reps == [] {
    } else if reps[0].Text? && reps[1].Text? {
      FieldsRefused(traits, traits.setField(entry, reps[0].s, reps[1].s), reps[2..]);
      if k :| 0 <= k < |reps| && !reps[k].Text? {
        assert !reps[2..][k - 2].Text?;
      }
    }
  }

  /** `bad` behind good entries, in a stream behind good streams. */
  function Behind(streams: seq<Stream<seq<Field>>>, name: string, entries: seq<Entry<seq<Field>>>, bad: Rep,
                  more: seq<Rep>, others: seq<Rep>): seq<Rep>
  {
    FlatStreams(streams) + ([Array([Text(name), Array(FlatEntries(entries) + ([bad] + more))])] + others)
  }

  lemma StopsAtEntry<E>(traits: Traits<E>, streams: seq<Stream<seq<Field>>>, name: string,
                        entries: seq<Entry<seq<Field>>>, bad: Rep, more: seq<Rep>, others: seq<Rep>)
    requires DecodeEntry(traits, bad).Error?
    ensures DecodeMulti(traits, [], Behind(streams, name, entries, bad, more, others))
         == Error(DecodeEntry(traits, bad).error)
  {
    hide DecodeEntry, Filled;
    var stream := Array([Text(name), Array(FlatEntries(entries) + ([bad] + more))]);
    EntriesBehind(traits, [], entries, [bad] + more);
    StreamsBehind(traits, [], streams, [stream] + others);
  }

  /** The first entry that is wrong, wherever it stands, is rejected for what is
      wrong with it: it is no array, or of another size than two, or its fields
      are no array, or an odd number of them, or one of them or its id is no
      string. */
  lemma EntryRefused<E>(traits: Traits<E>, streams: seq<Stream<seq<Field>>>, name: string,
                        entries: seq<Entry<seq<Field>>>, bad: Rep, more: seq<Rep>, others: seq<Rep>)
    ensures var r := DecodeMulti(traits, [], Behind(streams, name, entries, bad, more, others));
            && (!bad.Array? ==> r == Error(NotAnArray))
            && (bad.Array? && |bad.elems| != 2 ==> r == Error(UnexpectedArraySize))
            && (bad.Array? && |bad.elems| == 2 ==>
                  var id, fields := bad.elems[0], bad.elems[1];
                  && (!fields.Array? ==> r == Error(NotAnArray))
                  && (fields.Array? && |fields.elems| % 2 == 1 ==> r == Error(OddFields))
                  && (fields.Array? && |fields.elems| % 2 == 0 && !(AllTexts(fields.elems) && id.Text?) ==>
                        r == Error(NotAString)))
  {
    if bad.Array? && |bad.elems| == 2 && bad.elems[1].Array? && |bad.elems[1].elems| % 2 == 0 {
      FieldsRefused(traits, traits.empty, bad.elems[1].elems);
    }
    if DecodeEntry(traits, bad).Error? {
      StopsAtEntry(traits, streams, name, entries, bad, more, others);
    }
  }

  /** And so is a stream that is no array, of another size than two, or without a
      name. */
  lemma StreamRefused<E>(traits: Traits<E>, streams: seq<Stream<seq<Field>>>, bad: Rep, others: seq<Rep>)
    ensures var r := DecodeMulti(traits, [], FlatStreams(streams) + ([bad] + others));
            && (!bad.Array? ==> r == Error(NotAnArray))
            && (bad.Array? && |bad.elems| != 2 ==> r == Error(UnexpectedArraySize))
            && (bad.Array? && |bad.elems| == 2 && !bad.elems[0].Text? ==> r == Error(NotAString))
            && (bad.Array? && |bad.elems| == 2 && bad.elems[0].Text? && !bad.elems[1].Array? ==>
                  r == Error(NotAnArray))
  {
    StreamsBehind(traits, [], streams, [bad] + others);
    assert DecodeNamed(traits, bad).Error? ==>
        DecodeMulti(traits, [] + FilledStreams(traits, streams), [bad] + others)
        == Error(DecodeNamed(traits, bad).error);
  }

  /** The vector type keeps the fields as they come. */
  lemma {:induction false} VectorKeepsAll(entry: seq<Field>, fields: seq<Field>)
    ensures Filled(VectorTraits(), entry, fields) == entry + fields
    decreases |fields|
  {
    if fields == [] {
      assert entry + fields == entry;
    } else {
      var f := fields[0];
      assert VectorTraits().setField(entry, f.0, f.1) == entry + [f];
      VectorKeepsAll(entry + [f], fields[1..]);
      assert entry + fields == entry + [f] + fields[1..];
    }
  }

  /** Flattened streams read into vectors are the streams again. */
  lemma VectorRoundTrip(streams: seq<Stream<seq<Field>>>)
    ensures DecodeMulti(VectorTraits(), [], FlatStreams(streams)) == Value(streams)
  {
    StreamsDecode(VectorTraits(), [], streams);
    var filled := FilledStreams(VectorTraits(), streams);
    forall k | 0 <= k < |streams| ensures filled[k] == streams[k] {
      SameEntries(streams[k].1);
    }
    assert [] + filled == streams;
  }

  lemma SameEntries(entries: seq<Entry<seq<Field>>>)
    ensures FilledEntries(VectorTraits(), entries) == entries
  {
    var filled := FilledEntries(VectorTraits(), entries);
    forall k | 0 <= k < |entries| ensures filled[k] == entries[k] {
      VectorKeepsAll([], entries[k].1);
      assert VectorTraits().empty + entries[k].1 == entries[k].1;
    }
  }

  /** The value of a name is that of its first field. */
  ghost predicate FirstWins(entry: map<string, string>, fields: seq<Field>) {
    && (forall k :: 0 <= k < |fields| ==> fields[k].0 in entry)
    && (forall name :: name in entry ==>
          exists k :: 0 <= k < |fields| && fields[k] == (name, entry[name])
                      && forall j :: 0 <= j < k ==> fields[j].0 != name)
  }

  lemma FirstWinsFurther(entry: map<string, string>, seen: seq<Field>, f: Field)
    requires FirstWins(entry, seen)
    ensures FirstWins(MapTraits().setField(entry, f.0, f.1), seen + [f])
  {
    var next, more := MapTraits().setField(entry, f.0, f.1), seen + [f];
    forall name | name in next
      ensures exists k :: 0 <= k < |more| && more[k] == (name, next[name])
                          && forall j :: 0 <= j < k ==> more[j].0 != name
    {
      if name in entry {
        var k :| 0 <= k < |seen| && seen[k] == (name, entry[name]) && forall j :: 0 <= j < k ==> seen[j].0 != name;
        assert more[k] == (name, next[name]);
      } else {
        assert more[|seen|] == (name, next[name]);
      }
    }
  }

  /** The first `n` fields have been filled in. */
  lemma {:induction false} FilledFirstWins(fields: seq<Field>, n: nat, entry: map<string, string>)
    requires n <= |fields| && FirstWins(entry, fields[..n])
    ensures FirstWins(Filled(MapTraits(), entry, fields[n..]), fields)
    decreases |fields| - n
  {
    hide FirstWins;
    if n == |fields| {
      assert fields[..n] == fields;
    } else {
      var f := fields[n];
      assert fields[n..][0] == f && fields[n..][1..] == fields[n + 1..];
      assert fields[..n + 1] == fields[..n] + [f];
      FirstWinsFurther(entry, fields[..n], f);
      FilledFirstWins(fields, n + 1, MapTraits().setField(entry, f.0, f.1));
    }
  }

  lemma AllFirstWin(fields: seq<Field>)
    ensures FirstWins(Filled(MapTraits(), MapTraits().empty, fields), fields)
  {
    assert fields[..0] == [] && fields[0..] == fields;
    FilledFirstWins(fields, 0, map[]);
  }

  /** Flattened streams read into maps: the same streams and entries in the same
      order, and in each entry the first value of every name, and no other name. */
  lemma MapKeepsFirst(streams: seq<Stream<seq<Field>>>)
    ensures var r := DecodeMulti(MapTraits(), [], FlatStreams(streams));
            && r.Value? && |r.value| == |streams|
            && forall s :: 0 <= s < |streams| ==> KeepsFirst(r.value[s], streams[s])
  {
    hide KeepsFirst;
    StreamsDecode(MapTraits(), [], streams);
    var filled := FilledStreams(MapTraits(), streams);
    assert [] + filled == filled;
    forall s | 0 <= s < |streams| ensures KeepsFirst(filled[s], streams[s]) {
      StreamKeepsFirst(streams[s]);
    }
  }

  lemma StreamKeepsFirst(stream: Stream<seq<Field>>)
    ensures KeepsFirst((stream.0, FilledEntries(MapTraits(), stream.1)), stream)
  {
    hide FirstWins, Filled;
    var entries := FilledEntries(MapTraits(), stream.1);
    forall e | 0 <= e < |entries| ensures FirstWins(entries[e].1, stream.1[e].1) {
      AllFirstWin(stream.1[e].1);
    }
  }

  ghost predicate KeepsFirst(stream: Stream<map<string, string>>, source: Stream<seq<Field>>) {
    && stream.0 == source.0 && |stream.1| == |source.1|
    && forall e :: 0 <= e < |source.1| ==>
         stream.1[e].0 == source.1[e].0 && FirstWins(stream.1[e].1, source.1[e].1)
  }
}
