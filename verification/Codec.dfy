// The composite binary codecs of include/red1z/io.h: fixed-size items, arrays
// and vectors of items, pairs and tuples, and the sequential writer and reader.
// A primitive is whatever trivially copyable type; its memory is taken as is.
module Codec {

  datatype Type =
    | Prim(size: nat)
    | ArrayType(elem: Type, n: nat)
    | VectorType(elem: Type)
    | PairType(fst: Type, snd: Type)
    | TupleType(ts: seq<Type>)

  /** has_item_io: the types with a fixed serialized size. */
  predicate IsItem(t: Type) {
    match t
    case Prim(size) => size > 0
    case ArrayType(elem, n) => n > 0 && IsItem(elem)
    case _ => false
  }

  predicate AllItems(ts: seq<Type>) {
    forall k :: 0 <= k < |ts| ==> IsItem(ts[k])
  }

  /** The types whose io has both a view and a read. */
  predicate Supported(t: Type) {
    match t
    case VectorType(elem) => IsItem(elem)
    case PairType(fst, snd) => IsItem(fst) && IsItem(snd)
    case TupleType(ts) => |ts| > 0 && AllItems(ts)
    case _ => IsItem(t)
  }

  /** item_size. */
  function Size(t: Type): (n: nat)
    requires IsItem(t)
    ensures n > 0
  {
    match t
    case Prim(size) => size
    case ArrayType(elem, n) => Times(n, Size(elem))
  }

  /** n * size, by repeated addition. */
  function Times(n: nat, size: nat): (r: nat)
    ensures n > 0 && size > 0 ==> r > 0
  {
    if n == 0 then 0 else size + Times(n - 1, size)
  }

  function Total(ts: seq<Type>): nat
    requires AllItems(ts)
  {
    if ts == [] then 0 else Size(ts[0]) + Total(ts[1..])
  }

  /** The offset of a tuple component: the sizes of those before it. */
  function Offset(ts: seq<Type>, i: nat): nat
    requires AllItems(ts) && i <= |ts|
  {
    Total(ts[..i])
  }

  // ------------------------------------------------------------- values

  datatype Val = Bits(memory: string) | Parts(parts: seq<Val>)

  predicate Has(t: Type, v: Val)
    requires IsItem(t)
    decreases t, 0
  {
    match t
    case Prim(size) => v.Bits? && |v.memory| == size
    case ArrayType(elem, n) => v.Parts? && |v.parts| == n && AllHave(elem, v.parts)
  }

  predicate AllHave(t: Type, vs: seq<Val>)
    requires IsItem(t)
    decreases t, 1
  {
    forall k :: 0 <= k < |vs| ==> Has(t, vs[k])
  }

  predicate HasParts(ts: seq<Type>, vs: seq<Val>)
    requires AllItems(ts)
  {
    |vs| == |ts| && forall k :: 0 <= k < |ts| ==> Has(ts[k], vs[k])
  }

  predicate HasAny(t: Type, v: Val)
    requires Supported(t)
  {
    match t
    case VectorType(elem) => v.Parts? && AllHave(elem, v.parts)
    case PairType(fst, snd) => v.Parts? && HasParts([fst, snd], v.parts)
    case TupleType(ts) => v.Parts? && HasParts(ts, v.parts)
    case _ => Has(t, v)
  }

  /** io<T>::view: containers, pairs and tuples are their parts one after the
      other. */
  function View(v: Val): string {
    match v
    case Bits(memory) => memory
    case Parts(parts) => ViewAll(parts)
  }

  function ViewAll(vs: seq<Val>): string {
    if vs == [] then "" else View(vs[0]) + ViewAll(vs[1..])
  }

  // ------------------------------------------------------------- reading

  /** Error is thrown; Undefined is a read or a write out of bounds, or a result
      of which a part is never written. */
  datatype Read<+T> = Ok(value: T) | Error | Undefined

  /** io<T>::read of an item. An array of primitives checks its length, an array
      of arrays only that the length is a multiple of the element size: with too
      many elements it writes behind its end, with too few it leaves the others
      uninitialised. */
  function ReadItem(t: Type, data: string): Read<Val>
    requires IsItem(t)
    decreases t, 0
  {
    match t
    case Prim(size) => if |data| == size then Ok(Bits(data)) else Error
    case ArrayType(elem, n) =>
      if |data| % Size(elem) != 0 then Error
      else if |data| != Size(t) then (if elem.Prim? then Error else Undefined)
      else
        match ReadItems(elem, data)
        case Ok(vs) => Ok(Parts(vs))
        case Error => Error
        case Undefined => Undefined
  }

  /** The element loop: as many items as there is data. */
  function ReadItems(t: Type, data: string): Read<seq<Val>>
    requires IsItem(t)
    decreases t, |data| + 1
  {
    if |data| < Size(t) then Ok([])
    else
      match ReadItem(t, data[..Size(t)])
      case Error => Error
      case Undefined => Undefined
      case Ok(v) =>
        match ReadItems(t, data[Size(t)..])
        case Ok(vs) => Ok([v] + vs)
        case Error => Error
        case Undefined => Undefined
  }

  /** The components of a tuple, each at its offset. */
  function ReadAt(ts: seq<Type>, i: nat, data: string): Read<seq<Val>>
    requires AllItems(ts) && i <= |ts| && Total(ts) <= |data|
    decreases |ts| - i
  {
    if i == |ts| then Ok([])
    else
      OffsetInside(ts, i);
      var o := Offset(ts, i);
      match ReadItem(ts[i], data[o..o + Size(ts[i])])
      case Error => Error
      case Undefined => Undefined
      case Ok(v) =>
        match ReadAt(ts, i + 1, data)
        case Ok(vs) => Ok([v] + vs)
        case Error => Error
        case Undefined => Undefined
  }

  lemma {:induction false} OffsetInside(ts: seq<Type>, i: nat)
    requires AllItems(ts) && i < |ts|
    ensures Offset(ts, i) + Size(ts[i]) == Offset(ts, i + 1) <= Total(ts)
  {
    if i == 0 {
      assert ts[..1][1..] == [];
    } else {
      OffsetInside(ts[1..], i - 1);
      assert ts[..i][1..] == ts[1..][..i - 1] && ts[..i + 1][1..] == ts[1..][..i];
    }
  }

  function Wrap(r: Read<seq<Val>>): Read<Val> {
    match r
    case Ok(vs) => Ok(Parts(vs))
    case Error => Error
    case Undefined => Undefined
  }

  /** io<T>::read. A pair checks the length of its data, a tuple of several
      components does not. */
  function ReadAny(t: Type, data: string): Read<Val>
    requires Supported(t)
  {
    match t
    case VectorType(elem) => if |data| % Size(elem) != 0 then Error else Wrap(ReadItems(elem, data))
    case PairType(fst, snd) =>
      var ts := [fst, snd];
      if |data| != Total(ts) then Error else Wrap(ReadAt(ts, 0, data))
    case TupleType(ts) =>
      if |ts| == 1 then
        match ReadItem(ts[0], data)
        case Ok(v) => Ok(Parts([v]))
        case Error => Error
        case Undefined => Undefined
      else if |data| < Total(ts) then Undefined
      else Wrap(ReadAt(ts, 0, data))
    case _ => ReadItem(t, data)
  }

  // ------------------------------------------------------------ lengths

  lemma ModShift(x: nat, n: nat)
    requires n > 0
    ensures (n + x) % n == x % n
  {
    var q, r := x / n, x % n;
    assert n + x == n * (q + 1) + r;
    ModUnique(n, q + 1, r);
  }

  lemma ModUnique(n: nat, q: nat, r: nat)
    requires r < n
    ensures (n * q + r) % n == r
  {
    var x := n * q + r;
    assert x == n * (x / n) + x % n;
    assert n * (q - x / n) == x % n - r;
    MulBound(n, q - x / n);
  }

  lemma MulBound(n: int, d: int)
    requires n >= 0
    ensures d >= 1 ==> n * d >= n
    ensures d <= -1 ==> n * d <= -n
  {
  }

  lemma {:induction false} TimesIsMultiple(k: nat, n: nat)
    requires n > 0
    ensures Times(k, n) % n == 0
  {
    if k == 0 {
    } else {
      TimesIsMultiple(k - 1, n);
      ModShift(Times(k - 1, n), n);
    }
  }

  lemma {:induction false} ViewLength(t: Type, v: Val)
    requires IsItem(t) && Has(t, v)
    ensures |View(v)| == Size(t)
    decreases t, 0
  {
    if t.ArrayType? {
      ViewAllLength(t.elem, v.parts);
    }
  }

  lemma {:induction false} ViewAllLength(t: Type, vs: seq<Val>)
    requires IsItem(t) && AllHave(t, vs)
    ensures |ViewAll(vs)| == Times(|vs|, Size(t))
    decreases t, |vs| + 1
  {
    if vs == [] {
    } else {
      ViewLength(t, vs[0]);
      ViewAllLength(t, vs[1..]);
    }
  }

  lemma {:induction false} PartsLength(ts: seq<Type>, vs: seq<Val>)
    requires AllItems(ts) && HasParts(ts, vs)
    ensures |ViewAll(vs)| == Total(ts)
  {
    if ts == [] {
    } else {
      ViewLength(ts[0], vs[0]);
      PartsLength(ts[1..], vs[1..]);
    }
  }

  // --------------------------------------------------------- round trips

  lemma {:induction false} ItemRoundTrip(t: Type, v: Val)
    requires IsItem(t) && Has(t, v)
    ensures ReadItem(t, View(v)) == Ok(v)
    decreases t, 0
  {
    if t.ArrayType? {
      ViewLength(t, v);
      ItemsRoundTrip(t.elem, v.parts);
      TimesIsMultiple(t.n, Size(t.elem));
    }
  }

  lemma {:induction false} ItemsRoundTrip(t: Type, vs: seq<Val>)
    requires IsItem(t) && AllHave(t, vs)
    ensures ReadItems(t, ViewAll(vs)) == Ok(vs)
    decreases t, |vs| + 1
  {
    if vs != [] {
      ViewLength(t, vs[0]);
      ItemRoundTrip(t, vs[0]);
      ItemsRoundTrip(t, vs[1..]);
      var data := ViewAll(vs);
      assert data[..Size(t)] == View(vs[0]) && data[Size(t)..] == ViewAll(vs[1..]);
      assert [vs[0]] + vs[1..] == vs;
    } else {
      assert ViewAll(vs) == "";
    }
  }

  /** The components tile the view of a tuple: component i lies at its offset,
      and the next one begins where it ends. */
  lemma {:induction false} ComponentAt(ts: seq<Type>, vs: seq<Val>, i: nat)
    requires AllItems(ts) && HasParts(ts, vs) && i < |ts|
    ensures Offset(ts, i) + Size(ts[i]) == Offset(ts, i + 1) <= |ViewAll(vs)|
    ensures ViewAll(vs)[Offset(ts, i)..Offset(ts, i + 1)] == View(vs[i])
  {
    PartsLength(ts, vs);
    OffsetInside(ts, i);
    ViewLength(ts[0], vs[0]);
    var head, tail := View(vs[0]), ViewAll(vs[1..]);
    assert ViewAll(vs) == head + tail;
    if i == 0 {
      assert ts[..0] == [] && Offset(ts, 0) == 0;
      assert (head + tail)[..|head|] == head;
    } else {
      ComponentAt(ts[1..], vs[1..], i - 1);
      assert ts[..i][1..] == ts[1..][..i - 1] && ts[..i + 1][1..] == ts[1..][..i];
      assert Offset(ts, i) == |head| + Offset(ts[1..], i - 1);
      assert Offset(ts, i + 1) == |head| + Offset(ts[1..], i);
      var a, b := Offset(ts[1..], i - 1), Offset(ts[1..], i);
      SliceBehind(head, tail, a, b);
    }
  }

  lemma SliceBehind(head: string, tail: string, a: nat, b: nat)
    requires a <= b <= |tail|
    ensures (head + tail)[|head| + a..|head| + b] == tail[a..b]
  {
  }

  lemma {:induction false} PartsRoundTrip(ts: seq<Type>, vs: seq<Val>, i: nat, extra: string)
    requires AllItems(ts) && HasParts(ts, vs) && i <= |ts|
    requires Total(ts) <= |ViewAll(vs) + extra|
    ensures ReadAt(ts, i, ViewAll(vs) + extra) == Ok(vs[i..])
    decreases |ts| - i
  {
    if i == |ts| {
    } else {
      ComponentAt(ts, vs, i);
      ItemRoundTrip(ts[i], vs[i]);
      PartsRoundTrip(ts, vs, i + 1, extra);
      var o, e := Offset(ts, i), Offset(ts, i + 1);
      assert (ViewAll(vs) + extra)[o..e] == ViewAll(vs)[o..e];
      assert vs[i..] == [vs[i]] + vs[i + 1..];
    }
  }

  /** Whatever value of a supported type is viewed is read back. */
  lemma RoundTrip(t: Type, v: Val)
    requires Supported(t) && HasAny(t, v)
    ensures ReadAny(t, View(v)) == Ok(v)
  {
    match t
    case VectorType(elem) =>
      ItemsRoundTrip(elem, v.parts);
      ViewAllLength(elem, v.parts);
      TimesIsMultiple(|v.parts|, Size(elem));
    case PairType(fst, snd) => TupleRoundTrip([fst, snd], v.parts, "");
    case TupleType(ts) =>
      TupleRoundTrip(ts, v.parts, "");
      if |ts| == 1 {
        ItemRoundTrip(ts[0], v.parts[0]);
        assert v.parts == [v.parts[0]];
        assert ViewAll(v.parts) == View(v.parts[0]) + "";
        assert View(v) == View(v.parts[0]);
      }
    case _ => ItemRoundTrip(t, v);
  }

  lemma TupleRoundTrip(ts: seq<Type>, vs: seq<Val>, extra: string)
    requires AllItems(ts) && HasParts(ts, vs)
    ensures |ViewAll(vs)| == Total(ts) && ViewAll(vs) + "" == ViewAll(vs)
    ensures ReadAt(ts, 0, ViewAll(vs) + extra) == Ok(vs)
  {
    PartsLength(ts, vs);
    PartsRoundTrip(ts, vs, 0, extra);
  }

  // -------------------------------------------------- what is read at all

  /** An item is read from exactly its size, and what is read has its type and
      that view. */
  lemma {:induction false} ItemRead(t: Type, data: string)
    requires IsItem(t)
    ensures ReadItem(t, data).Ok? <==> |data| == Size(t)
    ensures var r := ReadItem(t, data); r.Ok? ==> Has(t, r.value) && View(r.value) == data
    ensures ReadItem(t, data) == Undefined <==>
              t.ArrayType? && !t.elem.Prim? && |data| % Size(t.elem) == 0 && |data| != Size(t)
    decreases t, 0
  {
    if t.ArrayType? && |data| == Size(t) {
      TimesIsMultiple(t.n, Size(t.elem));
      ItemsRead(t.elem, data, t.n);
    }
  }

  lemma {:induction false} ItemsRead(t: Type, data: string, n: nat)
    requires IsItem(t) && |data| == Times(n, Size(t))
    ensures var r := ReadItems(t, data);
            r.Ok? && |r.value| == n && AllHave(t, r.value) && ViewAll(r.value) == data
    decreases t, n + 1
  {
    if n == 0 {
    } else {
      ItemRead(t, data[..Size(t)]);
      ItemsRead(t, data[Size(t)..], n - 1);
      assert data == data[..Size(t)] + data[Size(t)..];
    }
  }

  lemma {:induction false} MultipleIsTimes(x: nat, n: nat) returns (k: nat)
    requires n > 0 && x % n == 0
    ensures x == Times(k, n)
  {
    if x < n {
      ModUnique(n, 0, x);
      k := 0;
    } else {
      ModShift(x - n, n);
      assert n + (x - n) == x;
      k := MultipleIsTimes(x - n, n);
      k := k + 1;
    }
  }

  /** A vector is read from exactly the lengths that its item size divides. */
  lemma VectorRead(elem: Type, data: string)
    requires IsItem(elem)
    ensures var r := ReadAny(VectorType(elem), data);
            && (r.Ok? <==> |data| % Size(elem) == 0)
            && (r.Ok? ==> HasAny(VectorType(elem), r.value) && View(r.value) == data)
            && (!r.Ok? ==> r == Error)
  {
    if |data| % Size(elem) == 0 {
      var n := MultipleIsTimes(|data|, Size(elem));
      ItemsRead(elem, data, n);
    }
  }

  lemma SliceJoin(data: string, o: nat, e: nat, n: nat)
    requires o <= e <= n <= |data|
    ensures data[o..e] + data[e..n] == data[o..n]
  {
  }

  /** What ReadAt has read of the components from `i` on. */
  predicate ReadBehind(ts: seq<Type>, i: nat, data: string, vs: seq<Val>)
    requires AllItems(ts) && i <= |ts| && Total(ts) <= |data|
  {
    && |vs| == |ts| - i
    && (forall k :: 0 <= k < |vs| ==> Has(ts[i + k], vs[k]))
    && Offset(ts, i) <= Total(ts) && ViewAll(vs) == data[Offset(ts, i)..Total(ts)]
  }

  lemma {:induction false} PartsRead(ts: seq<Type>, i: nat, data: string)
    requires AllItems(ts) && i <= |ts| && Total(ts) <= |data|
    ensures var r := ReadAt(ts, i, data); r.Ok? && ReadBehind(ts, i, data, r.value)
    decreases |ts| - i
  {
    if i == |ts| {
      assert ts[..i] == ts;
    } else {
      OffsetInside(ts, i);
      var o, e := Offset(ts, i), Offset(ts, i + 1);
      ItemRead(ts[i], data[o..e]);
      PartsRead(ts, i + 1, data);
      OneMoreRead(ts, i, data, ReadItem(ts[i], data[o..e]).value, ReadAt(ts, i + 1, data).value);
    }
  }

  lemma OneMoreRead(ts: seq<Type>, i: nat, data: string, v: Val, vs: seq<Val>)
    requires AllItems(ts) && i < |ts| && Total(ts) <= |data|
    requires ReadBehind(ts, i + 1, data, vs) && Has(ts[i], v)
    requires Offset(ts, i) <= Offset(ts, i + 1) && View(v) == data[Offset(ts, i)..Offset(ts, i + 1)]
    ensures ReadBehind(ts, i, data, [v] + vs)
  {
    SliceJoin(data, Offset(ts, i), Offset(ts, i + 1), Total(ts));
    var all := [v] + vs;
    assert all[1..] == vs;
    forall k | 0 <= k < |all| ensures Has(ts[i + k], all[k]) {
      if k > 0 {
        assert all[k] == vs[k - 1] && ts[i + k] == ts[i + 1 + (k - 1)];
      }
    }
  }

  /** A pair is read from exactly its size. A tuple of several components is
      read from any data that is long enough, and ignores what is behind. */
  lemma TupleRead(ts: seq<Type>, data: string)
    requires |ts| > 1 && AllItems(ts)
    ensures var r := ReadAny(TupleType(ts), data);
            && (r.Ok? <==> |data| >= Total(ts)) && r != Error
            && (r.Ok? ==> HasAny(TupleType(ts), r.value) && View(r.value) == data[..Total(ts)])
    ensures |ts| == 2 ==>
              var r := ReadAny(PairType(ts[0], ts[1]), data);
              && (r.Ok? <==> |data| == Total(ts))
              && (r.Ok? ==> HasAny(PairType(ts[0], ts[1]), r.value) && View(r.value) == data)
              && (!r.Ok? ==> r == Error)
  {
    assert ts[..0] == [];
    if |ts| == 2 {
      assert [ts[0], ts[1]] == ts;
    }
    if |data| >= Total(ts) {
      PartsRead(ts, 0, data);
      assert data[0..Total(ts)] == data[..Total(ts)];
    }
  }

  /** The lengths from which a type is read. */
  predicate RightLength(t: Type, n: nat)
    requires Supported(t)
  {
    match t
    case VectorType(elem) => n % Size(elem) == 0
    case PairType(fst, snd) => n == Size(fst) + Size(snd)
    case TupleType(ts) => if |ts| == 1 then n == Size(ts[0]) else n >= Total(ts)
    case _ => n == Size(t)
  }

  /** The lengths that are wrong and not noticed: another number of elements for
      an array of arrays, too little for a tuple of several components. */
  predicate Unnoticed(t: Type, n: nat)
    requires Supported(t)
  {
    match t
    case ArrayType(elem, _) => !elem.Prim? && n % Size(elem) == 0 && n != Size(t)
    case TupleType(ts) => if |ts| == 1 then Unnoticed(ts[0], n) else n < Total(ts)
    case _ => false
  }

  lemma TotalOfTwo(fst: Type, snd: Type)
    requires IsItem(fst) && IsItem(snd)
    ensures Total([fst, snd]) == Size(fst) + Size(snd)
  {
    assert [fst, snd][1..] == [snd] && [snd][1..] == [];
    assert Total([snd]) == Size(snd) + Total([]);
  }

  /** What becomes of any data: it is read from the right lengths, and of the
      others all are refused but those that go unnoticed. */
  lemma ReadOrRefused(t: Type, data: string)
    requires Supported(t)
    ensures var r := ReadAny(t, data);
            && (r.Ok? <==> RightLength(t, |data|))
            && (r == Undefined <==> Unnoticed(t, |data|))
  {
    match t
    case VectorType(elem) => VectorRead(elem, data);
    case PairType(fst, snd) =>
      TupleRead([fst, snd], data);
      TotalOfTwo(fst, snd);
    case TupleType(ts) =>
      if |ts| == 1 {
        ItemRead(ts[0], data);
      } else {
        TupleRead(ts, data);
      }
    case _ => ItemRead(t, data);
  }

  /** Data of the wrong size that is not noticed: an array of two arrays of two
      bytes reads two bytes, and six. Three are refused. */
  lemma ArrayOfArrays()
    ensures var t := ArrayType(ArrayType(Prim(1), 2), 2);
            && ReadAny(t, "ab") == Undefined && ReadAny(t, "abcdef") == Undefined
            && ReadAny(t, "abc") == Error && ReadAny(t, "abcd").Ok?
  {
    var elem := ArrayType(Prim(1), 2);
    assert Size(elem) == 1 + (1 + 0);
    assert Size(ArrayType(elem, 2)) == 2 + (2 + 0);
    ReadOrRefused(ArrayType(elem, 2), "ab");
    ReadOrRefused(ArrayType(elem, 2), "abcdef");
    ReadOrRefused(ArrayType(elem, 2), "abc");
    ReadOrRefused(ArrayType(elem, 2), "abcd");
  }

  /** A tuple of an array of two items of two bytes and an item of one byte, byte
      for byte. */
  lemma BytesOfATuple()
    ensures var t, v := TupleType([ArrayType(Prim(2), 2), Prim(1)]),
                        Parts([Parts([Bits("ab"), Bits("cd")]), Bits("e")]);
            View(v) == "abcde" && Supported(t) && ReadAny(t, "abcde") == Ok(v)
  {
    var pair := [Bits("ab"), Bits("cd")];
    assert pair[1..] == [Bits("cd")] && pair[1..][1..] == [];
    assert ViewAll(pair[1..]) == "cd" + "" && ViewAll(pair) == "abcd";
    var parts := [Parts(pair), Bits("e")];
    assert parts[1..] == [Bits("e")] && parts[1..][1..] == [];
    assert ViewAll(parts[1..]) == "e" + "";
    assert ViewAll(parts) == "abcd" + "e";
    var ts := [ArrayType(Prim(2), 2), Prim(1)];
    assert AllHave(Prim(2), pair) && HasParts(ts, parts);
    RoundTrip(TupleType(ts), Parts(parts));
  }

  // ------------------------------------------------- the loops over items

  /** The loop of contiguous_container_io::view. */
  method ViewItems(vs: seq<Val>) returns (out: string)
    ensures out == ViewAll(vs)
  {
    out := "";
    for i := 0 to |vs|
      invariant ViewAll(vs) == out + ViewAll(vs[i..])
    {
      assert vs[i..][1..] == vs[i + 1..];
      out := out + View(vs[i]);
    }
    assert vs[|vs|..] == [];
  }

  /** The loop of vector_string_io::read_generic. */
  method ReadVector(elem: Type, data: string) returns (r: Read<Val>)
    requires IsItem(elem)
    ensures r == ReadAny(VectorType(elem), data)
  {
    hide Has, ReadItem, ViewAll, Size;
    var size := Size(elem);
    if |data| % size != 0 {
      return Error;
    }
    var n := |data| / size;
    var out: seq<Val> := [];
    var at := 0;
    CountOfItems(|data|, size);
    ItemsRead(elem, data, n);
    BehindAll([], [], ReadItems(elem, data));
    for i := 0 to n
      invariant at <= |data| && |data[at..]| == Times(n - i, size)
      invariant ReadItems(elem, data) == Behind(out, ReadItems(elem, data[at..]))
    {
      var chunk := data[at..at + size];
      assert data[at..][..size] == chunk && data[at..][size..] == data[at + size..];
      ItemRead(elem, chunk);
      ItemsRead(elem, data[at + size..], n - i - 1);
      var v := ReadItem(elem, chunk).value;
      FirstItem(elem, data[at..], out);
      out := out + [v];
      at := at + size;
    }
    assert out + [] == out;
    return Ok(Parts(out));
  }

  lemma FirstItem(elem: Type, data: string, out: seq<Val>)
    requires IsItem(elem) && Size(elem) <= |data| && ReadItem(elem, data[..Size(elem)]).Ok?
    ensures var v := ReadItem(elem, data[..Size(elem)]).value;
            Behind(out, ReadItems(elem, data)) == Behind(out + [v], ReadItems(elem, data[Size(elem)..]))
  {
    BehindAll(out, [ReadItem(elem, data[..Size(elem)]).value], ReadItems(elem, data[Size(elem)..]));
  }

  lemma {:induction false} CountOfItems(x: nat, n: nat)
    requires n > 0 && x % n == 0
    ensures x == Times(x / n, n)
  {
    TimesIsProduct(x / n, n);
  }

  lemma {:induction false} TimesIsProduct(k: nat, n: nat)
    ensures Times(k, n) == k * n
  {
    if k == 0 {
    } else {
      TimesIsProduct(k - 1, n);
      assert (k - 1) * n + n == k * n;
    }
  }

  function Behind(vs: seq<Val>, r: Read<seq<Val>>): Read<seq<Val>> {
    if r.Ok? then Ok(vs + r.value) else r
  }

  lemma BehindAll(a: seq<Val>, b: seq<Val>, r: Read<seq<Val>>)
    ensures Behind([], r) == r
    ensures Behind(a + b, r) == Behind(a, Behind(b, r))
  {
    if r.Ok? {
      assert [] + r.value == r.value;
      assert a + b + r.value == a + (b + r.value);
    }
  }

  // ------------------------------------------- the sequential writer and reader

  /** What reading items of the types `ts` one after the other comes to: the
      values, or the Error of the first that exceeds what is left. */
  function ReadSeq(ts: seq<Type>, data: string): Read<seq<Val>>
    requires AllItems(ts)
  {
    if ts == [] then Ok([])
    else if Size(ts[0]) > |data| then Error
    else
      match ReadItem(ts[0], data[..Size(ts[0])])
      case Error => Error
      case Undefined => Undefined
      case Ok(v) => Behind([v], ReadSeq(ts[1..], data[Size(ts[0])..]))
  }

  class IoWriter {
    var data: string

    constructor (data: string)
      ensures this.data == data
    {
      this.data := data;
    }

    method Write(v: Val)
      modifies this
      ensures data == old(data) + View(v)
    {
      data := data + View(v);
    }

    /** Writes of several items one after the other. */
    method WriteMany(vs: seq<Val>)
      modifies this
      ensures data == old(data) + ViewAll(vs)
    {
      ghost var all := old(data) + ViewAll(vs);
      assert vs[0..] == vs;
      for i := 0 to |vs|
        invariant all == data + ViewAll(vs[i..])
      {
        assert vs[i..][1..] == vs[i + 1..];
        assert data + (View(vs[i]) + ViewAll(vs[i + 1..])) == data + View(vs[i]) + ViewAll(vs[i + 1..]);
        Write(vs[i]);
      }
      assert vs[|vs|..] == [];
    }
  }

  class IoReader {
    const all: string
    var pos: nat
    var bytes: nat

    ghost predicate Valid()
      reads this
    {
      pos + bytes == |all|
    }

    constructor (data: string)
      ensures Valid() && all == data && pos == 0
    {
      all, pos, bytes := data, 0, |data|;
    }

    /** read(T&): an item off the front, or an Error that moves nothing. */
    method Read(t: Type) returns (r: Read<Val>)
      requires Valid() && IsItem(t)
      modifies this
      ensures Valid()
      ensures r.Ok? <==> Size(t) <= old(bytes)
      ensures r.Ok? ==> Has(t, r.value) && pos == old(pos) + Size(t) && all[old(pos)..pos] == View(r.value)
      ensures !r.Ok? ==> r == Error && pos == old(pos)
    {
      var n := Size(t);
      if n > bytes {
        return Error;
      }
      ItemRead(t, all[pos..pos + n]);
      r := ReadItem(t, all[pos..pos + n]);
      pos := pos + n;
      bytes := bytes - n;
    }

    /** Reads of several items, as easy_read does them. */
    method ReadMany(ts: seq<Type>) returns (r: Read<seq<Val>>)
      requires Valid() && AllItems(ts)
      modifies this
      ensures Valid() && old(pos) <= pos
      ensures r == ReadSeq(ts, all[old(pos)..])
      ensures r.Ok? ==> all[old(pos)..pos] == ViewAll(r.value)
      decreases |ts|
    {
      if ts == [] {
        return Ok([]);
      }
      ghost var before := all[pos..];
      var v := Read(ts[0]);
      if !v.Ok? {
        return Error;
      }
      ghost var mid := pos;
      assert before[..Size(ts[0])] == all[old(pos)..pos] && before[Size(ts[0])..] == all[pos..];
      ItemRoundTrip(ts[0], v.value);
      var more := ReadMany(ts[1..]);
      SliceJoin(all, old(pos), mid, pos);
      r := match more
           case Ok(vs) => Ok([v.value] + vs)
           case Error => Error
           case Undefined => Undefined;
    }
  }

  /** What has been written item by item is read back by the same types, from
      whatever follows it; with too little data the read is refused. */
  lemma {:induction false} ReadsWhatWasWritten(ts: seq<Type>, vs: seq<Val>, extra: string)
    requires AllItems(ts) && HasParts(ts, vs)
    ensures ReadSeq(ts, ViewAll(vs) + extra) == Ok(vs)
  {
    if ts == [] {
    } else {
      ViewLength(ts[0], vs[0]);
      ItemRoundTrip(ts[0], vs[0]);
      ReadsWhatWasWritten(ts[1..], vs[1..], extra);
      var data := ViewAll(vs) + extra;
      assert data == View(vs[0]) + (ViewAll(vs[1..]) + extra);
      assert data[..Size(ts[0])] == View(vs[0]);
      assert data[Size(ts[0])..] == ViewAll(vs[1..]) + extra;
      assert [vs[0]] + vs[1..] == vs;
    }
  }

  /** Writing items and reading them back: a reader opened on what was written,
      whatever follows it, gives the same items and stops right behind them. */
  method WriteThenRead(ts: seq<Type>, vs: seq<Val>, extra: string) returns (r: Read<seq<Val>>, left: nat)
    requires AllItems(ts) && HasParts(ts, vs)
    ensures r == Ok(vs) && left == |extra|
  {
    var writer := new IoWriter("");
    writer.WriteMany(vs);
    var reader := new IoReader(writer.data + extra);
    assert reader.all[0..] == reader.all == ViewAll(vs) + extra;
    ReadsWhatWasWritten(ts, vs, extra);
    r := reader.ReadMany(ts);
    left := reader.bytes;
  }

  lemma {:induction false} ReadsAllOrRefuses(ts: seq<Type>, data: string)
    requires AllItems(ts)
    ensures var r := ReadSeq(ts, data);
            && (r.Ok? <==> Total(ts) <= |data|)
            && (r.Ok? ==> HasParts(ts, r.value) && ViewAll(r.value) == data[..Total(ts)])
            && (!r.Ok? ==> r == Error)
  {
    if ts != [] && Size(ts[0]) <= |data| {
      var n := Size(ts[0]);
      ItemRead(ts[0], data[..n]);
      ReadsAllOrRefuses(ts[1..], data[n..]);
      if Total(ts) <= |data| {
        assert data[..n] + data[n..][..Total(ts) - n] == data[..Total(ts)];
      }
    }
  }
}
