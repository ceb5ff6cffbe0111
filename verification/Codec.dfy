/** The untagged value codec: the packer and the two separately written
    decoders of `src/mixed.rs`. */
module Codec {
  import opened Words
  import opened Endian
  import opened Wrappers

  type word64 = x: int | 0 <= x < 0x1_0000_0000_0000_0000

  /** A Python object as the codec sees it. `Float` holds the bit pattern of the
      double, `Str` the UTF-8 bytes, `Raw` a `bytes` or `bytearray`; `Other` is
      any unsupported object, a list inside a list included. */
  datatype Value =
    | Bool(b: bool)
    | Int(i: int)
    | Float(bits: word64)
    | Str(utf8: seq<byte>)
    | Raw(bytes: seq<byte>)
    | Other

  /** An element of a list argument or of a decoded list: a plain value or a sub-list. */
  datatype Item = One(v: Value) | Group(vs: seq<Value>)

  datatype Tag =
    | TBool | TU8 | TF32 | TI32 | TU32 | TInt | TI64 | TFloat | TF64 | TU64 | TStr
    | Unknown(name: string)

  /** A schema entry; `Malformed` is anything but a `(str, non-negative int)` tuple. */
  datatype Entry = Entry(tag: Tag, count: nat) | Malformed

  // ---------------------------------------------------------------- packing

  predicate IsI64(i: int) {
    -0x8000_0000_0000_0000 <= i < 0x8000_0000_0000_0000
  }

  /** The values `pack_value` accepts. */
  predicate Packable(v: Value) {
    !v.Other? && (v.Int? ==> IsI64(v.i))
  }

  predicate AllPackable(vs: seq<Value>) {
    vs == [] || (Packable(vs[0]) && AllPackable(vs[1..]))
  }

  /** The bytes of one value. The string length is cast with `as u32`. */
  function Bytes(v: Value): seq<byte>
    requires Packable(v)
  {
    match v
    case Bool(b) => [if b then 1 else 0]
    case Int(i) => NeBytes(Wrap(i), 8)
    case Float(bits) => NeBytes(bits, 8)
    case Str(s) => NeBytes(|s| % TWO32, 4) + s
    case Raw(bs) => bs
  }

  function AllBytes(vs: seq<Value>): seq<byte>
    requires AllPackable(vs)
  {
    if vs == [] then [] else Bytes(vs[0]) + AllBytes(vs[1..])
  }

  function Values(item: Item): seq<Value> {
    match item
    case One(v) => [v]
    case Group(vs) => vs
  }

  function Flatten(items: seq<Item>): seq<Value> {
    if items == [] then [] else Values(items[0]) + Flatten(items[1..])
  }

  function Packed(vs: seq<Value>): Result<seq<byte>> {
    if AllPackable(vs) then Ok(AllBytes(vs)) else Err
  }

  /** The growable byte vector the packer appends to. */
  class ByteVec {
    var bytes: seq<byte>

    constructor ()
      ensures bytes == []
    {
      bytes := [];
    }

    method Extend(src: seq<byte>)
      modifies this
      ensures bytes == old(bytes) + src
    {
      bytes := bytes + src;
    }
  }

  /** Appends one value, or fails and leaves the vector alone. */
  method PackValue(v: Value, out: ByteVec) returns (ok: bool)
    modifies out
    ensures ok == Packable(v)
    ensures ok <==> !v.Other? && (v.Int? ==> -0x8000_0000_0000_0000 <= v.i <= 0x7FFF_FFFF_FFFF_FFFF)
    ensures out.bytes == old(out.bytes) + if ok then Bytes(v) else []
    ensures v.Raw? ==> out.bytes == old(out.bytes) + v.bytes
    ensures v.Str? ==> out.bytes == old(out.bytes) + (NeBytes(|v.utf8| % TWO32, 4) + v.utf8)
    ensures v.Bool? ==> out.bytes == old(out.bytes) + [if v.b then 1 else 0]
    ensures v.Float? ==> out.bytes == old(out.bytes) + NeBytes(v.bits, 8)
    ensures v.Int? && ok ==> out.bytes == old(out.bytes) + NeBytes(v.i % TWO64, 8)
  {
    hide NeBytes;
    ok := true;
    match v {
      case Bool(b) => out.Extend([if b then 1 else 0]);
      case Int(i) =>
        if !IsI64(i) {
          return false;
        }
        out.Extend(NeBytes(Wrap(i), 8));
      case Float(bits) => out.Extend(NeBytes(bits, 8));
      case Str(s) =>
        out.Extend(NeBytes(|s| % TWO32, 4));
        out.Extend(s);
      case Raw(bs) => out.Extend(bs);
      case Other => ok := false;
    }
  }

  lemma {:induction false} PackConcat(a: seq<Value>, b: seq<Value>)
    ensures AllPackable(a + b) <==> AllPackable(a) && AllPackable(b)
    ensures AllPackable(a + b) ==> AllBytes(a + b) == AllBytes(a) + AllBytes(b)
  {
    if a == [] {
      assert a + b == b;
    } else {
      PackConcat(a[1..], b);
      assert (a + b)[1..] == a[1..] + b;
    }
  }

  lemma PackNext(vs: seq<Value>, k: nat)
    requires k < |vs| && AllPackable(vs[..k])
    ensures AllPackable(vs) ==> Packable(vs[k])
    ensures AllPackable(vs[..k + 1]) <==> Packable(vs[k])
    ensures Packable(vs[k]) ==> AllBytes(vs[..k + 1]) == AllBytes(vs[..k]) + Bytes(vs[k])
  {
    var one := [vs[k]];
    assert one[1..] == [];
    assert vs[..k + 1] == vs[..k] + one;
    assert vs == vs[..k + 1] + vs[k + 1..];
    PackConcat(vs[..k], one);
    PackConcat(vs[..k + 1], vs[k + 1..]);
    if Packable(vs[k]) {
      assert AllBytes(one) == Bytes(vs[k]) + AllBytes([]);
    }
  }

  /** A list packs exactly when each of its elements does. */
  lemma {:induction false} AllPackableExact(vs: seq<Value>)
    ensures AllPackable(vs) <==> forall k :: 0 <= k < |vs| ==> Packable(vs[k])
  {
    hide Packable;
    if vs != [] {
      AllPackableExact(vs[1..]);
      if AllPackable(vs) {
        forall k | 0 <= k < |vs|
          ensures Packable(vs[k])
        {
          assert k > 0 ==> vs[k] == vs[1..][k - 1];
        }
      }
    }
  }

  lemma PackNone()
    ensures AllPackable([]) && AllBytes([]) == []
  {
  }

  /** Appends every value of one list, stopping at the first failure. */
  method PackList(vs: seq<Value>, out: ByteVec) returns (ok: bool)
    modifies out
    ensures ok == AllPackable(vs)
    ensures ok <==> forall k :: 0 <= k < |vs| ==> Packable(vs[k])
    ensures ok ==> out.bytes == old(out.bytes) + AllBytes(vs)
  {
    hide AllPackable, AllBytes, Bytes, Packable;
    AllPackableExact(vs);
    PackNone();
    ok := true;
    ghost var start := out.bytes;
    for k := 0 to |vs|
      invariant ok && AllPackable(vs[..k])
      invariant out.bytes == start + AllBytes(vs[..k])
    {
      PackNext(vs, k);
      ok := PackValue(vs[k], out);
      if !ok {
        return;
      }
    }
    assert vs[..|vs|] == vs;
  }

  lemma {:induction false} FlattenConcat(a: seq<Item>, b: seq<Item>)
    ensures Flatten(a + b) == Flatten(a) + Flatten(b)
  {
    hide Values;
    if a == [] {
      assert a + b == b;
    } else {
      FlattenConcat(a[1..], b);
      assert (a + b)[1..] == a[1..] + b;
      Assoc(Values(a[0]), Flatten(a[1..]), Flatten(b));
    }
  }

  lemma FlattenCons(item: Item, rest: seq<Item>)
    ensures Flatten([item] + rest) == Values(item) + Flatten(rest)
  {
    hide Values;
    assert ([item] + rest)[1..] == rest;
  }

  lemma FlattenOne(item: Item)
    ensures Flatten([item]) == Values(item)
  {
    assert [item][1..] == [] && Flatten([item]) == Values(item) + [];
  }

  lemma FlattenNext(items: seq<Item>, k: nat)
    requires k < |items| && AllPackable(Flatten(items[..k]))
    ensures var vs := Values(items[k]);
            && (AllPackable(Flatten(items)) ==> AllPackable(vs))
            && (AllPackable(Flatten(items[..k + 1])) <==> AllPackable(vs))
            && (AllPackable(vs) ==>
                  AllBytes(Flatten(items[..k + 1])) == AllBytes(Flatten(items[..k])) + AllBytes(vs))
  {
    hide AllPackable, AllBytes, Flatten, Values;
    var one, vs, rest := [items[k]], Values(items[k]), Flatten(items[k + 1..]);
    FlattenOne(items[k]);
    assert items[..k + 1] == items[..k] + one;
    assert items == items[..k + 1] + items[k + 1..];
    FlattenConcat(items[..k], one);
    FlattenConcat(items[..k + 1], items[k + 1..]);
    PackConcat(Flatten(items[..k]), vs);
    PackConcat(Flatten(items[..k + 1]), rest);
  }

  lemma PackSingle(v: Value)
    ensures AllPackable([v]) <==> Packable(v)
    ensures Packable(v) ==> AllBytes([v]) == Bytes(v)
  {
    assert [v][1..] == [];
    if Packable(v) {
      assert AllBytes([v]) == Bytes(v) + [];
    }
  }

  /** Packs a list whose elements may be grouped one level deep: the result depends
      only on the flattened sequence of values. */
  method PackMixed(items: seq<Item>) returns (r: Result<seq<byte>>)
    ensures r == Packed(Flatten(items))
    ensures r.Ok? <==> forall v :: v in Flatten(items) ==> Packable(v)
  {
    hide AllPackable, AllBytes, Packable;
    AllPackableExact(Flatten(items));
    PackNone();
    var out := new ByteVec();
    for k := 0 to |items|
      invariant AllPackable(Flatten(items[..k]))
      invariant out.bytes == AllBytes(Flatten(items[..k]))
    {
      FlattenNext(items, k);
      var ok: bool;
      match items[k] {
        case Group(sub) =>
          ok := PackList(sub, out);
        case One(v) =>
          PackSingle(v);
          ok := PackValue(v, out);
      }
      if !ok {
        return Err;
      }
    }
    assert items[..|items|] == items;
    r := Ok(out.bytes);
  }

  // -------------------------------------------------------------- decoding

  /** Exact widening of a single-precision bit pattern, as in the conversion of
      an `f32` to a Python float (a NaN keeps its payload bits). */
  function Widen(w: nat): word64
    requires w < TWO32
  {
    var sign, e, m := w / 0x8000_0000, w / 0x80_0000 % 256, w % 0x80_0000;
    sign * 0x8000_0000_0000_0000 +
    if e == 255 then 0x7FF0_0000_0000_0000 + m * 0x2000_0000
    else if e > 0 then (e + 896) * 0x10_0000_0000_0000 + m * 0x2000_0000
    else if m == 0 then 0
    else WidenSubnormal(m, 897)
  }

  function WidenSubnormal(m: nat, e: nat): (r: nat)
    requires 0 < m < 0x100_0000 && e <= 897
    ensures r < 0x8000_0000_0000_0000
    decreases 0x100_0000 - m
  {
    if m >= 0x80_0000 || e == 0 then e * 0x10_0000_0000_0000 + m % 0x80_0000 * 0x2000_0000
    else WidenSubnormal(2 * m, e - 1)
  }

  /** `from_ne_bytes` at the fixed-width type a tag names, as a Python object. */
  function Interpret(tag: Tag, bs: seq<byte>): Value
    requires |bs| == Width(tag)
  {
    NeRange(bs);
    Widths();
    match tag
    case TU8 | TU32 | TU64 => Int(NeNat(bs))
    case TI32 => Int(Signed(NeNat(bs), TWO32))
    case TInt | TI64 => Int(Signed(NeNat(bs), TWO64))
    case TF32 => Float(Widen(NeNat(bs)))
    case TFloat | TF64 => Float(NeNat(bs))
    case _ => Other
  }

  /** The size of a fixed-width tag. */
  function Width(tag: Tag): nat {
    match tag
    case TBool | TU8 => 1
    case TF32 | TI32 | TU32 => 4
    case TInt | TI64 | TFloat | TF64 | TU64 => 8
    case _ => 0
  }

  /** Reads one value from the front of a slice; the second component is the number
      of bytes consumed. */
  function UnpackOne(data: seq<byte>, tag: Tag): (r: Result<(Value, nat)>)
    ensures r.Ok? ==> 0 < r.value.1 <= |data|
  {
    match tag
    case TBool =>
      if data == [] then Err else Ok((Bool(data[0] != 0), 1))
    case TU8 =>
      if |data| < 1 then Err else Ok((Interpret(tag, data[..1]), 1))
    case TF32 | TI32 | TU32 =>
      if |data| < 4 then Err else Ok((Interpret(tag, data[..4]), 4))
    case TInt | TFloat | TI64 | TF64 | TU64 =>
      if |data| < 8 then Err else Ok((Interpret(tag, data[..8]), 8))
    case TStr =>
      if |data| < 4 then Err
      else
        var len := NeNat(data[..4]);
        if |data| < 4 + len then Err else Ok((Str(data[4..4 + len]), 4 + len))
    case Unknown(_) => Err
  }

  /** Puts an already decoded part in front of the result of decoding the rest. */
  function Extend<T>(xs: seq<T>, k: nat, rest: Result<(seq<T>, nat)>): Result<(seq<T>, nat)> {
    match rest
    case Err => Err
    case Ok((ys, m)) => Ok((xs + ys, k + m))
  }

  lemma ExtendTwice<T>(xs: seq<T>, k: nat, ys: seq<T>, m: nat, rest: Result<(seq<T>, nat)>)
    ensures Extend(xs, k, Extend(ys, m, rest)) == Extend(xs + ys, k + m, rest)
    ensures Extend([], 0, rest) == rest
    ensures Extend(xs, k, Err) == Err && Extend(xs, k, Ok((ys, m))) == Ok((xs + ys, k + m))
  {
    if rest.Ok? {
      assert xs + (ys + rest.value.0) == (xs + ys) + rest.value.0;
      assert [] + rest.value.0 == rest.value.0;
    }
  }

  /** `UnpackOne` iterated over successive suffixes. */
  function ReadN(data: seq<byte>, tag: Tag, n: nat): (r: Result<(seq<Value>, nat)>)
    ensures r.Ok? ==> |r.value.0| == n && r.value.1 <= |data|
    decreases n
  {
    if n == 0 then Ok(([], 0))
    else
      match UnpackOne(data, tag)
      case Err => Err
      case Ok((v, k)) =>
        Extend([v], k, ReadN(data[k..], tag, n - 1))
  }

  /** A group of one collapses to its only element. */
  function Collapse(vs: seq<Value>): Item {
    if |vs| == 1 then One(vs[0]) else Group(vs)
  }

  /** Reading a schema, one group after the other, each from the rest of the data.
      An unknown tag fails even with count 0. */
  function Decode(data: seq<byte>, schema: seq<Entry>): (r: Result<(seq<Item>, nat)>)
    ensures r.Ok? ==> |r.value.0| == |schema| && r.value.1 <= |data|
  {
    if schema == [] then Ok(([], 0))
    else if schema[0].Malformed? || schema[0].tag.Unknown? then Err
    else
      match ReadN(data, schema[0].tag, schema[0].count)
      case Err => Err
      case Ok((vs, k)) => Extend([Collapse(vs)], k, Decode(data[k..], schema[1..]))
  }

  lemma {:induction false} ReadNSplit(data: seq<byte>, tag: Tag, a: nat, b: nat)
    ensures ReadN(data, tag, a + b) ==
            match ReadN(data, tag, a)
            case Err => Err
            case Ok((vs, k)) => Extend(vs, k, ReadN(data[k..], tag, b))
    decreases a
  {
    hide UnpackOne, Extend;
    if a == 0 {
      assert data[0..] == data;
      ExtendTwice([], 0, [], 0, ReadN(data, tag, b));
    } else {
      match UnpackOne(data, tag)
      case Err =>
      case Ok((v, k)) =>
        ReadNSplit(data[k..], tag, a - 1, b);
        match ReadN(data[k..], tag, a - 1)
        case Err => ExtendTwice([v], k, [], 0, Err);
        case Ok((vs, m)) =>
          assert data[k..][m..] == data[k + m..];
          ExtendTwice([v], k, vs, m, ReadN(data[k + m..], tag, b));
    }
  }

  /** Decoding schema `s + t` is decoding `s` and then `t` on what is left. */
  lemma {:induction false} DecodeSplit(data: seq<byte>, s: seq<Entry>, t: seq<Entry>)
    ensures Decode(data, s + t) ==
            match Decode(data, s)
            case Err => Err
            case Ok((items, k)) => Extend(items, k, Decode(data[k..], t))
    decreases |s|
  {
    hide ReadN;
    if s == [] {
      assert s + t == t && data[0..] == data;
      ExtendTwice([], 0, [], 0, Decode(data, t));
    } else {
      assert (s + t)[1..] == s[1..] + t;
      if !s[0].Malformed? && !s[0].tag.Unknown? {
        match ReadN(data, s[0].tag, s[0].count)
        case Err =>
        case Ok((vs, k)) =>
          DecodeSplit(data[k..], s[1..], t);
          match Decode(data[k..], s[1..])
          case Err =>
          case Ok((items, m)) =>
            assert data[k..][m..] == data[k + m..];
            ExtendTwice([Collapse(vs)], k, items, m, Decode(data[k + m..], t));
      }
    }
  }

  /** `cursor + needed > total` in release arithmetic. A slice is at most
      `isize::MAX` long, so the sum does not wrap. */
  predicate InBounds(cursor: nat, needed: nat, total: nat) {
    Wrap(cursor + needed) <= total
  }

  lemma ReadOne(data: seq<byte>, tag: Tag)
    ensures ReadN(data, tag, 1) ==
            match UnpackOne(data, tag)
            case Err => Err
            case Ok((v, k)) => Ok(([v], k))
  {
    hide UnpackOne;
    match UnpackOne(data, tag)
    case Err =>
    case Ok((v, k)) => assert ReadN(data[k..], tag, 0) == Ok(([], 0)) && [v] + [] == [v];
  }

  lemma ReadNone(data: seq<byte>, tag: Tag)
    ensures ReadN(data, tag, 0) == Ok(([], 0))
  {
  }

  /** One more value read at `cursor` extends a group; a failing read fails the group. */
  lemma ReadNext(data: seq<byte>, start: nat, cursor: nat, tag: Tag, group: seq<Value>, count: nat)
    requires start <= cursor <= |data| && |group| < count
    requires ReadN(data[start..], tag, |group|) == Ok((group, cursor - start))
    ensures match UnpackOne(data[cursor..], tag)
            case Err => ReadN(data[start..], tag, count) == Err
            case Ok((v, k)) =>
              ReadN(data[start..], tag, |group| + 1) == Ok((group + [v], cursor + k - start))
  {
    hide UnpackOne;
    var d, rest, n := data[start..], data[cursor..], count - |group|;
    assert d[cursor - start..] == rest;
    ReadNSplit(d, tag, |group|, n);
    ReadNSplit(d, tag, |group|, 1);
    ReadOne(rest, tag);
    assert UnpackOne(rest, tag).Err? ==> ReadN(rest, tag, n).Err?;
  }

  /** A fixed-width value read at `cursor`, in absolute indices. */
  lemma UnpackFixedAt(data: seq<byte>, cursor: nat, tag: Tag)
    requires cursor <= |data| && Width(tag) > 0
    ensures UnpackOne(data[cursor..], tag) ==
            if cursor + Width(tag) > |data| then Err
            else if tag == TBool then Ok((Bool(data[cursor] != 0), 1))
            else Ok((Interpret(tag, data[cursor..cursor + Width(tag)]), Width(tag)))
  {
    hide Interpret;
    if cursor + Width(tag) <= |data| {
      assert data[cursor..][..Width(tag)] == data[cursor..cursor + Width(tag)];
    }
  }

  /** The `read_fixed!` loop and its `bool` twin. */
  method ReadFixed(data: seq<byte>, start: nat, tag: Tag, count: nat)
    returns (r: Result<(seq<Value>, nat)>)
    requires start <= |data| < TWO64 / 2 && Width(tag) > 0
    ensures r == ReadN(data[start..], tag, count)
  {
    hide ReadN, Interpret, UnpackOne;
    var size, cursor := Width(tag), start;
    var group: seq<Value> := [];
    ReadNone(data[start..], tag);
    for n := 0 to count
      invariant |group| == n && start <= cursor <= |data|
      invariant ReadN(data[start..], tag, n) == Ok((group, cursor - start))
    {
      ReadNext(data, start, cursor, tag, group, count);
      UnpackFixedAt(data, cursor, tag);
      if !InBounds(cursor, size, |data|) {
        return Err;
      }
      if tag == TBool {
        group := group + [Bool(data[cursor] != 0)];
      } else {
        group := group + [Interpret(tag, data[cursor..cursor + size])];
      }
      cursor := cursor + size;
    }
    r := Ok((group, cursor - start));
  }

  /** A string read at `cursor`, in absolute indices. */
  lemma UnpackStrAt(data: seq<byte>, cursor: nat)
    requires cursor <= |data|
    ensures UnpackOne(data[cursor..], TStr) ==
            if cursor + 4 > |data| then Err
            else
              var len := NeNat(data[cursor..cursor + 4]);
              if cursor + 4 + len > |data| then Err
              else Ok((Str(data[cursor + 4..cursor + 4 + len]), 4 + len))
    ensures cursor + 4 <= |data| ==> NeNat(data[cursor..cursor + 4]) < TWO32
  {
    var rest := data[cursor..];
    if cursor + 4 <= |data| {
      assert rest[..4] == data[cursor..cursor + 4];
      NeRange(rest[..4]);
      Widths();
      var len := NeNat(rest[..4]);
      if cursor + 4 + len <= |data| {
        assert rest[4..4 + len] == data[cursor + 4..cursor + 4 + len];
      }
    }
  }

  /** The length-prefixed string loop, with its two separate bounds checks. */
  method ReadStrings(data: seq<byte>, start: nat, count: nat)
    returns (r: Result<(seq<Value>, nat)>)
    requires start <= |data| < TWO64 / 2
    ensures r == ReadN(data[start..], TStr, count)
  {
    hide ReadN, UnpackOne;
    var cursor := start;
    var group: seq<Value> := [];
    ReadNone(data[start..], TStr);
    for n := 0 to count
      invariant |group| == n && start <= cursor <= |data|
      invariant ReadN(data[start..], TStr, n) == Ok((group, cursor - start))
    {
      ReadNext(data, start, cursor, TStr, group, count);
      UnpackStrAt(data, cursor);
      if !InBounds(cursor, 4, |data|) {
        return Err;
      }
      var len := NeNat(data[cursor..cursor + 4]);
      cursor := cursor + 4;
      if !InBounds(cursor, len, |data|) {
        return Err;
      }
      group := group + [Str(data[cursor..cursor + len])];
      cursor := cursor + len;
    }
    r := Ok((group, cursor - start));
  }

  lemma DecodeSingle(data: seq<byte>, e: Entry)
    ensures Decode(data, [e]) ==
            if e.Malformed? || e.tag.Unknown? then Err
            else match ReadN(data, e.tag, e.count)
                 case Err => Err
                 case Ok((vs, k)) => Ok(([Collapse(vs)], k))
  {
    hide ReadN;
    assert [e][1..] == [];
    if !e.Malformed? && !e.tag.Unknown? {
      match ReadN(data, e.tag, e.count)
      case Err =>
      case Ok((vs, k)) => assert Decode(data[k..], []) == Ok(([], 0)) && [Collapse(vs)] + [] == [Collapse(vs)];
    }
  }

  /** The schema decoder with its running cursor. It agrees with iterating
      `UnpackOne` over suffixes, on every byte string and every schema. */
  method UnpackMixedCounted(data: seq<byte>, schema: seq<Entry>) returns (r: Result<(seq<Item>, nat)>)
    requires |data| < TWO64 / 2
    ensures r == Decode(data, schema)
  {
    hide ReadN;
    var result: seq<Item> := [];
    var cursor := 0;
    for n := 0 to |schema|
      invariant cursor <= |data|
      invariant Decode(data, schema[..n]) == Ok((result, cursor))
    {
      assert schema[..n + 1] == schema[..n] + [schema[n]];
      assert schema == schema[..n + 1] + schema[n + 1..];
      DecodeSplit(data, schema[..n], [schema[n]]);
      DecodeSplit(data, schema[..n + 1], schema[n + 1..]);
      DecodeSingle(data[cursor..], schema[n]);
      if schema[n].Malformed? {
        return Err;
      }
      var tag, count := schema[n].tag, schema[n].count;
      var group: Result<(seq<Value>, nat)>;
      match tag {
        case TStr => group := ReadStrings(data, cursor, count);
        case Unknown(_) => return Err;
        case _ => group := ReadFixed(data, cursor, tag, count);
      }
      if group.Err? {
        return Err;
      }
      cursor := cursor + group.value.1;
      if count == 1 {
        result := result + [One(group.value.0[0])];
      } else {
        result := result + [Group(group.value.0)];
      }
    }
    assert schema[..|schema|] == schema;
    r := Ok((result, cursor));
  }
}
