/** What the codec guarantees: the two decoders agree on every byte string, and
    decoding inverts packing up to regrouping. */
module CodecProofs {
  import opened Words
  import opened Endian
  import opened Wrappers
  import opened Codec

  // ---------------------------------------------------- decoder agreement

  /** `UnpackOne` iterated over successive suffixes, one tag at a time. */
  function ReadTags(data: seq<byte>, tags: seq<Tag>): (r: Result<(seq<Value>, nat)>)
    ensures r.Ok? ==> |r.value.0| == |tags| && r.value.1 <= |data|
  {
    if tags == [] then Ok(([], 0))
    else
      match UnpackOne(data, tags[0])
      case Err => Err
      case Ok((v, k)) => Extend([v], k, ReadTags(data[k..], tags[1..]))
  }

  /** Every entry is a tuple with a tag the decoder knows, whatever its count. */
  predicate WellFormed(schema: seq<Entry>) {
    schema == [] || (schema[0].Entry? && !schema[0].tag.Unknown? && WellFormed(schema[1..]))
  }

  /** One malformed entry or unknown tag anywhere, even with count 0, fails the schema. */
  lemma {:induction false} BadEntryFails(data: seq<byte>, schema: seq<Entry>, k: nat)
    requires k < |schema| && (schema[k].Malformed? || schema[k].tag.Unknown?)
    ensures !WellFormed(schema) && Decode(data, schema) == Err
  {
    hide ReadN;
    if k > 0 && schema[0].Entry? && !schema[0].tag.Unknown? {
      BadEntryFails(data, schema[1..], k - 1);
      match ReadN(data, schema[0].tag, schema[0].count)
      case Err =>
      case Ok((_, n)) => BadEntryFails(data[n..], schema[1..], k - 1);
    }
  }

  function Repeat(tag: Tag, n: nat): (tags: seq<Tag>)
    ensures |tags| == n
  {
    if n == 0 then [] else [tag] + Repeat(tag, n - 1)
  }

  /** A schema's tags, each repeated as often as its count says. */
  function Expand(schema: seq<Entry>): seq<Tag>
    requires WellFormed(schema)
  {
    if schema == [] then [] else Repeat(schema[0].tag, schema[0].count) + Expand(schema[1..])
  }

  /** A flat sequence of values in the groups a schema asks for. */
  function Regroup(schema: seq<Entry>, vs: seq<Value>): seq<Item>
    requires WellFormed(schema) && |vs| == |Expand(schema)|
  {
    if schema == [] then []
    else
      var n := schema[0].count;
      [Collapse(vs[..n])] + Regroup(schema[1..], vs[n..])
  }

  /** A schema read tag by tag with the one-value decoder. */
  function ReadSchemaByTags(data: seq<byte>, schema: seq<Entry>): Result<(seq<Item>, nat)> {
    if !WellFormed(schema) then Err
    else
      match ReadTags(data, Expand(schema))
      case Err => Err
      case Ok((vs, k)) => Ok((Regroup(schema, vs), k))
  }

  lemma {:induction false} ReadTagsSplit(data: seq<byte>, a: seq<Tag>, b: seq<Tag>)
    ensures ReadTags(data, a + b) ==
            match ReadTags(data, a)
            case Err => Err
            case Ok((vs, k)) => Extend(vs, k, ReadTags(data[k..], b))
    decreases |a|
  {
    hide UnpackOne, Extend;
    if a == [] {
      assert a + b == b && data[0..] == data;
      ExtendTwice([], 0, [], 0, ReadTags(data, b));
    } else {
      assert (a + b)[1..] == a[1..] + b;
      match UnpackOne(data, a[0])
      case Err =>
      case Ok((v, k)) =>
        ReadTagsSplit(data[k..], a[1..], b);
        match ReadTags(data[k..], a[1..])
        case Err => ExtendTwice([v], k, [], 0, Err);
        case Ok((vs, m)) =>
          assert data[k..][m..] == data[k + m..];
          ExtendTwice([v], k, vs, m, ReadTags(data[k + m..], b));
    }
  }

  lemma ReadTagsNone(data: seq<byte>)
    ensures ReadTags(data, []) == Ok(([], 0))
  {
  }

  lemma ReadTagsCons(data: seq<byte>, tags: seq<Tag>)
    requires tags != []
    ensures var first := UnpackOne(data, tags[0]);
            ReadTags(data, tags) ==
            if first.Err? then Err
            else Extend([first.value.0], first.value.1, ReadTags(data[first.value.1..], tags[1..]))
  {
    hide UnpackOne, Extend;
  }

  lemma {:induction false} ReadTagsRepeat(data: seq<byte>, tag: Tag, n: nat)
    ensures ReadTags(data, Repeat(tag, n)) == ReadN(data, tag, n)
    decreases n
  {
    hide UnpackOne, Extend;
    if n > 0 {
      assert Repeat(tag, n)[1..] == Repeat(tag, n - 1);
      match UnpackOne(data, tag)
      case Err =>
      case Ok((v, k)) => ReadTagsRepeat(data[k..], tag, n - 1);
    }
  }

  /** The schema decoder succeeds exactly when every entry is well formed and iterating
      the one-value decoder over the expanded tags succeeds; it then gives the same
      values, regrouped, and consumes the same number of bytes. */
  lemma {:induction false} DecodersAgree(data: seq<byte>, schema: seq<Entry>)
    ensures Decode(data, schema) == ReadSchemaByTags(data, schema)
    decreases |schema|
  {
    hide ReadN, ReadTags, Collapse;
    if schema == [] {
      ReadTagsNone(data);
    } else if schema[0].Entry? && !schema[0].tag.Unknown? {
      var tag, n, rest := schema[0].tag, schema[0].count, schema[1..];
      ReadTagsRepeat(data, tag, n);
      match ReadN(data, tag, n)
      case Err =>
        if WellFormed(rest) {
          ReadTagsSplit(data, Repeat(tag, n), Expand(rest));
        }
      case Ok((vs, k)) =>
        DecodersAgree(data[k..], rest);
        if WellFormed(rest) {
          ReadTagsSplit(data, Repeat(tag, n), Expand(rest));
          match ReadTags(data[k..], Expand(rest))
          case Err =>
          case Ok((ws, m)) => assert (vs + ws)[..n] == vs && (vs + ws)[n..] == ws;
        }
    }
  }

  /** Regrouping loses nothing and reorders nothing. */
  lemma {:induction false} RegroupKeepsValues(schema: seq<Entry>, vs: seq<Value>)
    requires WellFormed(schema) && |vs| == |Expand(schema)|
    ensures Flatten(Regroup(schema, vs)) == vs
    decreases |schema|
  {
    if schema != [] {
      hide Repeat, Flatten;
      var n := schema[0].count;
      var first, rest := Collapse(vs[..n]), Regroup(schema[1..], vs[n..]);
      RegroupKeepsValues(schema[1..], vs[n..]);
      FlattenCons(first, rest);
      assert Values(first) == vs[..n];
      assert vs[..n] + vs[n..] == vs;
    }
  }

  /** A count of 1 gives the bare value, any other count a list of that many. */
  lemma {:induction false} RegroupShape(schema: seq<Entry>, vs: seq<Value>, k: nat)
    requires WellFormed(schema) && |vs| == |Expand(schema)| && k < |schema|
    ensures |Regroup(schema, vs)| == |schema| && schema[k].Entry?
    ensures var item := Regroup(schema, vs)[k];
            if schema[k].count == 1 then item.One? else item.Group? && |item.vs| == schema[k].count
  {
    hide Repeat;
    var n := schema[0].count;
    if k > 0 {
      RegroupShape(schema[1..], vs[n..], k - 1);
    } else if |schema| > 1 {
      RegroupShape(schema[1..], vs[n..], 0);
    }
  }

  // ------------------------------------------------- the bytes a decoder reads

  /** How many bytes from the front `UnpackOne` reads: none when too few are there for the
      width, only the prefix when the string is longer than what is left. */
  function BytesRead(data: seq<byte>, tag: Tag): (n: nat)
    ensures n <= |data|
    ensures UnpackOne(data, tag).Ok? ==> n == UnpackOne(data, tag).value.1
  {
    match tag
    case TStr =>
      if |data| < 4 then 0
      else if |data| < 4 + NeNat(data[..4]) then 4
      else 4 + NeNat(data[..4])
    case _ => if |data| < Width(tag) then 0 else Width(tag)
  }

  /** The same for `n` values in a row, and for a schema. */
  function BytesReadN(data: seq<byte>, tag: Tag, n: nat): (r: nat)
    ensures r <= |data|
    ensures ReadN(data, tag, n).Ok? ==> r == ReadN(data, tag, n).value.1
    decreases n
  {
    if n == 0 then 0
    else
      match UnpackOne(data, tag)
      case Err => BytesRead(data, tag)
      case Ok((_, k)) => k + BytesReadN(data[k..], tag, n - 1)
  }

  function SchemaBytesRead(data: seq<byte>, schema: seq<Entry>): (r: nat)
    ensures r <= |data|
    ensures Decode(data, schema).Ok? ==> r == Decode(data, schema).value.1
  {
    if schema == [] || schema[0].Malformed? || schema[0].tag.Unknown? then 0
    else
      match ReadN(data, schema[0].tag, schema[0].count)
      case Err => BytesReadN(data, schema[0].tag, schema[0].count)
      case Ok((_, k)) => k + SchemaBytesRead(data[k..], schema[1..])
  }

  /** The bytes read, and how many there are, decide the result, success or failure:
      `other` may differ anywhere else. */
  lemma BytesReadDecide(data: seq<byte>, other: seq<byte>, tag: Tag)
    requires |other| == |data|
    requires other[..BytesRead(data, tag)] == data[..BytesRead(data, tag)]
    ensures UnpackOne(other, tag) == UnpackOne(data, tag)
    ensures BytesRead(other, tag) == BytesRead(data, tag)
  {
    hide Interpret;
    var n := BytesRead(data, tag);
    match tag {
      case TStr =>
        if |data| >= 4 {
          assert other[..4] == other[..n][..4] == data[..n][..4] == data[..4];
          if n > 4 {
            assert other[4..n] == other[..n][4..] == data[..n][4..] == data[4..n];
          }
        }
      case TBool =>
        if n == 1 {
          assert other[0] == other[..n][0] == data[..n][0] == data[0];
        }
      case _ =>
    }
  }

  /** Agreement on a longer stretch gives agreement on what comes after its start. */
  lemma SameRest(data: seq<byte>, other: seq<byte>, k: nat, m: nat)
    requires |other| == |data| && k + m <= |data| && other[..k + m] == data[..k + m]
    ensures other[..k] == data[..k] && other[k..][..m] == data[k..][..m]
  {
    assert other[..k] == other[..k + m][..k];
    assert other[k..][..m] == other[..k + m][k..];
    assert data[k..][..m] == data[..k + m][k..];
  }

  lemma BytesReadNStep(data: seq<byte>, tag: Tag, n: nat)
    ensures n == 0 ==> ReadN(data, tag, n) == Ok(([], 0)) && BytesReadN(data, tag, n) == 0
    ensures n > 0 ==>
              match UnpackOne(data, tag)
              case Err => ReadN(data, tag, n) == Err && BytesReadN(data, tag, n) == BytesRead(data, tag)
              case Ok((v, k)) =>
                && ReadN(data, tag, n) == Extend([v], k, ReadN(data[k..], tag, n - 1))
                && BytesReadN(data, tag, n) == k + BytesReadN(data[k..], tag, n - 1)
  {
    hide UnpackOne, BytesRead, Extend;
  }

  lemma {:induction false} BytesReadDecideN(data: seq<byte>, other: seq<byte>, tag: Tag, n: nat)
    requires |other| == |data|
    requires other[..BytesReadN(data, tag, n)] == data[..BytesReadN(data, tag, n)]
    ensures ReadN(other, tag, n) == ReadN(data, tag, n)
    ensures BytesReadN(other, tag, n) == BytesReadN(data, tag, n)
    decreases n
  {
    hide UnpackOne, BytesRead, Extend, ReadN, BytesReadN;
    BytesReadNStep(data, tag, n);
    BytesReadNStep(other, tag, n);
    if n > 0 {
      match UnpackOne(data, tag)
      case Err => BytesReadDecide(data, other, tag);
      case Ok((_, k)) =>
        SameRest(data, other, k, BytesReadN(data[k..], tag, n - 1));
        BytesReadDecide(data, other, tag);
        BytesReadDecideN(data[k..], other[k..], tag, n - 1);
    }
  }

  /** The same for a schema: `read_mixed` depends on no byte it does not read. */
  lemma {:induction false} SchemaBytesReadDecide(data: seq<byte>, other: seq<byte>, schema: seq<Entry>)
    requires |other| == |data|
    requires other[..SchemaBytesRead(data, schema)] == data[..SchemaBytesRead(data, schema)]
    ensures Decode(other, schema) == Decode(data, schema)
    ensures SchemaBytesRead(other, schema) == SchemaBytesRead(data, schema)
    decreases |schema|
  {
    hide ReadN, BytesReadN, Extend, Collapse;
    if schema != [] && !schema[0].Malformed? && !schema[0].tag.Unknown? {
      var tag, n := schema[0].tag, schema[0].count;
      match ReadN(data, tag, n)
      case Err => BytesReadDecideN(data, other, tag, n);
      case Ok((_, k)) =>
        SameRest(data, other, k, SchemaBytesRead(data[k..], schema[1..]));
        BytesReadDecideN(data, other, tag, n);
        SchemaBytesReadDecide(data[k..], other[k..], schema[1..]);
    }
  }

  // ----------------------------------------------------------- round trip

  /** The tag reads back what packing this value writes. */
  predicate Matches(tag: Tag, v: Value) {
    match v
    case Bool(_) => tag.TBool?
    case Int(_) => tag.TInt? || tag.TI64?
    case Float(_) => tag.TFloat? || tag.TF64?
    case Str(_) => tag.TStr?
    case Raw(_) => false
    case Other => false
  }

  /** The value is packed without loss: a string's length fits the `u32` prefix. */
  predicate Lossless(v: Value) {
    Packable(v) && (v.Str? ==> |v.utf8| < TWO32)
  }

  lemma IntRoundTrip(i: int)
    requires IsI64(i)
    ensures Signed(NeNat(NeBytes(Wrap(i), 8)), TWO64) == i
  {
    Widths();
    NeRoundTrip(Wrap(i), 8);
  }

  lemma StringRoundTrip(s: seq<byte>, rest: seq<byte>)
    ensures var len := |s| % TWO32;
            UnpackOne(Bytes(Str(s)) + rest, TStr) == Ok((Str(s[..len]), 4 + len))
  {
    var len := |s| % TWO32;
    var data := NeBytes(len, 4) + s + rest;
    Widths();
    NeRoundTrip(len, 4);
    assert data[..4] == NeBytes(len, 4);
    assert data[4..4 + len] == s[..len];
  }

  /** One packed value reads back, whatever bytes follow it. */
  lemma ValueRoundTrip(v: Value, tag: Tag, rest: seq<byte>)
    requires Lossless(v) && Matches(tag, v)
    ensures UnpackOne(Bytes(v) + rest, tag) == Ok((v, |Bytes(v)|))
  {
    hide NeBytes, NeNat, Widen, Pow256;
    match v
    case Bool(b) =>
    case Int(i) =>
      IntRoundTrip(i);
      assert (Bytes(v) + rest)[..8] == Bytes(v);
    case Float(bits) =>
      Widths();
      NeRoundTrip(bits, 8);
      assert (Bytes(v) + rest)[..8] == Bytes(v);
    case Str(s) =>
      StringRoundTrip(s, rest);
      assert s[..|s|] == s;
  }

  /** The `as u32` cast of the string length is harmless exactly below 2^32: a longer
      string comes back cut to its length modulo 2^32. */
  lemma StringRoundTripExact(s: seq<byte>, rest: seq<byte>)
    ensures UnpackOne(Bytes(Str(s)) + rest, TStr) == Ok((Str(s), |Bytes(Str(s))|)) <==> |s| < TWO32
  {
    StringRoundTrip(s, rest);
    if |s| < TWO32 {
      assert s[..|s|] == s;
    } else {
      assert |s[..|s| % TWO32]| < |s|;
    }
  }

  predicate TagsMatch(tags: seq<Tag>, vs: seq<Value>) {
    |tags| == |vs| && forall k :: 0 <= k < |vs| ==> Lossless(vs[k]) && Matches(tags[k], vs[k])
  }

  lemma PackFirst(vs: seq<Value>)
    requires vs != [] && Lossless(vs[0]) && AllPackable(vs[1..])
    ensures AllPackable(vs) && Packable(vs[0]) && AllBytes(vs) == Bytes(vs[0]) + AllBytes(vs[1..])
  {
  }

  /** Reading tag by tag inverts packing value by value and consumes exactly the
      packed length, whatever bytes follow. */
  lemma {:induction false} StreamRoundTrip(tags: seq<Tag>, vs: seq<Value>, rest: seq<byte>)
    requires TagsMatch(tags, vs)
    ensures AllPackable(vs)
    ensures ReadTags(AllBytes(vs) + rest, tags) == Ok((vs, |AllBytes(vs)|))
    decreases |vs|
  {
    hide UnpackOne, Bytes, ReadTags, Lossless, Matches;
    if vs == [] {
      ReadTagsNone(AllBytes(vs) + rest);
    } else {
      assert Lossless(vs[0]) && Matches(tags[0], vs[0]);
      StreamRoundTrip(tags[1..], vs[1..], rest);
      PackFirst(vs);
      var data := AllBytes(vs) + rest;
      ReadTagsCons(data, tags);
      var first, others := Bytes(vs[0]), AllBytes(vs[1..]);
      Assoc(first, others, rest);
      ValueRoundTrip(vs[0], tags[0], others + rest);
      assert data[|first|..] == others + rest;
      assert [vs[0]] + vs[1..] == vs;
    }
  }

  /** A list packed from any grouping of `vs` decodes, under any schema whose expanded
      tags match, to `vs` regrouped by the schema; exactly the packed bytes are consumed. */
  lemma RegroupRoundTrip(items: seq<Item>, schema: seq<Entry>, rest: seq<byte>)
    requires WellFormed(schema) && TagsMatch(Expand(schema), Flatten(items))
    ensures Packed(Flatten(items)).Ok?
    ensures var packed := Packed(Flatten(items)).value;
            Decode(packed + rest, schema) == Ok((Regroup(schema, Flatten(items)), |packed|))
  {
    StreamRoundTrip(Expand(schema), Flatten(items), rest);
    DecodersAgree(AllBytes(Flatten(items)) + rest, schema);
  }

  // ------------------------------------------------------------- raw bytes

  predicate AllRaw(vs: seq<Value>) {
    forall k :: 0 <= k < |vs| ==> vs[k].Raw?
  }

  function Joined(vs: seq<Value>): seq<byte>
    requires AllRaw(vs)
  {
    if vs == [] then [] else vs[0].bytes + Joined(vs[1..])
  }

  /** `bytes` values are packed as they are, one after the other, with no prefix. */
  lemma {:induction false} RawPacksAsIs(vs: seq<Value>)
    requires AllRaw(vs)
    ensures Packed(vs) == Ok(Joined(vs))
  {
    if vs != [] {
      RawPacksAsIs(vs[1..]);
    }
  }
}
