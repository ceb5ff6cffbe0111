/** Independent cursors over one data area: a reader recovers what a writer wrote. */
module ViewStreams {
  import opened Words
  import opened Wrappers
  import opened Codec
  import opened CodecProofs
  import opened View

  /** Cursor writes through one view, as the values of each call: `write(v)` is a call
      with one value, `write_mixed` one with its flattened items. The result is `None`
      if a call fails. */
  function WriteAll(s: Area, calls: seq<seq<Value>>): Option<Area>
    requires |s.bytes| < TWO64 - 1
    decreases |calls|
  {
    if calls == [] then Some(s)
    else
      match WriteAll(s, calls[..|calls| - 1])
      case None => None
      case Some(t) =>
        var payload := Packed(calls[|calls| - 1]);
        if |t.bytes| < TWO64 - 1 && CanWrite(t, payload, None) then Some(Written(t, payload, None)) else None
  }

  function Concat(calls: seq<seq<Value>>): seq<Value> {
    if calls == [] then [] else Concat(calls[..|calls| - 1]) + calls[|calls| - 1]
  }

  lemma WrittenAt(s: Area, payload: seq<byte>)
    requires |s.bytes| < TWO64 - 1 && CanWrite(s, Ok(payload), None)
    ensures var t, end := Written(s, Ok(payload), None), s.cursor + |payload|;
            && t.cursor == end <= |t.bytes| == |s.bytes|
            && t.bytes[..s.cursor] == s.bytes[..s.cursor]
            && t.bytes[s.cursor..end] == payload
            && t.bytes[end..] == s.bytes[end..]
  {
  }

  /** After any sequence of successful cursor writes the cursor has advanced by the packed
      lengths, the bytes passed over are the packed values in order, and all other bytes
      are unchanged. */
  lemma {:induction false} WritesLayOutStream(s: Area, calls: seq<seq<Value>>)
    requires s.cursor <= |s.bytes| < TWO64 - 1
    ensures match WriteAll(s, calls)
            case None => true
            case Some(t) =>
              && AllPackable(Concat(calls))
              && var stream := AllBytes(Concat(calls));
              && t.cursor == s.cursor + |stream| <= |t.bytes| == |s.bytes|
              && t.bytes == s.bytes[..s.cursor] + stream + s.bytes[t.cursor..]
    decreases |calls|
  {
    hide AllPackable, AllBytes, Packed;
    if calls == [] {
      PackNone();
    } else {
      var before, last := calls[..|calls| - 1], calls[|calls| - 1];
      WritesLayOutStream(s, before);
      match WriteAll(s, before)
      case None =>
      case Some(t) =>
        var payload := Packed(last);
        if CanWrite(t, payload, None) {
          LastWrite(s, t, Concat(before), last);
        }
    }
  }

  lemma LastWrite(s: Area, t: Area, vs: seq<Value>, last: seq<Value>)
    requires AllPackable(vs) && t.cursor == s.cursor + |AllBytes(vs)| <= |t.bytes| == |s.bytes| < TWO64 - 1
    requires t.bytes == s.bytes[..s.cursor] + AllBytes(vs) + s.bytes[t.cursor..]
    requires CanWrite(t, Packed(last), None)
    ensures AllPackable(vs + last)
    ensures var u, stream := Written(t, Packed(last), None), AllBytes(vs + last);
            && u.cursor == s.cursor + |stream| <= |u.bytes| == |s.bytes|
            && u.bytes == s.bytes[..s.cursor] + stream + s.bytes[u.cursor..]
  {
    hide AllPackable, AllBytes;
    PackConcat(vs, last);
    var a, b := AllBytes(vs), AllBytes(last);
    WrittenAt(t, b);
    var u := Written(t, Packed(last), None);
    assert u.bytes == t.bytes[..t.cursor] + b + t.bytes[u.cursor..];
    assert t.bytes[..t.cursor] == s.bytes[..s.cursor] + a;
    assert t.bytes[u.cursor..] == s.bytes[u.cursor..];
    Assoc(s.bytes[..s.cursor], a, b);
  }

  /** A run of cursor `read`s with the given tags: the values, and where the cursor ends. */
  function ReadEach(s: Area, tags: seq<Tag>): (r: Option<(seq<Value>, Area)>)
    requires s.cursor <= |s.bytes| < TWO64 - 1
    ensures r.Some? ==> r.value.1.bytes == s.bytes && r.value.1.cursor <= |s.bytes|
    decreases |tags|
  {
    if tags == [] then Some(([], s))
    else
      match ReadValue(s, tags[0])
      case Err => None
      case Ok((v, n)) =>
        CursorStaysInside(s, Call.Read(tags[0]));
        var rest := ReadEach(After(s, Call.Read(tags[0])), tags[1..]);
        if rest.None? then None else Some(([v] + rest.value.0, rest.value.1))
  }

  /** Reading value by value through the cursor is decoding the rest of the area. */
  lemma {:induction false} ReadEachDecodes(s: Area, tags: seq<Tag>)
    requires s.cursor <= |s.bytes| < TWO64 - 1
    ensures ReadEach(s, tags) ==
            match ReadTags(s.bytes[s.cursor..], tags)
            case Err => None
            case Ok((vs, n)) => Some((vs, s.(cursor := s.cursor + n)))
    decreases |tags|
  {
    hide UnpackOne;
    if tags != [] {
      match ReadValue(s, tags[0])
      case Err =>
      case Ok((v, n)) =>
        CursorStaysInside(s, Call.Read(tags[0]));
        var t := s.(cursor := s.cursor + n);
        ReadEachDecodes(t, tags[1..]);
        assert s.bytes[s.cursor..][n..] == t.bytes[t.cursor..];
    }
  }

  /** A run of successful `read`s equals one `read_mixed` of the combined schema, and
      fails when it fails. (Where nothing is left, `read_mixed` fails even for no tags.) */
  lemma ReadsAreOneReadMixed(s: Area, schema: seq<Entry>)
    requires s.cursor <= |s.bytes| < TWO64 - 1 && WellFormed(schema)
    requires Expand(schema) != [] || s.cursor < |s.bytes|
    ensures var each := ReadEach(s, Expand(schema));
            if each.None? then ReadSchema(s, schema, None) == Err
            else
              var vs, t := each.value.0, each.value.1;
              && |vs| == |Expand(schema)|
              && ReadSchema(s, schema, None) == Ok((Regroup(schema, vs), t.cursor - s.cursor))
              && After(s, Call.ReadMixed(schema, None)) == t
  {
    hide UnpackOne, ReadTags, Decode, Expand, Regroup;
    ReadEachDecodes(s, Expand(schema));
    DecodersAgree(s.bytes[s.cursor..], schema);
    if s.cursor == |s.bytes| {
      NothingLeft(s.bytes[s.cursor..], Expand(schema));
    }
  }

  lemma NothingLeft(data: seq<byte>, tags: seq<Tag>)
    requires data == [] && tags != []
    ensures ReadTags(data, tags) == Err
  {
  }

  /** Two views that start at the same place: after any successful cursor writes through
      one, reading through the other with matching tags recovers all values in order and
      ends at the same cursor. */
  lemma ReaderRecoversStream(s: Area, calls: seq<seq<Value>>, tags: seq<Tag>)
    requires s.cursor <= |s.bytes| < TWO64 - 1
    requires WriteAll(s, calls).Some? && TagsMatch(tags, Concat(calls))
    ensures var t := WriteAll(s, calls).value;
            && |t.bytes| == |s.bytes|
            && ReadEach(Area(t.bytes, s.cursor), tags) == Some((Concat(calls), t))
  {
    hide ReadTags, AllBytes, AllPackable, TagsMatch, WriteAll, ReadEach, Concat;
    WritesLayOutStream(s, calls);
    var t, stream := WriteAll(s, calls).value, AllBytes(Concat(calls));
    var r := Area(t.bytes, s.cursor);
    assert r.bytes[r.cursor..] == stream + s.bytes[t.cursor..];
    ReadEachDecodes(r, tags);
    StreamRoundTrip(tags, Concat(calls), s.bytes[t.cursor..]);
  }

  /** The same with one `read_mixed`: the values come back grouped as the schema asks. */
  lemma ReaderRecoversGroups(s: Area, calls: seq<seq<Value>>, schema: seq<Entry>)
    requires s.cursor <= |s.bytes| < TWO64 - 1
    requires WriteAll(s, calls).Some? && calls != []
    requires WellFormed(schema) && TagsMatch(Expand(schema), Concat(calls))
    ensures var t := WriteAll(s, calls).value;
            && |t.bytes| == |s.bytes|
            && ReadSchema(Area(t.bytes, s.cursor), schema, None)
               == Ok((Regroup(schema, Concat(calls)), t.cursor - s.cursor))
            && After(Area(t.bytes, s.cursor), Call.ReadMixed(schema, None)) == t
  {
    hide ReadTags, AllBytes, AllPackable, Expand, Regroup, ReadEach, Decode;
    ReaderRecoversStream(s, calls, Expand(schema));
    SomethingWritten(s, calls);
    ReadsAreOneReadMixed(Area(WriteAll(s, calls).value.bytes, s.cursor), schema);
  }

  /** A write of nothing fails, so successful writes need room. */
  lemma SomethingWritten(s: Area, calls: seq<seq<Value>>)
    requires s.cursor <= |s.bytes| < TWO64 - 1 && WriteAll(s, calls).Some? && calls != []
    ensures s.cursor < |s.bytes|
  {
    hide AllBytes, AllPackable;
    var before := calls[..|calls| - 1];
    WritesLayOutStream(s, before);
  }
}
