/**
  The tag-length-value encoding with strictly increasing tags: reader, writer and the
  theorem that they are inverse to each other.
 */
module Tlv {
  import opened Bytes

  datatype FormatError =
    | Truncated(need: nat, have: nat)
    | OffsetOverflow
    | BadChunkSize(got: u32)
    | ChunkCountMismatch(expected: u32, got: u32)
    | ChunkOutOfRange(index: u32, count: u32)
    | BadFieldLength(tag: u16, len: nat)
    | FieldsOutOfOrder(previous: u16, found: u16)
    | UnknownCriticalField(tag: u16)
    | MissingField(tag: u16)
    | DegenerateKey(tag: u16)
    | BadAddressByte(tag: u16, char_: byte)
    | UnsupportedClass(cls: byte)
    | ContentDescTooLarge(declared: nat)
    | BadContentMac

  const FIELD_PREFIX_LEN: nat := 6
  const CRIT_TAG_MAX: u16 := 0x7FFF

  datatype Field = Field(tag: u16, value: bytes)

  /** The record of one field: tag, length, value. `Sized` says when the length fits its word. */
  function Record(f: Field): (r: bytes)
    ensures |r| == FIELD_PREFIX_LEN + |f.value|
  {
    Le16(f.tag) + Le32(|f.value| % 0x1_0000_0000) + f.value
  }

  predicate Sized(fields: seq<Field>) {
    forall i :: 0 <= i < |fields| ==> |fields[i].value| <= U32_MAX
  }

  /** Strictly increasing tags, all of them above `last`. */
  predicate Increasing(last: Option<u16>, fields: seq<Field>)
    decreases |fields|
  {
    fields == []
    || ((last.Some? ==> last.value < fields[0].tag) && Increasing(Some(fields[0].tag), fields[1..]))
  }

  predicate Canonical(fields: seq<Field>) {
    Sized(fields) && Increasing(None, fields)
  }

  function Emit(fields: seq<Field>): bytes {
    if fields == [] then [] else Record(fields[0]) + Emit(fields[1..])
  }

  // ---- Reading -----------------------------------------------------------------

  /** A field together with the place of its value in the buffer. */
  datatype Found = Found(field: Field, start: nat)

  /** What the next call of the reader finds at `pos`. */
  function NextAt(buf: bytes, pos: nat, last: Option<u16>): Result<Option<Found>, FormatError>
    requires pos <= |buf|
  {
    if pos == |buf| then Ok(None)
    else
      var headerEnd := pos + FIELD_PREFIX_LEN;
      if headerEnd > |buf| then Err(Truncated(headerEnd, |buf|))
      else
        var tag := FromLe16(buf[pos..pos + 2]);
        var len := FromLe32(buf[pos + 2..headerEnd]);
        if last.Some? && tag <= last.value then Err(FieldsOutOfOrder(last.value, tag))
        else
          var valueEnd := headerEnd + len;
          if valueEnd > |buf| then Err(Truncated(valueEnd, |buf|))
          else Ok(Some(Found(Field(tag, buf[headerEnd..valueEnd]), headerEnd)))
  }

  /** The fields read before the end of the buffer or before the first failure. */
  datatype Scan = Scan(fields: seq<Field>, failure: Option<FormatError>)

  function ReadFrom(buf: bytes, pos: nat, last: Option<u16>): Scan
    requires pos <= |buf|
    decreases |buf| - pos
  {
    match NextAt(buf, pos, last)
    case Err(e) => Scan([], Some(e))
    case Ok(None) => Scan([], None)
    case Ok(Some(found)) =>
      var rest := ReadFrom(buf, found.start + |found.field.value|, Some(found.field.tag));
      Scan([found.field] + rest.fields, rest.failure)
  }

  function ReadAll(buf: bytes): Scan {
    ReadFrom(buf, 0, None)
  }

  class TlvReader {
    const buf: bytes
    var pos: nat
    var lastTag: Option<u16>

    ghost predicate Valid()
      reads this
    {
      pos <= |buf|
    }

    constructor (buf: bytes)
      ensures Valid() && this.buf == buf && pos == 0 && lastTag == None
    {
      this.buf, pos, lastTag := buf, 0, None;
    }

    /** Next field, or `None` at the end. A field moves the position past it; nothing else moves it. */
    method NextField() returns (r: Result<Option<Found>, FormatError>)
      requires Valid()
      modifies this
      ensures Valid()
      ensures r == NextAt(buf, old(pos), old(lastTag))
      ensures r.Ok? && r.value.Some? ==>
                && pos == r.value.value.start + |r.value.value.field.value|
                && old(pos) < pos
                && lastTag == Some(r.value.value.field.tag)
                && r.value.value.field.value == buf[r.value.value.start..pos]
      ensures r.Err? || r.value.None? ==> pos == old(pos) && lastTag == old(lastTag)
    {
      if pos >= |buf| {
        return Ok(None);
      }
      var headerEnd := pos + FIELD_PREFIX_LEN;
      if headerEnd > |buf| {
        return Err(Truncated(headerEnd, |buf|));
      }
      var prefix := buf[pos..headerEnd];
      assert prefix[..2] == buf[pos..pos + 2] && prefix[2..] == buf[pos + 2..headerEnd];
      var tag := FromLe16(prefix[..2]);
      var len := FromLe32(prefix[2..]);
      match lastTag {
        case Some(prev) =>
          if tag <= prev {
            return Err(FieldsOutOfOrder(prev, tag));
          }
        case None =>
      }
      var valueEnd := headerEnd + len;
      if valueEnd > |buf| {
        return Err(Truncated(valueEnd, |buf|));
      }
      lastTag := Some(tag);
      pos := valueEnd;
      return Ok(Some(Found(Field(tag, buf[headerEnd..valueEnd]), headerEnd)));
    }
  }

  // ---- Writing -----------------------------------------------------------------

  class TlvWriter {
    var buf: bytes
    var lastTag: Option<u16>

    /** What has been written, as the list of fields that was put. */
    ghost var fields: seq<Field>

    ghost predicate Valid()
      reads this
    {
      && Canonical(fields)
      && buf == Emit(fields)
      && lastTag == if fields == [] then None else Some(fields[|fields| - 1].tag)
    }

    constructor ()
      ensures Valid() && fields == []
    {
      buf, lastTag, fields := [], None, [];
    }

    /** Append a field; a refused field leaves the writer as it was. */
    method Put(tag: u16, value: bytes) returns (r: Result<(), FormatError>)
      requires Valid()
      modifies this
      ensures Valid()
      ensures r.Ok? <==> |value| <= U32_MAX && (old(lastTag).Some? ==> old(lastTag).value < tag)
      ensures r.Ok? ==> fields == old(fields) + [Field(tag, value)] && lastTag == Some(tag)
      ensures r.Err? ==> unchanged(this)
      ensures r.Err? ==> r.error == if old(lastTag).Some? && tag <= old(lastTag).value
                                    then FieldsOutOfOrder(old(lastTag).value, tag) else BadFieldLength(tag, |value|)
    {
      hide Emit, Record, Increasing;
      AppendIsCanonical(fields, Field(tag, value));
      match lastTag {
        case Some(prev) =>
          if tag <= prev {
            return Err(FieldsOutOfOrder(prev, tag));
          }
        case None =>
      }
      if |value| > U32_MAX {
        return Err(BadFieldLength(tag, |value|));
      }
      EmitPut(fields, tag, value);
      buf := buf + Le16(tag) + Le32(|value|) + value;
      lastTag := Some(tag);
      fields := fields + [Field(tag, value)];
      return Ok(());
    }

    /** Append an optional field; absence takes no space. */
    method PutOpt(tag: u16, value: Option<bytes>) returns (r: Result<(), FormatError>)
      requires Valid()
      modifies this
      ensures Valid()
      ensures value.None? ==> r == Ok(()) && unchanged(this)
      ensures value.Some? ==> (r.Ok? <==> |value.value| <= U32_MAX && (old(lastTag).Some? ==> old(lastTag).value < tag))
      ensures value.Some? && r.Ok? ==> fields == old(fields) + [Field(tag, value.value)] && lastTag == Some(tag)
      ensures r.Err? ==> unchanged(this) && value.Some?
      ensures r.Err? ==> r.error == if old(lastTag).Some? && tag <= old(lastTag).value
                                    then FieldsOutOfOrder(old(lastTag).value, tag) else BadFieldLength(tag, |value.value|)
    {
      if value.None? {
        return Ok(());
      }
      r := Put(tag, value.value);
    }
  }

  // ---- Lists of fields -----------------------------------------------------------

  lemma {:induction false} EmitAppend(a: seq<Field>, b: seq<Field>)
    ensures Emit(a + b) == Emit(a) + Emit(b)
  {
    hide Record;
    if a == [] {
      assert a + b == b;
    } else {
      EmitAppend(a[1..], b);
      assert (a + b)[0] == a[0] && (a + b)[1..] == a[1..] + b;
      Regroup(Record(a[0]), Emit(a[1..]), Emit(b));
    }
  }

  lemma {:induction false} EmitPut(fields: seq<Field>, tag: u16, value: bytes)
    requires |value| <= U32_MAX
    ensures Emit(fields + [Field(tag, value)]) == Emit(fields) + Le16(tag) + Le32(|value|) + value
  {
    hide Le16, Le32;
    EmitAppend(fields, [Field(tag, value)]);
    assert Emit([Field(tag, value)]) == Record(Field(tag, value)) + [];
    assert |value| % 0x1_0000_0000 == |value|;
  }

  lemma {:induction false} IncreasingAppend(last: Option<u16>, a: seq<Field>, b: seq<Field>)
    ensures Increasing(last, a + b) <==>
            Increasing(last, a) && Increasing(if a == [] then last else Some(a[|a| - 1].tag), b)
    decreases |a|
  {
    if a == [] {
      assert a + b == b;
    } else {
      IncreasingAppend(Some(a[0].tag), a[1..], b);
      assert (a + b)[1..] == a[1..] + b;
    }
  }

  lemma {:induction false} AppendIsCanonical(a: seq<Field>, f: Field)
    requires Canonical(a)
    ensures Canonical(a + [f]) <==> |f.value| <= U32_MAX && (a == [] || a[|a| - 1].tag < f.tag)
  {
    IncreasingAppend(None, a, [f]);
    assert (a + [f])[|a|] == f;
  }

  /** The tags after the first are all larger than it, hence different. */
  lemma {:induction false} IncreasingBound(last: u16, fields: seq<Field>, i: nat)
    requires Increasing(Some(last), fields) && i < |fields|
    ensures last < fields[i].tag
    decreases i
  {
    if i > 0 { IncreasingBound(fields[0].tag, fields[1..], i - 1); }
  }

  /** Neighbouring tags decide whether a list is increasing. */
  lemma {:induction false} IncreasingByNeighbours(fields: seq<Field>)
    requires forall i :: 0 <= i < |fields| - 1 ==> fields[i].tag < fields[i + 1].tag
    ensures Increasing(None, fields)
  {
    hide Increasing;
    if |fields| <= 1 {
      FewIncrease(fields);
    } else {
      var front, f := fields[..|fields| - 1], fields[|fields| - 1];
      assert fields == front + [f];
      IncreasingByNeighbours(front);
      IncreasingAppend(None, front, [f]);
      OneAbove(front[|front| - 1].tag, f);
    }
  }

  lemma {:induction false} FewIncrease(fields: seq<Field>)
    requires |fields| <= 1
    ensures Increasing(None, fields)
  {
  }

  lemma {:induction false} OneAbove(last: u16, f: Field)
    ensures Increasing(Some(last), [f]) <==> last < f.tag
  {
  }

  lemma {:induction false} TagsOrdered(fields: seq<Field>, i: nat, j: nat)
    requires i < j < |fields| && Increasing(None, fields)
    ensures fields[i].tag < fields[j].tag
  {
    var a, b := fields[..i + 1], fields[i + 1..];
    assert fields == a + b;
    IncreasingAppend(None, a, b);
    IncreasingBound(fields[i].tag, b, j - i - 1);
  }

  /** A record is delimited by its own bytes. */
  lemma {:induction false} SameFirstRecord(f: Field, g: Field, x: bytes, y: bytes)
    requires |f.value| <= U32_MAX && |g.value| <= U32_MAX && Record(f) + x == Record(g) + y
    ensures f == g && x == y
  {
    hide Record, Le16, Le32, FromLe16, FromLe32;
    RecordParts(f, x);
    RecordParts(g, y);
    Le16RoundTrip(f.tag);
    Le16RoundTrip(g.tag);
    Le32RoundTrip(|f.value|);
    Le32RoundTrip(|g.value|);
    SplitConcat(Record(f), x, Record(g), y);
  }

  lemma {:induction false} RecordParts(f: Field, x: bytes)
    requires |f.value| <= U32_MAX
    ensures var whole := Record(f) + x;
            whole[..2] == Le16(f.tag) && whole[2..6] == Le32(|f.value|) && Record(f)[6..] == f.value
  {
    hide Le16, Le32;
    assert |f.value| % 0x1_0000_0000 == |f.value|;
  }

  /** Equally many fields in front of anything are determined by the bytes. */
  lemma {:induction false} SamePrefixFields(a: seq<Field>, b: seq<Field>, x: bytes, y: bytes)
    requires Sized(a) && Sized(b) && |a| == |b| && Emit(a) + x == Emit(b) + y
    ensures a == b && x == y
  {
    hide Record;
    if a == [] {
      assert [] + x == x && [] + y == y;
    } else {
      Regroup(Record(a[0]), Emit(a[1..]), x);
      Regroup(Record(b[0]), Emit(b[1..]), y);
      SameFirstRecord(a[0], b[0], Emit(a[1..]) + x, Emit(b[1..]) + y);
      SamePrefixFields(a[1..], b[1..], x, y);
      assert a == [a[0]] + a[1..] && b == [b[0]] + b[1..];
    }
  }

  /** The fields in front of the first record with a given tag are determined by the bytes. */
  lemma {:induction false} SameFieldsBefore(a: seq<Field>, b: seq<Field>, x: bytes, y: bytes, tag: u16)
    requires Sized(a) && Sized(b)
    requires forall k :: 0 <= k < |a| ==> a[k].tag != tag
    requires forall k :: 0 <= k < |b| ==> b[k].tag != tag
    requires |x| >= 2 && |y| >= 2 && x[..2] == Le16(tag) && y[..2] == Le16(tag)
    requires Emit(a) + x == Emit(b) + y
    ensures a == b && x == y
    decreases |a| + |b|
  {
    hide Record;
    if a == [] && b == [] {
      assert [] + x == x && [] + y == y;
    } else if a == [] {
      TagInFront(b, y, x, tag);
    } else if b == [] {
      TagInFront(a, x, y, tag);
    } else {
      Regroup(Record(a[0]), Emit(a[1..]), x);
      Regroup(Record(b[0]), Emit(b[1..]), y);
      SameFirstRecord(a[0], b[0], Emit(a[1..]) + x, Emit(b[1..]) + y);
      SameFieldsBefore(a[1..], b[1..], x, y, tag);
      assert a == [a[0]] + a[1..] && b == [b[0]] + b[1..];
    }
  }

  lemma {:induction false} TagInFront(b: seq<Field>, y: bytes, x: bytes, tag: u16)
    requires b != [] && |x| >= 2 && x[..2] == Le16(tag) && [] + x == Emit(b) + y
    ensures b[0].tag == tag
  {
    assert x[..2] == Le16(b[0].tag) by {
      Regroup(Record(b[0]), Emit(b[1..]), y);
      assert [] + x == x;
    }
    Le16RoundTrip(tag);
    Le16RoundTrip(b[0].tag);
  }

  // ---- The bijection -------------------------------------------------------------

  /** One record in front of anything is read back as that field. */
  lemma {:induction false} NextOfRecord(before: bytes, f: Field, after: bytes, last: Option<u16>)
    requires |f.value| <= U32_MAX && (last.Some? ==> last.value < f.tag)
    ensures NextAt(before + Record(f) + after, |before|, last) == Ok(Some(Found(f, |before| + FIELD_PREFIX_LEN)))
  {
    var buf, p := before + Record(f) + after, |before|;
    assert buf[p..p + 2] == Le16(f.tag);
    assert buf[p + 2..p + 6] == Le32(|f.value|);
    assert buf[p + 6..p + 6 + |f.value|] == f.value;
    Le16RoundTrip(f.tag);
    Le32RoundTrip(|f.value|);
  }

  lemma {:induction false} EndOfBuffer(buf: bytes, last: Option<u16>)
    ensures NextAt(buf, |buf|, last) == Ok(None) && buf + [] == buf
  {
  }

  lemma {:induction false} ReadOfEmitFrom(before: bytes, fields: seq<Field>, last: Option<u16>)
    requires Sized(fields) && Increasing(last, fields)
    ensures ReadFrom(before + Emit(fields), |before|, last) == Scan(fields, None)
    decreases |fields|
  {
    hide NextAt, Record;
    if fields == [] {
      EndOfBuffer(before, last);
    } else {
      var f, rest := fields[0], fields[1..];
      var next := before + Record(f);
      Regroup(before, Record(f), Emit(rest));
      NextOfRecord(before, f, Emit(rest), last);
      ReadOfEmitFrom(next, rest, Some(f.tag));
    }
  }

  /** Whatever was read, the bytes it was read from are its encoding. */
  lemma {:induction false} EmitOfReadFrom(buf: bytes, pos: nat, last: Option<u16>)
    requires pos <= |buf|
    ensures var scan := ReadFrom(buf, pos, last);
            && Sized(scan.fields) && Increasing(last, scan.fields)
            && Emit(scan.fields) <= buf[pos..]
            && (scan.failure.None? ==> Emit(scan.fields) == buf[pos..])
    decreases |buf| - pos
  {
    hide Record, NextAt, Emit, Increasing, Sized;
    NoFields(last);
    match NextAt(buf, pos, last)
    case Err(_) =>
    case Ok(None) => EndOrFailure(buf, pos, last);
    case Ok(Some(found)) =>
      var f, end := found.field, found.start + |found.field.value|;
      RecordAt(buf, pos, last);
      EmitOfReadFrom(buf, end, Some(f.tag));
      var rest := ReadFrom(buf, end, Some(f.tag)).fields;
      OneMoreInFront(last, f, rest);
      PrefixOfBoth(buf, pos, end, Emit(rest));
  }

  lemma {:induction false} NoFields(last: Option<u16>)
    ensures Emit([]) == [] && Increasing(last, []) && Sized([])
  {
  }

  lemma {:induction false} OneMoreInFront(last: Option<u16>, f: Field, rest: seq<Field>)
    ensures Emit([f] + rest) == Record(f) + Emit(rest)
    ensures Increasing(last, [f] + rest) <==> (last.Some? ==> last.value < f.tag) && Increasing(Some(f.tag), rest)
    ensures |f.value| <= U32_MAX && Sized(rest) ==> Sized([f] + rest)
  {
    hide Record;
    assert ([f] + rest)[0] == f && ([f] + rest)[1..] == rest;
  }

  lemma {:induction false} PrefixOfBoth(buf: bytes, pos: nat, end: nat, e: bytes)
    requires pos <= end <= |buf|
    ensures e <= buf[end..] ==> buf[pos..end] + e <= buf[pos..]
    ensures e == buf[end..] ==> buf[pos..end] + e == buf[pos..]
  {
    assert buf[pos..] == buf[pos..end] + buf[end..];
  }

  lemma {:induction false} EndOrFailure(buf: bytes, pos: nat, last: Option<u16>)
    requires pos <= |buf| && NextAt(buf, pos, last) == Ok(None)
    ensures buf[pos..] == []
  {
  }

  lemma {:induction false} RecordAt(buf: bytes, pos: nat, last: Option<u16>)
    requires pos <= |buf|
    requires NextAt(buf, pos, last).Ok? && NextAt(buf, pos, last).value.Some?
    ensures var found := NextAt(buf, pos, last).value.value;
            && |found.field.value| <= U32_MAX
            && found.start + |found.field.value| <= |buf|
            && (last.Some? ==> last.value < found.field.tag)
            && found.start == pos + FIELD_PREFIX_LEN
            && buf[pos..found.start + |found.field.value|] == Record(found.field)
  {
    hide Le16, Le32, FromLe16, FromLe32;
    var found := NextAt(buf, pos, last).value.value;
    var end := found.start + |found.field.value|;
    FromLe16RoundTrip(buf[pos..pos + 2]);
    FromLe32RoundTrip(buf[pos + 2..pos + 6]);
    assert buf[pos..end] == buf[pos..pos + 2] + buf[pos + 2..pos + 6] + buf[pos + 6..end];
  }

  /**
    The encoding is a bijection: a buffer is read to its end, without error, exactly when it
    is the encoding of a strictly increasing field list, and then that list is what is read.
   */
  lemma {:induction false} ReadIsInverseOfEmit(buf: bytes, fields: seq<Field>)
    ensures ReadAll(buf) == Scan(fields, None) <==> Canonical(fields) && Emit(fields) == buf
  {
    if Canonical(fields) && Emit(fields) == buf {
      ReadOfEmitFrom([], fields, None);
      assert [] + Emit(fields) == buf;
    }
    if ReadAll(buf) == Scan(fields, None) {
      EmitOfReadFrom(buf, 0, None);
      assert buf[0..] == buf;
    }
  }

  // ---- Looking fields up ---------------------------------------------------------

  /** The value under a tag: the last one, should there be several. */
  function Lookup(fields: seq<Field>, tag: u16): Option<bytes> {
    if fields == [] then None
    else if fields[|fields| - 1].tag == tag then Some(fields[|fields| - 1].value)
    else Lookup(fields[..|fields| - 1], tag)
  }

  lemma {:induction false} LookupAppend(fields: seq<Field>, f: Field, tag: u16)
    ensures Lookup(fields + [f], tag) == if f.tag == tag then Some(f.value) else Lookup(fields, tag)
  {
    assert (fields + [f])[..|fields|] == fields;
  }

  lemma {:induction false} LookupFound(fields: seq<Field>, i: nat)
    requires i < |fields| && Increasing(None, fields)
    ensures Lookup(fields, fields[i].tag) == Some(fields[i].value)
    decreases |fields|
  {
    var n := |fields| - 1;
    assert fields == fields[..n] + [fields[n]];
    IncreasingAppend(None, fields[..n], [fields[n]]);
    if i < n {
      IncreasingBelow(fields[..n], i);
      LookupFound(fields[..n], i);
    }
  }

  /** No tag exceeds the last one. */
  lemma {:induction false} IncreasingBelow(fields: seq<Field>, i: nat)
    requires i < |fields| && Increasing(None, fields)
    ensures fields[i].tag <= fields[|fields| - 1].tag
    decreases |fields| - i
  {
    if i < |fields| - 1 {
      var a, b := fields[..i + 1], fields[i + 1..];
      assert fields == a + b;
      IncreasingAppend(None, a, b);
      IncreasingBound(fields[i].tag, b, |b| - 1);
    }
  }

  lemma {:induction false} LookupPresent(fields: seq<Field>, tag: u16)
    requires Lookup(fields, tag).Some?
    ensures exists i :: 0 <= i < |fields| && fields[i] == Field(tag, Lookup(fields, tag).value)
  {
    var n := |fields| - 1;
    if fields[n].tag == tag {
      assert fields[n] == Field(tag, Lookup(fields, tag).value);
    } else {
      LookupPresent(fields[..n], tag);
    }
  }

  lemma {:induction false} LookupAbsent(fields: seq<Field>, tag: u16)
    requires forall i :: 0 <= i < |fields| ==> fields[i].tag != tag
    ensures Lookup(fields, tag) == None
  {
    if fields != [] { LookupAbsent(fields[..|fields| - 1], tag); }
  }

  /** An increasing list is determined by what its tags map to. */
  lemma {:induction false} SameLookups(a: seq<Field>, b: seq<Field>)
    requires Increasing(None, a) && Increasing(None, b)
    requires forall tag: u16 :: Lookup(a, tag) == Lookup(b, tag)
    ensures a == b
    decreases |a|
  {
    if a == [] {
      if b != [] { LookupFound(b, 0); }
    } else if b == [] {
      LookupFound(a, 0);
    } else {
      LastOfBoth(a, b);
      LastOfBoth(b, a);
      var x, y := a[|a| - 1], b[|b| - 1];
      LookupFound(a, |a| - 1);
      LookupFound(b, |b| - 1);
      assert x == y;
      var a', b' := a[..|a| - 1], b[..|b| - 1];
      assert a == a' + [x] && b == b' + [y];
      IncreasingAppend(None, a', [x]);
      IncreasingAppend(None, b', [y]);
      forall tag: u16
        ensures Lookup(a', tag) == Lookup(b', tag)
      {
        assert Lookup(a, tag) == Lookup(b, tag);
        if tag == x.tag {
          NotBeforeLast(a);
          NotBeforeLast(b);
        }
      }
      SameLookups(a', b');
    }
  }

  lemma {:induction false} LastOfBoth(a: seq<Field>, b: seq<Field>)
    requires a != [] && b != [] && Increasing(None, a) && Increasing(None, b)
    requires forall tag: u16 :: Lookup(a, tag) == Lookup(b, tag)
    ensures a[|a| - 1].tag <= b[|b| - 1].tag
  {
    var tag := a[|a| - 1].tag;
    LookupFound(a, |a| - 1);
    assert Lookup(b, tag).Some?;
    LookupPresent(b, tag);
    var i :| 0 <= i < |b| && b[i].tag == tag;
    IncreasingBelow(b, i);
  }

  lemma {:induction false} NotBeforeLast(a: seq<Field>)
    requires a != [] && Increasing(None, a)
    ensures Lookup(a[..|a| - 1], a[|a| - 1].tag) == None
  {
    var a', x := a[..|a| - 1], a[|a| - 1];
    assert a == a' + [x];
    IncreasingAppend(None, a', [x]);
    if Lookup(a', x.tag).Some? {
      LookupPresent(a', x.tag);
      var i :| 0 <= i < |a'| && a'[i].tag == x.tag;
      IncreasingBelow(a', i);
    }
  }

  // ---- Keeping some fields -----------------------------------------------------------

  /** The fields whose tags are kept. */
  function Kept(fields: seq<Field>, keep: set<u16>): seq<Field> {
    if fields == [] then []
    else
      var n := |fields| - 1;
      Kept(fields[..n], keep) + if fields[n].tag in keep then [fields[n]] else []
  }

  lemma {:induction false} KeptOneMore(fields: seq<Field>, f: Field, keep: set<u16>)
    ensures Kept([], keep) == []
    ensures Kept(fields + [f], keep) == Kept(fields, keep) + if f.tag in keep then [f] else []
  {
    assert (fields + [f])[..|fields|] == fields;
  }

  lemma {:induction false} KeptAppend(a: seq<Field>, b: seq<Field>, keep: set<u16>)
    ensures Kept(a + b, keep) == Kept(a, keep) + Kept(b, keep)
    decreases |b|
  {
    hide Kept;
    if b == [] {
      assert a + b == a && Kept(b, keep) == [] by { KeptOneMore([], Field(0, []), keep); }
    } else {
      var front, f := b[..|b| - 1], b[|b| - 1];
      KeptAppend(a, front, keep);
      assert b == front + [f];
      Regroup(a, front, [f]);
      KeptOneMore(front, f, keep);
      KeptOneMore(a + front, f, keep);
      Regroup(Kept(a, keep), Kept(front, keep), if f.tag in keep then [f] else []);
    }
  }

  lemma {:induction false} KeepEverything(fields: seq<Field>, keep: set<u16>)
    requires forall i :: 0 <= i < |fields| ==> fields[i].tag in keep
    ensures Kept(fields, keep) == fields
  {
    if fields != [] {
      var n := |fields| - 1;
      KeepEverything(fields[..n], keep);
      assert fields == fields[..n] + [fields[n]];
    }
  }

  lemma {:induction false} KeepNothing(fields: seq<Field>, keep: set<u16>)
    requires forall i :: 0 <= i < |fields| ==> fields[i].tag !in keep
    ensures Kept(fields, keep) == []
  {
    if fields != [] { KeepNothing(fields[..|fields| - 1], keep); }
  }

  lemma {:induction false} KeptFrom(fields: seq<Field>, keep: set<u16>)
    ensures forall i :: 0 <= i < |Kept(fields, keep)| ==> Kept(fields, keep)[i] in fields
  {
    if fields != [] { KeptFrom(fields[..|fields| - 1], keep); }
  }

  /** What is kept is increasing again and answers the lookups of the kept tags only. */
  lemma {:induction false} KeptIs(fields: seq<Field>, keep: set<u16>)
    requires Increasing(None, fields)
    ensures Increasing(None, Kept(fields, keep))
    ensures Kept(fields, keep) != [] ==> Kept(fields, keep)[|Kept(fields, keep)| - 1].tag <= fields[|fields| - 1].tag
    ensures forall tag: u16 :: Lookup(Kept(fields, keep), tag) == if tag in keep then Lookup(fields, tag) else None
    decreases |fields|
  {
    hide Lookup;
    if fields == [] {
      LookupOfNothing();
    } else {
      var n := |fields| - 1;
      var front, f := fields[..n], fields[n];
      var kept := Kept(front, keep);
      assert fields == front + [f];
      IncreasingAppend(None, front, [f]);
      KeptIs(front, keep);
      LookupAppendAll(front, f);
      if front != [] { assert front[|front| - 1].tag < f.tag; }
      if f.tag in keep {
        IncreasingAppend(None, kept, [f]);
        LookupAppendAll(kept, f);
      } else {
        assert kept + [] == kept;
      }
    }
  }

  lemma {:induction false} LookupOfNothing()
    ensures forall tag: u16 :: Lookup([], tag) == None
  {
  }

  // ---- Checking fields one by one --------------------------------------------------

  /** The first complaint of `check`, in reading order. */
  function FirstBad(fields: seq<Field>, check: Field -> Option<FormatError>): Option<FormatError> {
    if fields == [] then None
    else if check(fields[0]).Some? then check(fields[0])
    else FirstBad(fields[1..], check)
  }

  lemma {:induction false} FirstBadAppend(a: seq<Field>, b: seq<Field>, check: Field -> Option<FormatError>)
    ensures FirstBad(a + b, check) ==
            if FirstBad(a, check).Some? then FirstBad(a, check) else FirstBad(b, check)
  {
    if a == [] {
      assert a + b == b;
    } else {
      FirstBadAppend(a[1..], b, check);
      assert (a + b)[1..] == a[1..] + b;
    }
  }

  lemma {:induction false} NoneBad(fields: seq<Field>, check: Field -> Option<FormatError>)
    ensures FirstBad(fields, check) == None <==> forall i :: 0 <= i < |fields| ==> check(fields[i]) == None
  {
    if fields != [] {
      NoneBad(fields[1..], check);
      assert forall i :: 0 < i < |fields| ==> fields[i] == fields[1..][i - 1];
    }
  }

  /** The check that passes every field. */
  function AnyField(f: Field): Option<FormatError> {
    None
  }

  /** Read a buffer whose fields must all pass `check`: the errors in the order a decoder meets them. */
  function Checked(buf: bytes, check: Field -> Option<FormatError>): Result<seq<Field>, FormatError> {
    var scan := ReadAll(buf);
    match FirstBad(scan.fields, check)
    case Some(e) => Err(e)
    case None => if scan.failure.Some? then Err(scan.failure.value) else Ok(scan.fields)
  }

  /** A decoder loop that has taken in `seen` without complaint. */
  ghost predicate Reading(buf: bytes, check: Field -> Option<FormatError>, pos: nat, last: Option<u16>, seen: seq<Field>) {
    && pos <= |buf|
    && pos == |Emit(seen)|
    && FirstBad(seen, check) == None
    && var rest := ReadFrom(buf, pos, last);
       ReadAll(buf) == Scan(seen + rest.fields, rest.failure)
  }

  lemma {:induction false} ReadingStarts(buf: bytes, check: Field -> Option<FormatError>)
    ensures Reading(buf, check, 0, None, [])
  {
    assert [] + ReadAll(buf).fields == ReadAll(buf).fields;
  }

  /** One turn of a decoder loop. */
  lemma {:induction false} ReadingStep(buf: bytes, check: Field -> Option<FormatError>, pos: nat, last: Option<u16>, seen: seq<Field>)
    requires Reading(buf, check, pos, last, seen)
    ensures match NextAt(buf, pos, last)
            case Err(e) => Checked(buf, check) == Err(e)
            case Ok(None) => Checked(buf, check) == Ok(seen)
            case Ok(Some(found)) =>
              && found.start == pos + FIELD_PREFIX_LEN
              && match check(found.field)
                 case Some(e) => Checked(buf, check) == Err(e)
                 case None => Reading(buf, check, found.start + |found.field.value|, Some(found.field.tag), seen + [found.field])
  {
    hide NextAt, Record;
    match NextAt(buf, pos, last)
    case Err(_) => assert seen + [] == seen;
    case Ok(None) => assert seen + [] == seen;
    case Ok(Some(found)) =>
      RecordAt(buf, pos, last);
      var f := found.field;
      var rest := ReadFrom(buf, found.start + |f.value|, Some(f.tag));
      Regroup(seen, [f], rest.fields);
      FirstBadAppend(seen, [f], check);
      FirstBadAppend(seen + [f], rest.fields, check);
      EmitAppend(seen, [f]);
      EmitOfOne(f);
  }

  lemma {:induction false} EmitOfOne(f: Field)
    ensures Emit([f]) == Record(f)
  {
    hide Record;
    assert Record(f) + [] == Record(f);
  }

  lemma {:induction false} LookupAppendAll(fields: seq<Field>, f: Field)
    ensures forall tag: u16 :: Lookup(fields + [f], tag) == if f.tag == tag then Some(f.value) else Lookup(fields, tag)
  {
    forall tag: u16
      ensures Lookup(fields + [f], tag) == if f.tag == tag then Some(f.value) else Lookup(fields, tag)
    {
      LookupAppend(fields, f, tag);
    }
  }

  /** What a successful read amounts to: the canonical list the bytes encode, every field in order. */
  lemma {:induction false} CheckedIs(buf: bytes, check: Field -> Option<FormatError>, fields: seq<Field>)
    ensures Checked(buf, check) == Ok(fields) <==>
            Canonical(fields) && Emit(fields) == buf && forall i :: 0 <= i < |fields| ==> check(fields[i]) == None
  {
    hide Emit, ReadAll, Increasing;
    ReadIsInverseOfEmit(buf, fields);
    NoneBad(fields, check);
    if Checked(buf, check) == Ok(fields) {
      assert ReadAll(buf) == Scan(fields, None);
    }
  }

  /** An encoding is read back exactly when every field passes the check. */
  lemma {:induction false} CheckedOfEmit(fields: seq<Field>, check: Field -> Option<FormatError>)
    requires Canonical(fields)
    ensures Checked(Emit(fields), check).Ok? <==> forall i :: 0 <= i < |fields| ==> check(fields[i]) == None
    ensures Checked(Emit(fields), check).Ok? ==> Checked(Emit(fields), check) == Ok(fields)
  {
    hide Emit, ReadAll, Increasing;
    ReadIsInverseOfEmit(Emit(fields), fields);
    NoneBad(fields, check);
  }

  /** A looked-up value passed the check. */
  lemma {:induction false} LookupChecked(fields: seq<Field>, check: Field -> Option<FormatError>, tag: u16)
    requires forall i :: 0 <= i < |fields| ==> check(fields[i]) == None
    ensures Lookup(fields, tag).Some? ==> check(Field(tag, Lookup(fields, tag).value)) == None
  {
    if Lookup(fields, tag).Some? { LookupPresent(fields, tag); }
  }

  function Failure<T>(r: Result<T, FormatError>): Option<FormatError> {
    match r case Ok(_) => None case Err(e) => Some(e)
  }

  /** What happens to a field whose tag the reader does not know. */
  function UnknownTag(tag: u16): Option<FormatError> {
    if tag <= CRIT_TAG_MAX then Some(UnknownCriticalField(tag)) else None
  }
}
