/** Writing a prepared list of entries field by field, stopping at the first that cannot be written. */
module Writing {
  import opened Bytes
  import opened Tlv

  /** A field about to be written: its value may be absent, or its own encoder may have refused. */
  datatype Entry = Entry(tag: u16, value: Result<Option<bytes>, FormatError>)

  function Present(r: Result<bytes, FormatError>): Result<Option<bytes>, FormatError> {
    match r case Ok(v) => Ok(Some(v)) case Err(e) => Err(e)
  }

  function Nested(tag: u16, value: Result<bytes, FormatError>): Entry {
    Entry(tag, Present(value))
  }

  /** The fields written when every entry is put in turn, or the first refusal. */
  function Written(entries: seq<Entry>): Result<seq<Field>, FormatError> {
    if entries == [] then Ok([])
    else
      match Written(entries[..|entries| - 1])
      case Err(e) => Err(e)
      case Ok(fields) => Step(fields, entries[|entries| - 1])
  }

  function Step(fields: seq<Field>, entry: Entry): Result<seq<Field>, FormatError> {
    match entry.value
    case Err(e) => Err(e)
    case Ok(None) => Ok(fields)
    case Ok(Some(v)) => if |v| > U32_MAX then Err(BadFieldLength(entry.tag, |v|)) else Ok(fields + [Field(entry.tag, v)])
  }

  predicate Ordered(entries: seq<Entry>) {
    forall i, j :: 0 <= i < j < |entries| ==> entries[i].tag < entries[j].tag
  }

  lemma {:induction false} WrittenNext(entries: seq<Entry>, i: nat)
    requires i < |entries| && Written(entries[..i]).Ok?
    ensures Written(entries[..i + 1]) == Step(Written(entries[..i]).value, entries[i])
  {
    assert entries[..i + 1][..i] == entries[..i];
  }

  /** A refusal stays the answer whatever was to follow. */
  lemma {:induction false} RefusalStays(entries: seq<Entry>, i: nat)
    requires i <= |entries| && Written(entries[..i]).Err?
    ensures Written(entries) == Written(entries[..i])
    decreases |entries| - i
  {
    if i < |entries| {
      assert entries[..i + 1][..i] == entries[..i];
      RefusalStays(entries, i + 1);
    } else {
      assert entries[..i] == entries;
    }
  }

  /** Entries that all have a value that fits, or none, can be written. */
  lemma {:induction false} AllFit(entries: seq<Entry>)
    requires forall i :: 0 <= i < |entries| ==> entries[i].value.Ok?
    requires forall i :: 0 <= i < |entries| && entries[i].value.value.Some? ==> |entries[i].value.value.value| <= U32_MAX
    ensures Written(entries).Ok?
  {
    if entries != [] { AllFit(entries[..|entries| - 1]); }
  }

  /** What was written is increasing, and every field is one of the entries. */
  lemma {:induction false} WrittenIs(entries: seq<Entry>)
    requires Ordered(entries) && Written(entries).Ok?
    ensures var fields := Written(entries).value;
            && Canonical(fields)
            && (forall k :: 0 <= k < |fields| ==> Entry(fields[k].tag, Ok(Some(fields[k].value))) in entries)
            && (fields != [] ==> fields[|fields| - 1].tag <= entries[|entries| - 1].tag)
  {
    if entries != [] {
      var n := |entries| - 1;
      var front, last := entries[..n], entries[n];
      WrittenIs(front);
      var fields := Written(front).value;
      if last.value.value.Some? {
        var f := Field(last.tag, last.value.value.value);
        AppendIsCanonical(fields, f);
        if fields != [] { assert front[|front| - 1].tag < last.tag; }
      }
    }
  }

  /** Looking up the tag of an entry finds its value. */
  lemma {:induction false} WrittenLookup(entries: seq<Entry>, i: nat)
    requires Ordered(entries) && Written(entries).Ok? && i < |entries|
    ensures entries[i].value == Ok(Lookup(Written(entries).value, entries[i].tag))
    ensures entries[i].value.value.Some? ==> |entries[i].value.value.value| <= U32_MAX
  {
    hide Lookup;
    var n := |entries| - 1;
    var front, last := entries[..n], entries[n];
    var fields := Written(front).value;
    if last.value.value.Some? {
      LookupAppend(fields, Field(last.tag, last.value.value.value), entries[i].tag);
    }
    if i < n {
      WrittenLookup(front, i);
    } else {
      WrittenAbsent(front, last.tag);
    }
  }

  lemma {:induction false} WrittenAbsent(entries: seq<Entry>, tag: u16)
    requires Ordered(entries) && Written(entries).Ok?
    requires forall i :: 0 <= i < |entries| ==> entries[i].tag != tag
    ensures Lookup(Written(entries).value, tag) == None
  {
    var fields := Written(entries).value;
    WrittenIs(entries);
    forall k | 0 <= k < |fields|
      ensures fields[k].tag != tag
    {
      var i :| 0 <= i < |entries| && entries[i] == Entry(fields[k].tag, Ok(Some(fields[k].value)));
    }
    LookupAbsent(fields, tag);
  }

  /** When no entry is absent, the fields are the entries one for one. */
  lemma {:induction false} WrittenAll(entries: seq<Entry>)
    requires Written(entries).Ok? && forall i :: 0 <= i < |entries| ==> entries[i].value != Ok(None)
    ensures var fields := Written(entries).value;
            && |fields| == |entries|
            && forall i :: 0 <= i < |entries| ==> entries[i] == Entry(fields[i].tag, Ok(Some(fields[i].value)))
  {
    if entries != [] { WrittenAll(entries[..|entries| - 1]); }
  }

  /** The first `i` entries have been written as these fields. */
  ghost predicate Upto(entries: seq<Entry>, i: nat, fields: seq<Field>) {
    i <= |entries| && Written(entries[..i]) == Ok(fields)
  }

  lemma {:induction false} UptoStarts(entries: seq<Entry>)
    ensures Upto(entries, 0, [])
  {
    assert entries[..0] == [];
  }

  lemma {:induction false} UptoEnds(entries: seq<Entry>, fields: seq<Field>)
    requires Upto(entries, |entries|, fields)
    ensures Written(entries) == Ok(fields)
  {
    assert entries[..|entries|] == entries;
  }

  /** Put the next entry; the writer then holds what the entries up to it are written as. */
  method PutEntry(w: TlvWriter, entries: seq<Entry>, i: nat, value: Option<bytes>) returns (r: Result<(), FormatError>)
    requires w.Valid() && Ordered(entries) && i < |entries| && entries[i].value == Ok(value)
    requires Upto(entries, i, w.fields)
    modifies w
    ensures w.Valid()
    ensures r.Ok? ==> Upto(entries, i + 1, w.fields)
    ensures r.Err? ==> Written(entries) == Err(r.error)
  {
    hide Written, Canonical, Emit;
    WrittenNext(entries, i);
    if value.None? {
      return Ok(());
    }
    WrittenIs(entries[..i]);
    r := w.Put(entries[i].tag, value.value);
    if r.Err? { RefusalStays(entries, i + 1); }
  }

  /** An entry whose encoder refused ends the writing. */
  lemma {:induction false} RefusedAt(entries: seq<Entry>, i: nat, fields: seq<Field>)
    requires i < |entries| && Upto(entries, i, fields) && entries[i].value.Err?
    ensures Written(entries) == Err(entries[i].value.error)
  {
    WrittenNext(entries, i);
    RefusalStays(entries, i + 1);
  }

  // ---- Lists of values -----------------------------------------------------------------

  /** Every value of a list parsed in turn, with a limit on their number. */
  function Collect<T>(fields: seq<Field>, limit: nat, tag: u16, item: bytes -> Result<T, FormatError>): Result<seq<T>, FormatError> {
    if fields == [] then Ok([])
    else
      match Collect(fields[..|fields| - 1], limit, tag, item)
      case Err(e) => Err(e)
      case Ok(items) =>
        if |items| >= limit then Err(BadFieldLength(tag, |items|))
        else
          match item(fields[|fields| - 1].value)
          case Err(e) => Err(e)
          case Ok(x) => Ok(items + [x])
  }

  /** A nested list: parse failures of items come in reading order, before a later framing failure. */
  function DecodeList<T>(buf: bytes, limit: nat, tag: u16, item: bytes -> Result<T, FormatError>): Result<seq<T>, FormatError> {
    var scan := ReadAll(buf);
    match Collect(scan.fields, limit, tag, item)
    case Err(e) => Err(e)
    case Ok(items) => if scan.failure.Some? then Err(scan.failure.value) else Ok(items)
  }

  lemma {:induction false} CollectStays<T>(a: seq<Field>, b: seq<Field>, limit: nat, tag: u16, item: bytes -> Result<T, FormatError>)
    requires Collect(a, limit, tag, item).Err?
    ensures Collect(a + b, limit, tag, item) == Collect(a, limit, tag, item)
    decreases |b|
  {
    if b == [] {
      assert a + b == a;
    } else {
      var n := |b| - 1;
      CollectStays(a, b[..n], limit, tag, item);
      assert (a + b)[..|a| + n] == a + b[..n];
    }
  }

  lemma {:induction false} CollectIs<T>(fields: seq<Field>, limit: nat, tag: u16, item: bytes -> Result<T, FormatError>)
    ensures var r := Collect(fields, limit, tag, item);
            && (r.Ok? <==> |fields| <= limit && forall i :: 0 <= i < |fields| ==> item(fields[i].value).Ok?)
            && (r.Ok? ==> |r.value| == |fields| && forall i :: 0 <= i < |fields| ==> item(fields[i].value) == Ok(r.value[i]))
  {
    if fields != [] {
      var n := |fields| - 1;
      CollectIs(fields[..n], limit, tag, item);
      assert fields == fields[..n] + [fields[n]];
    }
  }

  /** A canonical list reads back exactly when it is short enough and every value parses. */
  lemma {:induction false} DecodeListOf<T>(fields: seq<Field>, limit: nat, tag: u16, item: bytes -> Result<T, FormatError>)
    requires Canonical(fields)
    ensures var r := DecodeList(Emit(fields), limit, tag, item);
            && (r.Ok? <==> |fields| <= limit && forall i :: 0 <= i < |fields| ==> item(fields[i].value).Ok?)
            && (r.Ok? ==> |r.value| == |fields| && forall i :: 0 <= i < |fields| ==> item(fields[i].value) == Ok(r.value[i]))
  {
    hide Emit, Collect, ReadAll, Increasing;
    ReadIsInverseOfEmit(Emit(fields), fields);
    CollectIs(fields, limit, tag, item);
  }
}
