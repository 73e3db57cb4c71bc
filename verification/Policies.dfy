/** The author's policy and its deny-by-default encoding. */
module Policies {
  import opened Bytes
  import opened Tlv
  import opened Content

  datatype Action = View | Edit | Print | Clipboard | Export | Screenshot
  datatype Rule = Allow | Deny
  datatype Binding = Software | Hardware | HardwareAttested
  datatype Validity = Always | Window(notBefore: i64, notAfter: i64) | FromFirstOpen(seconds: i64)
  datatype Network = StrictOnline | Lease(seconds: i64, maxOfflineSeconds: i64)

  datatype Policy = Policy(
    actions: map<Action, Rule>, validity: Validity, maxOpens: Option<u32>, network: Network, minBinding: Binding,
    actionBinding: map<Action, Binding>, watermark: bool, unknownActions: set<u16>)

  const ACTIONS: u16 := 1
  const VALIDITY: u16 := 2
  const NETWORK: u16 := 3
  const MIN_BINDING: u16 := 4
  const MAX_OPENS: u16 := 5
  const WATERMARK: u16 := 6
  const ACTION_BINDING: u16 := 7

  const FIRST_ACTION_BINDING_VERSION: u16 := 4
  const OPENS_WHEN_THE_FIELD_IS_ABSENT: u32 := 1
  const ALL_ACTIONS: seq<Action> := [View, Edit, Print, Clipboard, Export, Screenshot]

  function ActionTag(a: Action): (t: u16)
    ensures TagAction(t) == Some(a)
  {
    match a case View => 1 case Edit => 2 case Print => 3 case Clipboard => 4 case Export => 5 case Screenshot => 6
  }

  function TagAction(tag: u16): Option<Action> {
    if tag == 1 then Some(View) else if tag == 2 then Some(Edit) else if tag == 3 then Some(Print)
    else if tag == 4 then Some(Clipboard) else if tag == 5 then Some(Export) else if tag == 6 then Some(Screenshot)
    else None
  }

  /** No entry means denial. */
  function RuleOf(p: Policy, a: Action): Rule {
    if a in p.actions then p.actions[a] else Deny
  }

  function BindingOf(p: Policy, a: Action): Binding {
    if a in p.actionBinding then p.actionBinding[a] else Software
  }

  /** The order of the levels. */
  function Level(b: Binding): nat {
    match b case Software => 0 case Hardware => 1 case HardwareAttested => 2
  }

  function Strongest(a: Binding, b: Binding): Binding {
    if Level(a) < Level(b) then b else a
  }

  // ---- Field values ----------------------------------------------------------------

  function BindingByte(b: Binding): byte {
    match b case Software => 1 case Hardware => 2 case HardwareAttested => 3
  }

  function ByteBinding(v: byte): Option<Binding> {
    if v == 1 then Some(Software) else if v == 2 then Some(Hardware) else if v == 3 then Some(HardwareAttested) else None
  }

  function ValidityBytes(v: Validity): bytes {
    match v
    case Always => [1]
    case Window(before, after) => [2] + (LeI64(before) + LeI64(after))
    case FromFirstOpen(seconds) => [3] + LeI64(seconds)
  }

  function DecodeValidity(v: bytes): Result<Validity, FormatError> {
    if v == [] then Err(BadFieldLength(VALIDITY, 0))
    else
      var kind, rest := v[0], v[1..];
      if kind == 1 && rest == [] then Ok(Always)
      else if kind == 2 then
        if |rest| == 16 then Ok(Window(FromLeI64(rest[..8]), FromLeI64(rest[8..])))
        else Err(BadFieldLength(VALIDITY, |rest|))
      else if kind == 3 then
        if |rest| == 8 then Ok(FromFirstOpen(FromLeI64(rest))) else Err(BadFieldLength(VALIDITY, |rest|))
      else Err(BadFieldLength(VALIDITY, |v|))
  }

  function NetworkBytes(n: Network): bytes {
    match n
    case StrictOnline => [1]
    case Lease(seconds, offline) => [2] + (LeI64(seconds) + LeI64(offline))
  }

  function DecodeNetwork(v: bytes): Result<Network, FormatError> {
    if v == [] then Err(BadFieldLength(NETWORK, 0))
    else
      var kind, rest := v[0], v[1..];
      if kind == 1 && rest == [] then Ok(StrictOnline)
      else if kind == 2 then
        if |rest| == 16 then Ok(Lease(FromLeI64(rest[..8]), FromLeI64(rest[8..])))
        else Err(BadFieldLength(NETWORK, |rest|))
      else Err(BadFieldLength(NETWORK, |v|))
  }

  /** An empty value is the author's "no limit". */
  function MaxOpensBytes(limit: Option<u32>): bytes {
    match limit case None => [] case Some(n) => Le32(n)
  }

  function DecodeMaxOpens(v: bytes): Result<Option<u32>, FormatError> {
    if v == [] then Ok(None)
    else if |v| == 4 then Ok(Some(FromLe32(v)))
    else Err(BadFieldLength(MAX_OPENS, |v|))
  }

  lemma {:induction false} ValueRoundTrips(p: Policy)
    ensures DecodeValidity(ValidityBytes(p.validity)) == Ok(p.validity)
    ensures DecodeNetwork(NetworkBytes(p.network)) == Ok(p.network)
    ensures DecodeMaxOpens(MaxOpensBytes(p.maxOpens)) == Ok(p.maxOpens)
  {
    hide LeI64, FromLeI64, Le32, FromLe32;
    match p.validity {
      case Always =>
      case Window(before, after) => PairRoundTrip(2, before, after);
      case FromFirstOpen(seconds) =>
        LeI64RoundTrip(seconds);
        assert ([3] + LeI64(seconds))[1..] == LeI64(seconds);
    }
    if p.network.Lease? { PairRoundTrip(2, p.network.seconds, p.network.maxOfflineSeconds); }
    if p.maxOpens.Some? { Le32RoundTrip(p.maxOpens.value); }
  }

  lemma {:induction false} PairRoundTrip(kind: byte, a: i64, b: i64)
    ensures var v := [kind] + (LeI64(a) + LeI64(b));
            v[0] == kind && |v[1..]| == 16 && FromLeI64(v[1..][..8]) == a && FromLeI64(v[1..][8..]) == b
  {
    hide LeI64, FromLeI64;
    var v := [kind] + (LeI64(a) + LeI64(b));
    assert v[1..] == LeI64(a) + LeI64(b);
    assert v[1..][..8] == LeI64(a) && v[1..][8..] == LeI64(b);
    LeI64RoundTrip(a);
    LeI64RoundTrip(b);
  }

  // ---- Tables keyed by tag ------------------------------------------------------------

  /** One single-byte field per entry, in increasing tag order. */
  function TableFrom(table: map<u16, byte>, from: nat): seq<Field>
    decreases 0x1_0000 - from
  {
    if from >= 0x1_0000 then []
    else (if from in table then [Field(from, [table[from]])] else []) + TableFrom(table, from + 1)
  }

  lemma {:induction false} TableIncreases(table: map<u16, byte>, from: nat)
    ensures Increasing(None, TableFrom(table, from))
    ensures forall i :: 0 <= i < |TableFrom(table, from)| ==>
              var f := TableFrom(table, from)[i]; from <= f.tag && f.tag in table && f.value == [table[f.tag]]
    decreases 0x1_0000 - from
  {
    if from < 0x1_0000 {
      TableIncreases(table, from + 1);
      if from in table {
        var f, rest := Field(from, [table[from]]), TableFrom(table, from + 1);
        IncreasingAppend(None, [f], rest);
        assert [f][1..] == [];
        if rest != [] { assert rest[0].tag > from; }
        assert TableFrom(table, from) == [f] + rest;
      } else {
        assert TableFrom(table, from) == TableFrom(table, from + 1);
      }
    }
  }

  lemma {:induction false} TableHas(table: map<u16, byte>, from: nat, tag: u16)
    requires tag in table && from <= tag
    ensures exists i :: 0 <= i < |TableFrom(table, from)| && TableFrom(table, from)[i] == Field(tag, [table[tag]])
    decreases 0x1_0000 - from
  {
    var rest := TableFrom(table, from + 1);
    var front := if from in table then [Field(from, [table[from]])] else [];
    assert TableFrom(table, from) == front + rest;
    if from == tag {
      assert (front + rest)[0] == Field(tag, [table[tag]]);
    } else {
      TableHas(table, from + 1, tag);
      var i :| 0 <= i < |rest| && rest[i] == Field(tag, [table[tag]]);
      assert (front + rest)[|front| + i] == Field(tag, [table[tag]]);
    }
  }

  lemma {:induction false} TableLookup(table: map<u16, byte>, tag: u16)
    ensures Lookup(TableFrom(table, 0), tag) == if tag in table then Some([table[tag]]) else None
  {
    hide TableFrom, Lookup, Increasing;
    TableIncreases(table, 0);
    var fs := TableFrom(table, 0);
    if tag in table {
      TableHas(table, 0, tag);
      var i :| 0 <= i < |fs| && fs[i] == Field(tag, [table[tag]]);
      LookupFound(fs, i);
    } else {
      LookupAbsent(fs, tag);
    }
  }

  lemma {:induction false} TableSize(table: map<u16, byte>, from: nat)
    requires from <= 0x1_0000
    ensures |Emit(TableFrom(table, from))| <= 7 * (0x1_0000 - from)
    decreases 0x1_0000 - from
  {
    hide Record;
    if from < 0x1_0000 {
      TableSize(table, from + 1);
      var rest := TableFrom(table, from + 1);
      if from in table {
        EmitAppend([Field(from, [table[from]])], rest);
        EmitOfOne(Field(from, [table[from]]));
      } else {
        assert [] + rest == rest;
      }
    }
  }

  // ---- Encoding -------------------------------------------------------------------------

  /** Denials and unknown actions are written too; an unknown action is written as denied. */
  function ActionTable(p: Policy): map<u16, byte> {
    map t: u16 | t in p.unknownActions + {1, 2, 3, 4, 5, 6} ::
      if TagAction(t).Some? && RuleOf(p, TagAction(t).value) == Allow then 1 else 0
  }

  function BindingTable(p: Policy): map<u16, byte> {
    map t: u16 | t in {1, 2, 3, 4, 5, 6} ::
      BindingByte(if TagAction(t).Some? then BindingOf(p, TagAction(t).value) else Software)
  }

  function CommonFields(p: Policy): seq<Field> {
    [ Field(ACTIONS, Emit(TableFrom(ActionTable(p), 0))), Field(VALIDITY, ValidityBytes(p.validity)),
      Field(NETWORK, NetworkBytes(p.network)), Field(MIN_BINDING, [BindingByte(p.minBinding)]),
      Field(MAX_OPENS, MaxOpensBytes(p.maxOpens)), Field(WATERMARK, [if p.watermark then 1 else 0]) ]
  }

  function PolicyFields(version: u16, p: Policy): seq<Field> {
    CommonFields(p)
    + if version >= FIRST_ACTION_BINDING_VERSION then [Field(ACTION_BINDING, Emit(TableFrom(BindingTable(p), 0)))] else []
  }

  function EncodePolicy(version: u16, p: Policy): bytes {
    Emit(PolicyFields(version, p))
  }

  lemma {:induction false} PolicyFieldsCanonical(version: u16, p: Policy)
    ensures Canonical(PolicyFields(version, p))
  {
    hide Emit, Increasing, TableFrom;
    IncreasingByNeighbours(PolicyFields(version, p));
    TableSize(ActionTable(p), 0);
    TableSize(BindingTable(p), 0);
  }

  lemma {:induction false} SmallValues(p: Policy)
    ensures |ValidityBytes(p.validity)| <= 17 && |NetworkBytes(p.network)| <= 17 && |MaxOpensBytes(p.maxOpens)| <= 4
  {
  }

  /** Write a table in key order. */
  method WriteTable(table: map<u16, byte>) returns (out: bytes)
    ensures out == Emit(TableFrom(table, 0))
  {
    hide Emit, Canonical;
    var w := new TlvWriter();
    var tag: nat := 0;
    while tag < 0x1_0000
      invariant tag <= 0x1_0000 && fresh(w) && w.Valid()
      invariant w.lastTag.Some? ==> w.lastTag.value < tag
      invariant w.fields + TableFrom(table, tag) == TableFrom(table, 0)
    {
      ghost var rest := TableFrom(table, tag + 1);
      if tag in table {
        Regroup(w.fields, [Field(tag, [table[tag]])], rest);
        var put := w.Put(tag, [table[tag]]);
      } else {
        assert [] + rest == rest;
      }
      tag := tag + 1;
    }
    assert w.fields + [] == w.fields;
    return w.buf;
  }

  /** The map of all actions, known and unknown, that `encode` collects before writing. */
  method CollectActions(p: Policy) returns (table: map<u16, byte>)
    ensures table == ActionTable(p)
  {
    hide RuleOf, ActionTable;
    table := DenyAll(p.unknownActions);
    var i := 0;
    while i < |ALL_ACTIONS|
      invariant 0 <= i <= 6
      invariant forall t: u16 :: t in table <==> t in p.unknownActions || 1 <= t <= i
      invariant forall t: u16 :: t in table ==>
                  table[t] == if 1 <= t <= i && RuleOf(p, TagAction(t).value) == Allow then 1 else 0
    {
      var action := ALL_ACTIONS[i];
      assert ActionTag(action) == i + 1;
      table := table[ActionTag(action) := if RuleOf(p, action) == Allow then 1 else 0];
      i := i + 1;
    }
    TableOfAllActions(p, table);
  }

  lemma {:induction false} TableOfAllActions(p: Policy, table: map<u16, byte>)
    requires forall t: u16 :: t in table <==> t in p.unknownActions || 1 <= t <= 6
    requires forall t: u16 :: t in table ==> table[t] == if 1 <= t <= 6 && RuleOf(p, TagAction(t).value) == Allow then 1 else 0
    ensures table == ActionTable(p)
  {
    assert forall t: u16 :: t in table <==> t in ActionTable(p);
    assert forall t: u16 :: t in table ==> table[t] == ActionTable(p)[t];
  }

  method DenyAll(tags: set<u16>) returns (table: map<u16, byte>)
    ensures table.Keys == tags && forall t: u16 :: t in table ==> table[t] == 0
  {
    table := map[];
    var todo := tags;
    while todo != {}
      invariant todo <= tags && table.Keys == tags - todo
      invariant forall t: u16 :: t in table ==> table[t] == 0
      decreases |todo|
    {
      var tag :| tag in todo;
      table := table[tag := 0];
      todo := todo - {tag};
    }
  }

  method WritePolicy(version: u16, p: Policy) returns (out: bytes)
    ensures out == EncodePolicy(version, p)
  {
    hide Emit, Canonical, TableFrom, ActionTable, BindingTable, NetworkBytes, ValidityBytes, MaxOpensBytes;
    SmallValues(p);
    TableSize(ActionTable(p), 0);
    TableSize(BindingTable(p), 0);
    var w := new TlvWriter();
    var table := CollectActions(p);
    var actions := WriteTable(table);
    var put := w.Put(ACTIONS, actions);
    put := w.Put(VALIDITY, ValidityBytes(p.validity));
    put := w.Put(NETWORK, NetworkBytes(p.network));
    put := w.Put(MIN_BINDING, [BindingByte(p.minBinding)]);
    put := w.Put(MAX_OPENS, MaxOpensBytes(p.maxOpens));
    put := w.Put(WATERMARK, [if p.watermark then 1 else 0]);
    assert w.fields == CommonFields(p);
    hide CommonFields;
    if version >= FIRST_ACTION_BINDING_VERSION {
      var bindings := WriteTable(BindingTable(p));
      put := w.Put(ACTION_BINDING, bindings);
    }
    assert w.fields == PolicyFields(version, p);
    return w.buf;
  }

  // ---- Decoding -------------------------------------------------------------------------

  function ActionCheck(f: Field): Option<FormatError> {
    LengthIs(f, 1)
  }

  /** Exactly one byte value permits; an absent action stays denied. */
  function AllowedIn(fields: seq<Field>): map<Action, Rule> {
    map a: Action | Lookup(fields, ActionTag(a)) == Some([1]) :: Allow
  }

  function UnknownIn(fields: seq<Field>): set<u16> {
    set f | f in fields && TagAction(f.tag).None? :: f.tag
  }

  function DecodeActions(v: bytes): Result<(map<Action, Rule>, set<u16>), FormatError> {
    match Checked(v, ActionCheck)
    case Err(e) => Err(e)
    case Ok(fields) => Ok((AllowedIn(fields), UnknownIn(fields)))
  }

  function BindingCheck(f: Field): Option<FormatError> {
    if |f.value| == 1 && ByteBinding(f.value[0]).Some? then None else Some(BadFieldLength(f.tag, |f.value|))
  }

  function RaisedTo(v: Option<bytes>): Binding {
    if v.Some? && |v.value| == 1 && ByteBinding(v.value[0]).Some? then ByteBinding(v.value[0]).value else Software
  }

  /** The weakest level is not stored: it says no more than absence. */
  function RaisedIn(fields: seq<Field>): map<Action, Binding> {
    map a: Action | RaisedTo(Lookup(fields, ActionTag(a))) != Software :: RaisedTo(Lookup(fields, ActionTag(a)))
  }

  function DecodeActionBinding(v: bytes): Result<map<Action, Binding>, FormatError> {
    match Checked(v, BindingCheck)
    case Err(e) => Err(e)
    case Ok(fields) => Ok(RaisedIn(fields))
  }

  /** An unknown tag inside a policy is refused whatever its range. */
  function PolicyCheck(version: u16, f: Field): Option<FormatError> {
    if f.tag == ACTIONS then Failure(DecodeActions(f.value))
    else if f.tag == VALIDITY then Failure(DecodeValidity(f.value))
    else if f.tag == NETWORK then Failure(DecodeNetwork(f.value))
    else if f.tag == MIN_BINDING then BindingCheck(f)
    else if f.tag == MAX_OPENS then Failure(DecodeMaxOpens(f.value))
    else if f.tag == WATERMARK then LengthIs(f, 1)
    else if f.tag == ACTION_BINDING && version >= FIRST_ACTION_BINDING_VERSION then Failure(DecodeActionBinding(f.value))
    else Some(UnknownCriticalField(f.tag))
  }

  function PolicyCheckAt(version: u16): Field -> Option<FormatError> {
    f => PolicyCheck(version, f)
  }

  /** The strict reading of a field that may be absent. */
  function ReadActions(v: Option<bytes>): (map<Action, Rule>, set<u16>) {
    if v.Some? && DecodeActions(v.value).Ok? then DecodeActions(v.value).value else (map[], {})
  }

  function ReadValidity(v: Option<bytes>): Validity {
    if v.Some? && DecodeValidity(v.value).Ok? then DecodeValidity(v.value).value else Always
  }

  function ReadNetwork(v: Option<bytes>): Network {
    if v.Some? && DecodeNetwork(v.value).Ok? then DecodeNetwork(v.value).value else StrictOnline
  }

  function ReadMaxOpens(v: Option<bytes>): Option<u32> {
    if v.Some? && DecodeMaxOpens(v.value).Ok? then DecodeMaxOpens(v.value).value else Some(OPENS_WHEN_THE_FIELD_IS_ABSENT)
  }

  function ReadWatermark(v: Option<bytes>): bool {
    v.Some? && |v.value| == 1 ==> v.value[0] != 0
  }

  function ReadActionBinding(v: Option<bytes>): map<Action, Binding> {
    if v.Some? && DecodeActionBinding(v.value).Ok? then DecodeActionBinding(v.value).value else map[]
  }

  function PolicyIn(fields: seq<Field>): Policy {
    var (actions, unknown) := ReadActions(Lookup(fields, ACTIONS));
    Policy(actions, ReadValidity(Lookup(fields, VALIDITY)), ReadMaxOpens(Lookup(fields, MAX_OPENS)),
           ReadNetwork(Lookup(fields, NETWORK)), RaisedTo(Lookup(fields, MIN_BINDING)),
           ReadActionBinding(Lookup(fields, ACTION_BINDING)), ReadWatermark(Lookup(fields, WATERMARK)), unknown)
  }

  function BuildPolicy(version: u16, fields: seq<Field>): Result<Policy, FormatError> {
    if Lookup(fields, ACTIONS).None? then Err(MissingField(ACTIONS))
    else if Lookup(fields, VALIDITY).None? then Err(MissingField(VALIDITY))
    else if Lookup(fields, NETWORK).None? then Err(MissingField(NETWORK))
    else if Lookup(fields, MIN_BINDING).None? then Err(MissingField(MIN_BINDING))
    else if version >= FIRST_ACTION_BINDING_VERSION && Lookup(fields, ACTION_BINDING).None? then Err(MissingField(ACTION_BINDING))
    else Ok(PolicyIn(fields))
  }

  function DecodePolicy(version: u16, v: bytes): Result<Policy, FormatError> {
    match Checked(v, PolicyCheckAt(version))
    case Err(e) => Err(e)
    case Ok(fields) => BuildPolicy(version, fields)
  }

  // ---- The decoder loops ------------------------------------------------------------------

  method ParseActions(v: bytes) returns (r: Result<(map<Action, Rule>, set<u16>), FormatError>)
    ensures r == DecodeActions(v)
  {
    hide Reading, Checked, NextAt, Lookup, ReadAll;
    var reader := new TlvReader(v);
    var actions: map<Action, Rule>, unknown: set<u16> := map[], {};
    ghost var seen: seq<Field> := [];
    ReadingStarts(v, ActionCheck);
    LookupOfNothing();
    while true
      invariant reader.Valid() && fresh(reader) && reader.buf == v
      invariant Reading(v, ActionCheck, reader.pos, reader.lastTag, seen) && Increasing(None, seen)
      invariant reader.lastTag == if seen == [] then None else Some(seen[|seen| - 1].tag)
      invariant actions == AllowedIn(seen) && unknown == UnknownIn(seen)
      decreases |v| - reader.pos
    {
      ReadingStep(v, ActionCheck, reader.pos, reader.lastTag, seen);
      NextIsAbove(v, reader.pos, reader.lastTag, seen);
      var next := reader.NextField();
      if next.Err? {
        return Err(next.error);
      }
      if next.value.None? {
        break;
      }
      var field := next.value.value.field;
      if |field.value| != 1 {
        return Err(BadFieldLength(field.tag, |field.value|));
      }
      var ruleByte := field.value[0];
      AllowedStep(seen, field);
      match TagAction(field.tag) {
        case Some(action) =>
          if ruleByte == 1 {
            actions := actions[action := Allow];
          }
        case None => unknown := unknown + {field.tag};
      }
      seen := seen + [field];
    }
    return Ok((actions, unknown));
  }

  /** The next field is new: its tag is above all that were read. */
  lemma {:induction false} NextIsAbove(buf: bytes, pos: nat, last: Option<u16>, seen: seq<Field>)
    requires pos <= |buf| && Increasing(None, seen)
    requires last == if seen == [] then None else Some(seen[|seen| - 1].tag)
    ensures var next := NextAt(buf, pos, last);
            next.Ok? && next.value.Some? ==>
              var f := next.value.value.field;
              Increasing(None, seen + [f]) && Lookup(seen, f.tag) == None
  {
    hide Lookup;
    var next := NextAt(buf, pos, last);
    if next.Ok? && next.value.Some? {
      var f := next.value.value.field;
      IncreasingAppend(None, seen, [f]);
      if Lookup(seen, f.tag).Some? {
        LookupPresent(seen, f.tag);
        var i :| 0 <= i < |seen| && seen[i].tag == f.tag;
        IncreasingBelow(seen, i);
      }
    }
  }

  lemma {:induction false} AllowedStep(seen: seq<Field>, f: Field)
    requires Lookup(seen, f.tag) == None
    ensures AllowedIn(seen + [f]) ==
            if TagAction(f.tag).Some? && f.value == [1] then AllowedIn(seen)[TagAction(f.tag).value := Allow] else AllowedIn(seen)
    ensures UnknownIn(seen + [f]) == if TagAction(f.tag).None? then UnknownIn(seen) + {f.tag} else UnknownIn(seen)
  {
    hide Lookup;
    LookupAppendAll(seen, f);
    assert forall g :: g in seen + [f] <==> g in seen || g == f;
  }

  lemma {:induction false} RaisedStep(seen: seq<Field>, f: Field)
    requires Lookup(seen, f.tag) == None && BindingCheck(f) == None
    ensures var b := ByteBinding(f.value[0]).value;
            RaisedIn(seen + [f]) ==
            if TagAction(f.tag).Some? && b != Software then RaisedIn(seen)[TagAction(f.tag).value := b] else RaisedIn(seen)
  {
    hide Lookup;
    LookupAppendAll(seen, f);
  }

  method ParseActionBinding(v: bytes) returns (r: Result<map<Action, Binding>, FormatError>)
    ensures r == DecodeActionBinding(v)
  {
    hide Reading, Checked, NextAt, Lookup, ReadAll;
    var reader := new TlvReader(v);
    var raised: map<Action, Binding> := map[];
    ghost var seen: seq<Field> := [];
    ReadingStarts(v, BindingCheck);
    LookupOfNothing();
    while true
      invariant reader.Valid() && fresh(reader) && reader.buf == v
      invariant Reading(v, BindingCheck, reader.pos, reader.lastTag, seen) && Increasing(None, seen)
      invariant reader.lastTag == if seen == [] then None else Some(seen[|seen| - 1].tag)
      invariant raised == RaisedIn(seen)
      decreases |v| - reader.pos
    {
      ReadingStep(v, BindingCheck, reader.pos, reader.lastTag, seen);
      NextIsAbove(v, reader.pos, reader.lastTag, seen);
      var next := reader.NextField();
      if next.Err? {
        return Err(next.error);
      }
      if next.value.None? {
        break;
      }
      var field := next.value.value.field;
      var bad := BindingCheck(field);
      if bad.Some? {
        return Err(bad.value);
      }
      var binding := ByteBinding(field.value[0]).value;
      RaisedStep(seen, field);
      seen := seen + [field];
      if binding == Software {
        continue;
      }
      var action := TagAction(field.tag);
      if action.Some? {
        raised := raised[action.value := binding];
      }
    }
    return Ok(raised);
  }

  /** What one more field does to the policy. */
  function Absorb(p: Policy, f: Field): Policy {
    if f.tag == ACTIONS then
      p.(actions := ReadActions(Some(f.value)).0, unknownActions := ReadActions(Some(f.value)).1)
    else if f.tag == VALIDITY then p.(validity := ReadValidity(Some(f.value)))
    else if f.tag == NETWORK then p.(network := ReadNetwork(Some(f.value)))
    else if f.tag == MIN_BINDING then p.(minBinding := RaisedTo(Some(f.value)))
    else if f.tag == MAX_OPENS then p.(maxOpens := ReadMaxOpens(Some(f.value)))
    else if f.tag == WATERMARK then p.(watermark := ReadWatermark(Some(f.value)))
    else if f.tag == ACTION_BINDING then p.(actionBinding := ReadActionBinding(Some(f.value)))
    else p
  }

  lemma {:induction false} PolicyInStep(seen: seq<Field>, f: Field)
    ensures PolicyIn(seen + [f]) == Absorb(PolicyIn(seen), f)
  {
    hide Lookup, ReadActions, ReadValidity, ReadNetwork, RaisedTo, ReadMaxOpens, ReadWatermark, ReadActionBinding;
    LookupAppendAll(seen, f);
  }

  /** One field of the policy: refused, or read into its place. */
  method TakeField(version: u16, p: Policy, field: Field) returns (r: Result<Policy, FormatError>)
    ensures r == match PolicyCheck(version, field)
                 case Some(e) => Err(e)
                 case None => Ok(Absorb(p, field))
  {
    hide DecodeActions, DecodeActionBinding, DecodeValidity, DecodeNetwork, DecodeMaxOpens;
    if field.tag == ACTIONS {
      var parsed := ParseActions(field.value);
      if parsed.Err? {
        return Err(parsed.error);
      }
      return Ok(p.(actions := parsed.value.0, unknownActions := parsed.value.1));
    } else if field.tag == ACTION_BINDING && version >= FIRST_ACTION_BINDING_VERSION {
      var parsed := ParseActionBinding(field.value);
      if parsed.Err? {
        return Err(parsed.error);
      }
      return Ok(p.(actionBinding := parsed.value));
    }
    var bad := PolicyCheck(version, field);
    if bad.Some? {
      return Err(bad.value);
    }
    if field.tag == VALIDITY {
      r := Ok(p.(validity := DecodeValidity(field.value).value));
    } else if field.tag == NETWORK {
      r := Ok(p.(network := DecodeNetwork(field.value).value));
    } else if field.tag == MIN_BINDING {
      r := Ok(p.(minBinding := ByteBinding(field.value[0]).value));
    } else if field.tag == MAX_OPENS {
      r := Ok(p.(maxOpens := DecodeMaxOpens(field.value).value));
    } else {
      r := Ok(p.(watermark := field.value[0] != 0));
    }
  }

  method ParsePolicy(version: u16, v: bytes) returns (r: Result<Policy, FormatError>)
    ensures r == DecodePolicy(version, v)
  {
    hide Reading, Checked, NextAt, Lookup, ReadAll, DecodeActions, DecodeActionBinding, DecodeValidity, DecodeNetwork, DecodeMaxOpens;
    var check := PolicyCheckAt(version);
    var reader := new TlvReader(v);
    var policy := Policy(map[], Always, Some(OPENS_WHEN_THE_FIELD_IS_ABSENT), StrictOnline, Software, map[], true, {});
    assert policy == PolicyIn([]) by { LookupOfNothing(); }
    hide PolicyIn, Absorb, PolicyCheck;
    var seenActions, seenValidity, seenNetwork, seenBinding, seenActionBinding := false, false, false, false, false;
    ghost var seen: seq<Field> := [];
    ReadingStarts(v, check);
    LookupOfNothing();
    while true
      invariant reader.Valid() && fresh(reader) && reader.buf == v
      invariant Reading(v, check, reader.pos, reader.lastTag, seen)
      invariant policy == PolicyIn(seen)
      invariant seenActions == Lookup(seen, ACTIONS).Some? && seenValidity == Lookup(seen, VALIDITY).Some?
      invariant seenNetwork == Lookup(seen, NETWORK).Some? && seenBinding == Lookup(seen, MIN_BINDING).Some?
      invariant seenActionBinding == Lookup(seen, ACTION_BINDING).Some?
      decreases |v| - reader.pos
    {
      ReadingStep(v, check, reader.pos, reader.lastTag, seen);
      var next := reader.NextField();
      if next.Err? {
        return Err(next.error);
      }
      if next.value.None? {
        break;
      }
      var field := next.value.value.field;
      LookupAppendAll(seen, field);
      PolicyInStep(seen, field);
      seen := seen + [field];
      var taken := TakeField(version, policy, field);
      if taken.Err? {
        return Err(taken.error);
      }
      policy := taken.value;
      seenActions := seenActions || field.tag == ACTIONS;
      seenValidity := seenValidity || field.tag == VALIDITY;
      seenNetwork := seenNetwork || field.tag == NETWORK;
      seenBinding := seenBinding || field.tag == MIN_BINDING;
      seenActionBinding := seenActionBinding || field.tag == ACTION_BINDING;
    }
    if !seenActions { return Err(MissingField(ACTIONS)); }
    if !seenValidity { return Err(MissingField(VALIDITY)); }
    if !seenNetwork { return Err(MissingField(NETWORK)); }
    if !seenBinding { return Err(MissingField(MIN_BINDING)); }
    if version >= FIRST_ACTION_BINDING_VERSION && !seenActionBinding { return Err(MissingField(ACTION_BINDING)); }
    return Ok(policy);
  }

  // ---- Normal form -----------------------------------------------------------------------

  /** The policy as it can be written: permissions only, unknown tags only, raised levels only. */
  function Normal(version: u16, p: Policy): Policy {
    p.(actions := map a: Action | RuleOf(p, a) == Allow :: Allow,
       actionBinding := if version < FIRST_ACTION_BINDING_VERSION then map[]
                        else map a: Action | BindingOf(p, a) != Software :: BindingOf(p, a),
       unknownActions := set t | t in p.unknownActions && TagAction(t).None?)
  }

  lemma {:induction false} AllowedInTable(p: Policy)
    ensures AllowedIn(TableFrom(ActionTable(p), 0)) == Normal(0, p).actions
  {
    hide TableFrom, Lookup;
    var table, fs := ActionTable(p), TableFrom(ActionTable(p), 0);
    forall a: Action
      ensures Lookup(fs, ActionTag(a)) == Some([if RuleOf(p, a) == Allow then 1 else 0])
    {
      assert ActionTag(a) in table;
      TableLookup(table, ActionTag(a));
    }
  }

  lemma {:induction false} UnknownInTable(p: Policy)
    ensures UnknownIn(TableFrom(ActionTable(p), 0)) == Normal(0, p).unknownActions
  {
    hide TableFrom, Increasing;
    var table, fs := ActionTable(p), TableFrom(ActionTable(p), 0);
    TableIncreases(table, 0);
    forall t: u16
      ensures t in UnknownIn(fs) <==> t in Normal(0, p).unknownActions
    {
      if t in Normal(0, p).unknownActions {
        assert t in table;
        TableHas(table, 0, t);
        var i :| 0 <= i < |fs| && fs[i] == Field(t, [table[t]]);
        assert fs[i] in fs;
      }
      if t in UnknownIn(fs) {
        var f :| f in fs && TagAction(f.tag).None? && f.tag == t;
        var i :| 0 <= i < |fs| && fs[i] == f;
        assert t in table;
      }
    }
  }

  lemma {:induction false} ActionsOfEncoded(p: Policy)
    ensures DecodeActions(Emit(TableFrom(ActionTable(p), 0)))
         == Ok((Normal(0, p).actions, Normal(0, p).unknownActions))
  {
    hide Emit, TableFrom, Lookup, Checked, Increasing, ActionTable, Normal, AllowedIn, UnknownIn;
    var fs := TableFrom(ActionTable(p), 0);
    TableIncreases(ActionTable(p), 0);
    CheckedIs(Emit(fs), ActionCheck, fs);
    AllowedInTable(p);
    UnknownInTable(p);
  }

  lemma {:induction false} RaisedInTable(version: u16, p: Policy)
    requires version >= FIRST_ACTION_BINDING_VERSION
    ensures RaisedIn(TableFrom(BindingTable(p), 0)) == Normal(version, p).actionBinding
  {
    hide TableFrom, Lookup;
    var table, fs := BindingTable(p), TableFrom(BindingTable(p), 0);
    forall a: Action
      ensures Lookup(fs, ActionTag(a)) == Some([BindingByte(BindingOf(p, a))])
    {
      assert ActionTag(a) in table;
      TableLookup(table, ActionTag(a));
    }
  }

  lemma {:induction false} BindingsOfEncoded(version: u16, p: Policy)
    requires version >= FIRST_ACTION_BINDING_VERSION
    ensures DecodeActionBinding(Emit(TableFrom(BindingTable(p), 0))) == Ok(Normal(version, p).actionBinding)
  {
    hide Emit, TableFrom, Lookup, Checked, Increasing, Normal, RaisedIn;
    var table, fs := BindingTable(p), TableFrom(BindingTable(p), 0);
    TableIncreases(table, 0);
    forall i | 0 <= i < |fs|
      ensures BindingCheck(fs[i]) == None
    {
      assert fs[i].value == [table[fs[i].tag]];
    }
    CheckedIs(Emit(fs), BindingCheck, fs);
    RaisedInTable(version, p);
  }

  /** What each tag of an encoded policy holds. */
  function PolicyValue(version: u16, p: Policy, tag: u16): Option<bytes> {
    if tag == ACTIONS then Some(Emit(TableFrom(ActionTable(p), 0)))
    else if tag == VALIDITY then Some(ValidityBytes(p.validity))
    else if tag == NETWORK then Some(NetworkBytes(p.network))
    else if tag == MIN_BINDING then Some([BindingByte(p.minBinding)])
    else if tag == MAX_OPENS then Some(MaxOpensBytes(p.maxOpens))
    else if tag == WATERMARK then Some([if p.watermark then 1 else 0])
    else if tag == ACTION_BINDING && version >= FIRST_ACTION_BINDING_VERSION then Some(Emit(TableFrom(BindingTable(p), 0)))
    else None
  }

  lemma {:induction false} PolicyLookup(version: u16, p: Policy, tag: u16)
    ensures Lookup(PolicyFields(version, p), tag) == PolicyValue(version, p, tag)
  {
    hide Lookup, Increasing, Emit, TableFrom, ActionTable, BindingTable, ValidityBytes, NetworkBytes, MaxOpensBytes;
    var fs := PolicyFields(version, p);
    PolicyFieldsCanonical(version, p);
    if 1 <= tag <= |fs| {
      LookupFound(fs, tag - 1);
    } else {
      LookupAbsent(fs, tag);
    }
  }

  lemma {:induction false} PolicyFieldsPass(version: u16, p: Policy, i: nat)
    requires i < |PolicyFields(version, p)|
    ensures PolicyCheckAt(version)(PolicyFields(version, p)[i]) == None
  {
    hide Emit, TableFrom, DecodeActions, DecodeActionBinding, DecodeValidity, DecodeNetwork, DecodeMaxOpens,
         ActionTable, BindingTable, ValidityBytes, NetworkBytes, MaxOpensBytes;
    ValueRoundTrips(p);
    ActionsOfEncoded(p);
    if version >= FIRST_ACTION_BINDING_VERSION { BindingsOfEncoded(version, p); }
  }

  // ---- Dropping fields -------------------------------------------------------------------

  /** An encoded policy with some top-level fields dropped is decoded field by field. */
  lemma {:induction false} DecodeOfKept(version: u16, p: Policy, keep: set<u16>)
    ensures DecodePolicy(version, Emit(Kept(PolicyFields(version, p), keep)))
         == BuildPolicy(version, Kept(PolicyFields(version, p), keep))
  {
    hide Emit, PolicyFields, Kept, Checked, BuildPolicy, Increasing, Lookup, PolicyCheckAt;
    var fs := PolicyFields(version, p);
    var kept := Kept(fs, keep);
    PolicyFieldsCanonical(version, p);
    KeptIs(fs, keep);
    KeptFrom(fs, keep);
    forall i | 0 <= i < |kept|
      ensures PolicyCheckAt(version)(kept[i]) == None && |kept[i].value| <= U32_MAX
    {
      var j :| 0 <= j < |fs| && fs[j] == kept[i];
      PolicyFieldsPass(version, p, j);
    }
    CheckedIs(Emit(kept), PolicyCheckAt(version), kept);
  }

  /** The fields without which no policy is read. */
  function Mandatory(version: u16): set<u16> {
    {ACTIONS, VALIDITY, NETWORK, MIN_BINDING} + if version >= FIRST_ACTION_BINDING_VERSION then {ACTION_BINDING} else {}
  }

  /** The level an action requires: an entry can only raise the policy's own. */
  function Required(p: Policy, a: Action): Binding {
    Strongest(p.minBinding, BindingOf(p, a))
  }

  /** No setting of `q` asks for less than that of `p`. */
  predicate AtLeastAsStrict(q: Policy, p: Policy) {
    && (forall a: Action :: RuleOf(q, a) == Allow ==> RuleOf(p, a) == Allow)
    && q.validity == p.validity && q.network == p.network
    && (forall a: Action :: Level(Required(q, a)) >= Level(Required(p, a)))
    && (p.unknownActions != {} ==> q.unknownActions != {})
    && (p.watermark ==> q.watermark)
    && (p.maxOpens.Some? ==> q.maxOpens.Some? && q.maxOpens.value <= p.maxOpens.value)
  }

  /** What is read after dropping fields: the normal form, with the strict value for a missing modifier. */
  function WithoutDropped(version: u16, p: Policy, keep: set<u16>): Policy {
    Normal(version, p).(maxOpens := if MAX_OPENS in keep then p.maxOpens else Some(OPENS_WHEN_THE_FIELD_IS_ABSENT),
                        watermark := WATERMARK !in keep || p.watermark)
  }

  lemma {:induction false} BuildOfKept(version: u16, p: Policy, keep: set<u16>)
    ensures var r := BuildPolicy(version, Kept(PolicyFields(version, p), keep));
            if Mandatory(version) <= keep then r == Ok(WithoutDropped(version, p, keep)) else r.Err?
  {
    hide Emit, PolicyFields, Kept, Increasing, Lookup, TableFrom, ActionTable, BindingTable,
         ValidityBytes, NetworkBytes, MaxOpensBytes, DecodeActions, DecodeActionBinding, DecodeValidity, DecodeNetwork, DecodeMaxOpens;
    PolicyFieldsCanonical(version, p);
    KeptIs(PolicyFields(version, p), keep);
    PolicyLookup(version, p, ACTIONS);
    PolicyLookup(version, p, VALIDITY);
    PolicyLookup(version, p, NETWORK);
    PolicyLookup(version, p, MIN_BINDING);
    PolicyLookup(version, p, MAX_OPENS);
    PolicyLookup(version, p, WATERMARK);
    PolicyLookup(version, p, ACTION_BINDING);
    ValueRoundTrips(p);
    ActionsOfEncoded(p);
    if version >= FIRST_ACTION_BINDING_VERSION { BindingsOfEncoded(version, p); }
  }

  /**
    What encoding at a version does not lose: below version 4 no entry may ask for more than the
    policy as a whole, and a set of unknown actions must hold one that is unknown.
   */
  predicate Expressible(version: u16, p: Policy) {
    && (version >= FIRST_ACTION_BINDING_VERSION || forall a: Action :: Level(BindingOf(p, a)) <= Level(p.minBinding))
    && (p.unknownActions != {} ==> exists t: u16 :: t in p.unknownActions && TagAction(t).None?)
  }

  lemma {:induction false} BindingsKept(version: u16, p: Policy)
    ensures (forall a: Action :: Level(Required(Normal(version, p), a)) >= Level(Required(p, a)))
            <==> (version >= FIRST_ACTION_BINDING_VERSION || forall a: Action :: Level(BindingOf(p, a)) <= Level(p.minBinding))
  {
    var q := Normal(version, p);
    forall a: Action
      ensures BindingOf(q, a) == if version < FIRST_ACTION_BINDING_VERSION then Software else BindingOf(p, a)
    {
    }
    if version < FIRST_ACTION_BINDING_VERSION {
      forall a: Action
        ensures Level(Required(q, a)) >= Level(Required(p, a)) <==> Level(BindingOf(p, a)) <= Level(p.minBinding)
      {
      }
    }
  }

  lemma {:induction false} UnknownKept(version: u16, p: Policy)
    ensures Normal(version, p).unknownActions != {} <==> exists t: u16 :: t in p.unknownActions && TagAction(t).None?
  {
    var kept := Normal(version, p).unknownActions;
    if t: u16 :| t in p.unknownActions && TagAction(t).None? { assert t in kept; }
    if kept != {} {
      var t :| t in kept;
      assert t in p.unknownActions && TagAction(t).None?;
    }
  }

  /**
    Dropping any top-level fields of an encoded policy either fails, exactly when a mandatory one
    is gone, or gives a policy at least as strict in every setting as the one encoded, exactly when
    that one can be expressed at this version and its open limit was kept or was not zero: an
    absent limit reads as one open.
   */
  lemma {:induction false} DroppingFieldsNeverRelaxes(version: u16, p: Policy, keep: set<u16>)
    ensures var r := DecodePolicy(version, Emit(Kept(PolicyFields(version, p), keep)));
            && (r.Ok? <==> Mandatory(version) <= keep)
            && (r.Ok? ==> (AtLeastAsStrict(r.value, p) <==> Expressible(version, p) && (MAX_OPENS in keep || p.maxOpens != Some(0))))
  {
    hide DecodePolicy, BuildPolicy, Kept, PolicyFields, Emit, Level, Strongest;
    DecodeOfKept(version, p, keep);
    BuildOfKept(version, p, keep);
    var q, n := WithoutDropped(version, p, keep), Normal(version, p);
    assert forall a: Action :: RuleOf(q, a) == RuleOf(p, a);
    assert forall a: Action :: Required(q, a) == Required(n, a);
    BindingsKept(version, p);
    UnknownKept(version, p);
  }

  const DENY_ALL := Policy(map[], Always, None, StrictOnline, Software, map[], false, {})

  /** A limit of zero opens, dropped, reads as one open. */
  lemma {:induction false} ZeroLimitIsRelaxed()
    ensures var p := DENY_ALL.(actions := map[View := Allow], maxOpens := Some(0));
            var r := DecodePolicy(5, Emit(Kept(PolicyFields(5, p), Mandatory(5))));
            r.Ok? && r.value.maxOpens == Some(1) && RuleOf(r.value, View) == Allow && !AtLeastAsStrict(r.value, p)
  {
    hide DecodePolicy, BuildPolicy, Kept, PolicyFields, Emit;
    var p := DENY_ALL.(actions := map[View := Allow], maxOpens := Some(0));
    DecodeOfKept(5, p, Mandatory(5));
    BuildOfKept(5, p, Mandatory(5));
    assert RuleOf(WithoutDropped(5, p, Mandatory(5)), View) == RuleOf(p, View);
  }

  /** Below version 4 a raised binding is not written at all. */
  lemma {:induction false} BindingIsLostBelowVersionFour()
    ensures var p := DENY_ALL.(actions := map[Edit := Allow], actionBinding := map[Edit := Hardware]);
            var r := DecodePolicy(3, EncodePolicy(3, p));
            && r.Ok? && RuleOf(r.value, Edit) == Allow
            && Required(p, Edit) == Hardware && Required(r.value, Edit) == Software && !AtLeastAsStrict(r.value, p)
  {
    hide DecodePolicy, EncodePolicy;
    var p := DENY_ALL.(actions := map[Edit := Allow], actionBinding := map[Edit := Hardware]);
    DecodeOfEncode(3, p);
    assert RuleOf(Normal(3, p), Edit) == RuleOf(p, Edit);
    assert Required(Normal(3, p), Edit) == Software && Required(p, Edit) == Hardware;
  }

  /** Every encoded policy fits a field value. */
  lemma {:induction false} PolicyIsSmall(version: u16, p: Policy)
    ensures |EncodePolicy(version, p)| <= U32_MAX
  {
    hide Emit, TableFrom, ActionTable, BindingTable, ValidityBytes, NetworkBytes, MaxOpensBytes;
    SmallValues(p);
    TableSize(ActionTable(p), 0);
    TableSize(BindingTable(p), 0);
    EmitIsBounded(PolicyFields(version, p), 7 * 0x1_0000);
  }

  /** Encoding then decoding gives the normal form. */
  lemma {:induction false} DecodeOfEncode(version: u16, p: Policy)
    ensures DecodePolicy(version, EncodePolicy(version, p)) == Ok(Normal(version, p))
  {
    hide DecodePolicy, BuildPolicy, PolicyFields, Emit;
    var fs := PolicyFields(version, p);
    var keep := set f | f in fs :: f.tag;
    KeepEverything(fs, keep);
    DecodeOfKept(version, p, keep);
    BuildOfKept(version, p, keep);
    TagsOfPolicy(version, p);
  }

  lemma {:induction false} TagsOfPolicy(version: u16, p: Policy)
    ensures var keep := set f | f in PolicyFields(version, p) :: f.tag;
            Mandatory(version) <= keep && MAX_OPENS in keep && WATERMARK in keep
  {
    hide Emit, TableFrom, ActionTable, BindingTable, ValidityBytes, NetworkBytes, MaxOpensBytes;
    var fs := PolicyFields(version, p);
    assert fs[0] in fs && fs[1] in fs && fs[2] in fs && fs[3] in fs && fs[4] in fs && fs[5] in fs;
    if version >= FIRST_ACTION_BINDING_VERSION { assert fs[6] in fs; }
  }

  /** Whatever is decoded is in normal form already. */
  lemma {:induction false} DecodedIsNormal(version: u16, v: bytes)
    requires DecodePolicy(version, v).Ok?
    ensures Normal(version, DecodePolicy(version, v).value) == DecodePolicy(version, v).value
  {
    hide Lookup, Emit, Increasing, DecodeValidity, DecodeNetwork, DecodeMaxOpens, Checked;
    var fields := Checked(v, PolicyCheckAt(version)).value;
    CheckedIs(v, PolicyCheckAt(version), fields);
    LookupChecked(fields, PolicyCheckAt(version), ACTION_BINDING);
  }

  /**
    Decode, encode, decode gives the same policy: unknown action tags are kept and no denial
    turns into a permission.
   */
  lemma {:induction false} NormalFormIsStable(version: u16, v: bytes)
    requires DecodePolicy(version, v).Ok?
    ensures var p := DecodePolicy(version, v).value;
            DecodePolicy(version, EncodePolicy(version, p)) == Ok(p)
  {
    DecodedIsNormal(version, v);
    DecodeOfEncode(version, DecodePolicy(version, v).value);
  }
}
