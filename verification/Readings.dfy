/**
  What the readers accept, spelled out over the records of the bytes they are given: which tags
  may and must be there, what each value may be, and what it is read as.
 */
module Readings {
  import opened Bytes
  import opened Tlv
  import opened Formats
  import Content
  import opened Policies

  /** The bytes are exactly these records, in increasing order of tags. */
  ghost predicate Spells(buf: bytes, fields: seq<Field>) {
    Canonical(fields) && Emit(fields) == buf
  }

  predicate Has(fields: seq<Field>, tag: u16, v: bytes) {
    Lookup(fields, tag) == Some(v)
  }

  /** A record under a tag is what a lookup finds, and nothing else is found. */
  lemma {:induction false} LookupMeans(fields: seq<Field>, tag: u16, v: bytes)
    requires Increasing(None, fields)
    ensures Has(fields, tag, v) <==> Field(tag, v) in fields
  {
    hide Lookup, Increasing;
    if Has(fields, tag, v) { LookupPresent(fields, tag); }
    if i :| 0 <= i < |fields| && fields[i] == Field(tag, v) { LookupFound(fields, i); }
  }

  /** Every record satisfies the check of its reader. */
  ghost predicate Passes(fields: seq<Field>, check: Field -> Option<FormatError>) {
    forall i :: 0 <= i < |fields| ==> check(fields[i]) == None
  }

  lemma {:induction false} CheckedMeans(buf: bytes, check: Field -> Option<FormatError>, fields: seq<Field>)
    ensures Checked(buf, check) == Ok(fields) <==> Spells(buf, fields) && Passes(fields, check)
  {
    hide Emit, Checked;
    CheckedIs(buf, check, fields);
  }

  // ---- Policies ----------------------------------------------------------------------------------

  function Number(a: Action): u16 {
    match a case View => 1 case Edit => 2 case Print => 3 case Clipboard => 4 case Export => 5 case Screenshot => 6
  }

  /** One byte per action; only the value one permits; tags that name no action are remembered. */
  ghost predicate ActionsMean(fields: seq<Field>, actions: map<Action, Rule>, unknown: set<u16>) {
    && (forall i :: 0 <= i < |fields| ==> |fields[i].value| == 1)
    && (forall a: Action :: a in actions <==> Has(fields, Number(a), [1]))
    && (forall a: Action :: a in actions ==> actions[a] == Allow)
    && (forall t: u16 :: t in unknown <==> !(1 <= t <= 6) && Lookup(fields, t).Some?)
  }

  lemma {:induction false} ActionsRead(buf: bytes, actions: map<Action, Rule>, unknown: set<u16>)
    ensures DecodeActions(buf) == Ok((actions, unknown)) <==> exists fields :: Spells(buf, fields) && ActionsMean(fields, actions, unknown)
  {
    hide Lookup, Checked, Spells;
    if DecodeActions(buf).Ok? {
      var fields := Checked(buf, ActionCheck).value;
      CheckedMeans(buf, ActionCheck, fields);
      ActionsBuilt(buf, fields);
    }
    forall fields | Spells(buf, fields) && ActionsMean(fields, actions, unknown)
      ensures DecodeActions(buf) == Ok((actions, unknown))
    {
      CheckedMeans(buf, ActionCheck, fields);
      ActionsBuilt(buf, fields);
      assert AllowedIn(fields) == actions;
      assert UnknownIn(fields) == unknown;
    }
  }

  lemma {:induction false} ActionsBuilt(buf: bytes, fields: seq<Field>)
    requires Spells(buf, fields) && forall i :: 0 <= i < |fields| ==> |fields[i].value| == 1
    ensures ActionsMean(fields, AllowedIn(fields), UnknownIn(fields))
  {
    hide Lookup, Emit, Increasing;
    forall a: Action
      ensures ActionTag(a) == Number(a)
    {
    }
    forall t: u16
      ensures t in UnknownIn(fields) <==> !(1 <= t <= 6) && Lookup(fields, t).Some?
    {
      if Lookup(fields, t).Some? { LookupPresent(fields, t); }
      if f :| f in fields && f.tag == t {
        var i :| 0 <= i < |fields| && fields[i] == f;
        LookupFound(fields, i);
      }
    }
  }

  /** One byte per action, one of three; the weakest level leaves no entry. */
  ghost predicate BindingsMean(fields: seq<Field>, levels: map<Action, Binding>) {
    && (forall i :: 0 <= i < |fields| ==> fields[i].value == [1] || fields[i].value == [2] || fields[i].value == [3])
    && (forall a: Action :: a in levels <==> Has(fields, Number(a), [2]) || Has(fields, Number(a), [3]))
    && (forall a: Action :: a in levels ==> levels[a] == if Has(fields, Number(a), [2]) then Hardware else HardwareAttested)
  }

  lemma {:induction false} BindingsRead(buf: bytes, levels: map<Action, Binding>)
    ensures DecodeActionBinding(buf) == Ok(levels) <==> exists fields :: Spells(buf, fields) && BindingsMean(fields, levels)
  {
    hide Lookup, Checked, Spells;
    if DecodeActionBinding(buf).Ok? {
      var fields := Checked(buf, BindingCheck).value;
      CheckedMeans(buf, BindingCheck, fields);
      BindingsBuilt(fields);
    }
    forall fields | Spells(buf, fields) && BindingsMean(fields, levels)
      ensures DecodeActionBinding(buf) == Ok(levels)
    {
      CheckedMeans(buf, BindingCheck, fields);
      BindingsBuilt(fields);
      assert RaisedIn(fields) == levels;
    }
  }

  lemma {:induction false} BindingsBuilt(fields: seq<Field>)
    requires forall i :: 0 <= i < |fields| ==> BindingCheck(fields[i]) == None
    ensures BindingsMean(fields, RaisedIn(fields))
  {
    hide Lookup;
    forall a: Action
      ensures a in RaisedIn(fields) <==> Has(fields, Number(a), [2]) || Has(fields, Number(a), [3])
      ensures a in RaisedIn(fields) ==> RaisedIn(fields)[a] == if Has(fields, Number(a), [2]) then Hardware else HardwareAttested
    {
      assert ActionTag(a) == Number(a);
      LookupChecked(fields, BindingCheck, Number(a));
      var v := Lookup(fields, Number(a));
      if v.Some? { assert v.value == [v.value[0]]; }
    }
  }

  function Signed(v: i64): bytes {
    Little(if v < 0 then v + 0x1_0000_0000_0000_0000 else v, 8)
  }

  predicate TermMeans(v: bytes, t: Validity) {
    match t
    case Always => v == [1]
    case Window(from, to) => v == [2] + Signed(from) + Signed(to)
    case FromFirstOpen(seconds) => v == [3] + Signed(seconds)
  }

  predicate NetworkMeans(v: bytes, n: Network) {
    match n
    case StrictOnline => v == [1]
    case Lease(seconds, offline) => v == [2] + Signed(seconds) + Signed(offline)
  }

  lemma {:induction false} PairRead(v: bytes, kind: byte, a: i64, b: i64)
    ensures v == [kind] + Signed(a) + Signed(b) <==> |v| == 17 && v[0] == kind && FromLeI64(v[1..][..8]) == a && FromLeI64(v[1..][8..]) == b
  {
    hide Little, LeI64, FromLeI64;
    SignedIs(a);
    SignedIs(b);
    LeI64RoundTrip(a);
    LeI64RoundTrip(b);
    if |v| == 17 {
      FromLeI64Inverse(v[1..][..8]);
      FromLeI64Inverse(v[1..][8..]);
      assert v == [v[0]] + v[1..][..8] + v[1..][8..];
    }
    if v == [kind] + Signed(a) + Signed(b) { assert v[1..] == Signed(a) + Signed(b); }
  }

  lemma {:induction false} OneRead(v: bytes, kind: byte, a: i64)
    ensures v == [kind] + Signed(a) <==> |v| == 9 && v[0] == kind && FromLeI64(v[1..]) == a
  {
    hide Little, LeI64, FromLeI64;
    SignedIs(a);
    LeI64RoundTrip(a);
    if |v| == 9 {
      FromLeI64Inverse(v[1..]);
      assert v == [v[0]] + v[1..];
    }
    if v == [kind] + Signed(a) { assert v[1..] == Signed(a); }
  }

  lemma {:induction false} FromLeI64Inverse(b: bytes)
    requires |b| == 8
    ensures LeI64(FromLeI64(b)) == b
  {
    hide Le64, FromLe64;
    FromLe64RoundTrip(b);
  }

  lemma {:induction false} TermRead(v: bytes, t: Validity)
    ensures DecodeValidity(v) == Ok(t) <==> TermMeans(v, t)
  {
    hide FromLeI64, Signed;
    match t
    case Always =>
    case Window(from, to) => PairRead(v, 2, from, to);
    case FromFirstOpen(seconds) => OneRead(v, 3, seconds);
  }

  lemma {:induction false} NetworkRead(v: bytes, n: Network)
    ensures DecodeNetwork(v) == Ok(n) <==> NetworkMeans(v, n)
  {
    hide FromLeI64, Signed;
    if n.Lease? { PairRead(v, 2, n.seconds, n.maxOfflineSeconds); }
  }

  /**
    A policy: nothing but its own records, the first four always, the seventh from version 4 on;
    an absent open limit is one open and an absent watermark is a watermark.
   */
  ghost predicate PolicyMeans(version: u16, fields: seq<Field>, p: Policy) {
    && (forall i :: 0 <= i < |fields| ==> 1 <= fields[i].tag <= if version >= 4 then 7 else 6)
    && Lookup(fields, 1).Some? && DecodeActions(Lookup(fields, 1).value) == Ok((p.actions, p.unknownActions))
    && Lookup(fields, 2).Some? && TermMeans(Lookup(fields, 2).value, p.validity)
    && Lookup(fields, 3).Some? && NetworkMeans(Lookup(fields, 3).value, p.network)
    && Has(fields, 4, [match p.minBinding case Software => 1 case Hardware => 2 case HardwareAttested => 3])
    && (match Lookup(fields, 5) case None => p.maxOpens == Some(1)
                                case Some(v) => if v == [] then p.maxOpens == None else p.maxOpens.Some? && v == Little(p.maxOpens.value, 4))
    && (match Lookup(fields, 6) case None => p.watermark case Some(v) => |v| == 1 && p.watermark == (v[0] != 0))
    && (if version >= 4 then Lookup(fields, 7).Some? && DecodeActionBinding(Lookup(fields, 7).value) == Ok(p.actionBinding)
        else p.actionBinding == map[])
  }

  lemma {:induction false} LimitRead(v: bytes, limit: Option<u32>)
    ensures DecodeMaxOpens(v) == Ok(limit) <==> if v == [] then limit == None else limit.Some? && v == Little(limit.value, 4)
  {
    hide Little, FromLe32, Le32;
    if |v| == 4 { FromLe32RoundTrip(v); HalfIs(FromLe32(v)); }
    if limit.Some? { Le32RoundTrip(limit.value); HalfIs(limit.value); }
  }

  lemma {:induction false} BuiltMeans(version: u16, fields: seq<Field>, p: Policy)
    requires Passes(fields, PolicyCheckAt(version)) && BuildPolicy(version, fields) == Ok(p)
    ensures PolicyMeans(version, fields, p)
  {
    hide Lookup, DecodeActions, DecodeActionBinding, DecodeValidity, DecodeNetwork, DecodeMaxOpens, TermMeans, NetworkMeans, Little;
    PolicyTags(version, fields);
    PolicyValuesPass(version, fields);
    ValuesRead(fields, p);
    var level := Lookup(fields, 4).value;
    assert PolicyCheck(version, Field(4, level)) == None && level == [level[0]];
    if Lookup(fields, 6).Some? { assert PolicyCheck(version, Field(6, Lookup(fields, 6).value)) == None; }
    if version >= 4 { assert PolicyCheck(version, Field(7, Lookup(fields, 7).value)) == None; }
    assert PolicyCheck(version, Field(1, Lookup(fields, 1).value)) == None;
    assert PolicyCheck(version, Field(2, Lookup(fields, 2).value)) == None;
    assert PolicyCheck(version, Field(3, Lookup(fields, 3).value)) == None;
    if Lookup(fields, 5).Some? { assert PolicyCheck(version, Field(5, Lookup(fields, 5).value)) == None; }
    var actions := DecodeActions(Lookup(fields, 1).value);
    assert actions.Ok? && actions.value == (actions.value.0, actions.value.1);
    assert ReadActions(Lookup(fields, 1)) == actions.value;
  }

  lemma {:induction false} MeantBuilds(version: u16, fields: seq<Field>, p: Policy)
    requires Increasing(None, fields) && PolicyMeans(version, fields, p)
    ensures Passes(fields, PolicyCheckAt(version)) && BuildPolicy(version, fields) == Ok(p)
  {
    hide Lookup, Increasing, DecodeActions, DecodeActionBinding, DecodeValidity, DecodeNetwork, DecodeMaxOpens, TermMeans, NetworkMeans, Little;
    ValuesRead(fields, p);
    forall i | 0 <= i < |fields|
      ensures PolicyCheckAt(version)(fields[i]) == None
    {
      LookupFound(fields, i);
    }
    if version < 4 { NoSeventh(fields); }
  }

  lemma {:induction false} PolicyBuilt(version: u16, fields: seq<Field>, p: Policy)
    requires Increasing(None, fields)
    ensures Passes(fields, PolicyCheckAt(version)) && BuildPolicy(version, fields) == Ok(p) <==> PolicyMeans(version, fields, p)
  {
    hide Increasing, PolicyMeans, BuildPolicy, Passes;
    if Passes(fields, PolicyCheckAt(version)) && BuildPolicy(version, fields) == Ok(p) { BuiltMeans(version, fields, p); }
    if PolicyMeans(version, fields, p) { MeantBuilds(version, fields, p); }
  }

  lemma {:induction false} NoSeventh(fields: seq<Field>)
    requires forall i :: 0 <= i < |fields| ==> fields[i].tag <= 6
    ensures Lookup(fields, 7) == None
  {
    LookupAbsent(fields, 7);
  }

  lemma {:induction false} PolicyTags(version: u16, fields: seq<Field>)
    requires Passes(fields, PolicyCheckAt(version))
    ensures forall i :: 0 <= i < |fields| ==> 1 <= fields[i].tag <= if version >= 4 then 7 else 6
    ensures version < 4 ==> Lookup(fields, 7) == None
  {
    hide Lookup, DecodeActions, DecodeActionBinding, DecodeValidity, DecodeNetwork, DecodeMaxOpens;
    forall i | 0 <= i < |fields|
      ensures 1 <= fields[i].tag <= if version >= 4 then 7 else 6
    {
      assert PolicyCheckAt(version)(fields[i]) == None;
    }
    if version < 4 { NoSeventh(fields); }
  }

  lemma {:induction false} PolicyValuesPass(version: u16, fields: seq<Field>)
    requires Passes(fields, PolicyCheckAt(version))
    ensures forall tag: u16 :: 1 <= tag <= 7 && Lookup(fields, tag).Some? ==> PolicyCheck(version, Field(tag, Lookup(fields, tag).value)) == None
  {
    hide Lookup, PolicyCheck;
    forall tag: u16 | 1 <= tag <= 7 && Lookup(fields, tag).Some?
      ensures PolicyCheck(version, Field(tag, Lookup(fields, tag).value)) == None
    {
      LookupChecked(fields, PolicyCheckAt(version), tag);
    }
  }

  /** The single values, as their own readers read them. */
  lemma {:induction false} ValuesRead(fields: seq<Field>, p: Policy)
    ensures Lookup(fields, 2).Some? ==> (DecodeValidity(Lookup(fields, 2).value) == Ok(p.validity) <==> TermMeans(Lookup(fields, 2).value, p.validity))
    ensures Lookup(fields, 3).Some? ==> (DecodeNetwork(Lookup(fields, 3).value) == Ok(p.network) <==> NetworkMeans(Lookup(fields, 3).value, p.network))
    ensures Lookup(fields, 5).Some? ==>
              var v := Lookup(fields, 5).value;
              (DecodeMaxOpens(v) == Ok(p.maxOpens) <==> if v == [] then p.maxOpens == None else p.maxOpens.Some? && v == Little(p.maxOpens.value, 4))
  {
    hide Lookup, DecodeValidity, DecodeNetwork, DecodeMaxOpens, TermMeans, NetworkMeans, Little;
    if Lookup(fields, 2).Some? { TermRead(Lookup(fields, 2).value, p.validity); }
    if Lookup(fields, 3).Some? { NetworkRead(Lookup(fields, 3).value, p.network); }
    if Lookup(fields, 5).Some? { LimitRead(Lookup(fields, 5).value, p.maxOpens); }
  }

  /** The policy reader accepts exactly the records that mean a policy, and reads that policy. */
  lemma {:induction false} PolicyRead(version: u16, buf: bytes, p: Policy)
    ensures DecodePolicy(version, buf) == Ok(p) <==> exists fields :: Spells(buf, fields) && PolicyMeans(version, fields, p)
  {
    hide Checked, BuildPolicy, Emit, Increasing, PolicyMeans, PolicyCheckAt, Passes;
    if DecodePolicy(version, buf) == Ok(p) {
      var fields := Checked(buf, PolicyCheckAt(version)).value;
      CheckedMeans(buf, PolicyCheckAt(version), fields);
      PolicyBuilt(version, fields, p);
    }
    forall fields | Spells(buf, fields) && PolicyMeans(version, fields, p)
      ensures DecodePolicy(version, buf) == Ok(p)
    {
      PolicyBuilt(version, fields, p);
      CheckedMeans(buf, PolicyCheckAt(version), fields);
    }
  }

  /** The normal form: permissions only, raised levels only from version 4 on, truly unknown tags only. */
  lemma {:induction false} NormalIs(version: u16, p: Policy, a: Action, t: u16)
    ensures var n := Normal(version, p);
            && (a in n.actions <==> a in p.actions && p.actions[a] == Allow) && (a in n.actions ==> n.actions[a] == Allow)
            && (a in n.actionBinding <==> version >= 4 && a in p.actionBinding && p.actionBinding[a] != Software)
            && (a in n.actionBinding ==> n.actionBinding[a] == p.actionBinding[a])
            && (t in n.unknownActions <==> t in p.unknownActions && !(1 <= t <= 6))
            && n.validity == p.validity && n.maxOpens == p.maxOpens && n.network == p.network && n.minBinding == p.minBinding
            && n.watermark == p.watermark
  {
  }

  function TermBytes(t: Validity): bytes {
    match t case Always => [1] case Window(from, to) => [2] + Signed(from) + Signed(to) case FromFirstOpen(n) => [3] + Signed(n)
  }

  function NetworkRule(n: Network): bytes {
    match n case StrictOnline => [1] case Lease(seconds, offline) => [2] + Signed(seconds) + Signed(offline)
  }

  lemma {:induction false} RulesWritten(p: Policy)
    ensures ValidityBytes(p.validity) == TermBytes(p.validity)
    ensures NetworkBytes(p.network) == NetworkRule(p.network)
    ensures MaxOpensBytes(p.maxOpens) == match p.maxOpens case None => [] case Some(n) => Little(n, 4)
  {
    hide LeI64, Little, Le32;
    match p.validity {
      case Always =>
      case Window(from, to) =>
        SignedIs(from);
        SignedIs(to);
        Regroup([2], Signed(from), Signed(to));
      case FromFirstOpen(n) => SignedIs(n);
    }
    if p.network.Lease? {
      SignedIs(p.network.seconds);
      SignedIs(p.network.maxOfflineSeconds);
      Regroup([2], Signed(p.network.seconds), Signed(p.network.maxOfflineSeconds));
    }
    if p.maxOpens.Some? { HalfIs(p.maxOpens.value); }
  }

  /** What is written: six records, seven from version 4 on. */
  lemma {:induction false} PolicyIs(version: u16, p: Policy)
    ensures EncodePolicy(version, p) == Emit(
              [ Field(1, Emit(TableFrom(ActionTable(p), 0))), Field(2, TermBytes(p.validity)), Field(3, NetworkRule(p.network)),
                Field(4, [match p.minBinding case Software => 1 case Hardware => 2 case HardwareAttested => 3]),
                Field(5, match p.maxOpens case None => [] case Some(n) => Little(n, 4)),
                Field(6, [if p.watermark then 1 else 0]) ]
              + if version >= 4 then [Field(7, Emit(TableFrom(BindingTable(p), 0)))] else [])
  {
    hide Emit, TableFrom, ActionTable, BindingTable, ValidityBytes, NetworkBytes, MaxOpensBytes, TermBytes, NetworkRule, Little;
    RulesWritten(p);
  }

  /** A byte for every action, one only for those allowed, and a zero for every unknown tag. */
  lemma {:induction false} ActionsWritten(p: Policy, a: Action, t: u16)
    ensures Lookup(TableFrom(ActionTable(p), 0), Number(a)) == Some([if a in p.actions && p.actions[a] == Allow then 1 else 0])
    ensures !(1 <= t <= 6) ==> Lookup(TableFrom(ActionTable(p), 0), t) == if t in p.unknownActions then Some([0]) else None
  {
    hide TableFrom, Lookup;
    assert ActionTag(a) == Number(a);
    TableLookup(ActionTable(p), Number(a));
    TableLookup(ActionTable(p), t);
  }

  /** A byte for the level of every action, and nothing else. */
  lemma {:induction false} BindingsWritten(p: Policy, a: Action, t: u16)
    ensures Lookup(TableFrom(BindingTable(p), 0), Number(a))
         == Some([if a !in p.actionBinding then 1 else match p.actionBinding[a] case Software => 1 case Hardware => 2 case HardwareAttested => 3])
    ensures !(1 <= t <= 6) ==> Lookup(TableFrom(BindingTable(p), 0), t) == None
  {
    hide TableFrom, Lookup;
    assert ActionTag(a) == Number(a);
    TableLookup(BindingTable(p), Number(a));
    TableLookup(BindingTable(p), t);
  }

  // ---- The mutable region ---------------------------------------------------------------------------

  /** A tag the reader knows, or one that asks to be skipped when unknown. */
  predicate KnownOrOptional(f: Field, least: u16, most: u16) {
    least <= f.tag <= most || f.tag > 0x7FFF
  }

  ghost predicate EditorMeans(fields: seq<Field>, e: Content.EditorSignature) {
    && (forall i :: 0 <= i < |fields| ==> KnownOrOptional(fields[i], 1, 5))
    && Has(fields, 1, [2]) && e.sigAlg == Content.RsaPssSha256
    && Has(fields, 2, e.sessionHead)
    && Has(fields, 3, if e.journalHead.None? then [] else Little(e.journalHead.value.size, 8) + e.journalHead.value.root)
    && Has(fields, 4, e.certifiedBy) && |e.certifiedBy| <= 8192
    && Has(fields, 5, e.signature) && |e.signature| == 256
  }

  lemma {:induction false} EditorBuilt(fields: seq<Field>, e: Content.EditorSignature)
    requires Increasing(None, fields)
    ensures Passes(fields, Content.EditorCheck) && Content.BuildEditor(fields) == Ok(e) <==> EditorMeans(fields, e)
  {
    hide Lookup, Increasing, Little, Content.JournalBytes, Content.AsJournal;
    if Passes(fields, Content.EditorCheck) && Content.BuildEditor(fields) == Ok(e) {
      LookupChecked(fields, Content.EditorCheck, 1);
      LookupChecked(fields, Content.EditorCheck, 2);
      LookupChecked(fields, Content.EditorCheck, 3);
      LookupChecked(fields, Content.EditorCheck, 4);
      LookupChecked(fields, Content.EditorCheck, 5);
      JournalRead(Lookup(fields, 3).value, e.journalHead);
      forall i | 0 <= i < |fields|
        ensures KnownOrOptional(fields[i], 1, 5)
      {
        assert Content.EditorCheck(fields[i]) == None;
      }
    }
    if EditorMeans(fields, e) {
      JournalRead(Lookup(fields, 3).value, e.journalHead);
      forall i | 0 <= i < |fields|
        ensures Content.EditorCheck(fields[i]) == None
      {
        LookupFound(fields, i);
      }
    }
  }

  lemma {:induction false} JournalRead(v: bytes, head: Option<Content.JournalHead>)
    ensures (v == [] || |v| == 40) && Content.AsJournal(v) == head
            <==> v == if head.None? then [] else Little(head.value.size, 8) + head.value.root
  {
    hide Little, Le64, FromLe64;
    if head.Some? {
      WordsAre(0, head.value.size);
      Le64RoundTrip(head.value.size);
      var w := Little(head.value.size, 8) + head.value.root;
      assert w[..8] == Little(head.value.size, 8) && w[8..] == head.value.root;
    }
    if |v| == 40 {
      FromLe64RoundTrip(v[..8]);
      WordsAre(0, FromLe64(v[..8]));
      assert v == v[..8] + v[8..];
    }
  }

  /** The editor record. */
  lemma {:induction false} EditorRead(buf: bytes, e: Content.EditorSignature)
    ensures Content.DecodeEditor(buf) == Ok(e) <==> exists fields :: Spells(buf, fields) && EditorMeans(fields, e)
  {
    hide Checked, Content.BuildEditor, Emit, Increasing, EditorMeans, Passes;
    if Content.DecodeEditor(buf) == Ok(e) {
      var fields := Checked(buf, Content.EditorCheck).value;
      CheckedMeans(buf, Content.EditorCheck, fields);
      EditorBuilt(fields, e);
    }
    forall fields | Spells(buf, fields) && EditorMeans(fields, e)
      ensures Content.DecodeEditor(buf) == Ok(e)
    {
      EditorBuilt(fields, e);
      CheckedMeans(buf, Content.EditorCheck, fields);
    }
  }

  /** The description: four records always, two more that may be there, the editor's from version 4 on. */
  ghost predicate DescriptionMeans(version: u16, fields: seq<Field>, d: Content.ContentDesc) {
    && (forall i :: 0 <= i < |fields| ==> KnownOrOptional(fields[i], 1, if version >= 4 then 6 else 5))
    && Has(fields, 1, Little(d.totalLen, 8)) && Has(fields, 2, Little(d.chunkCount, 4)) && d.chunkCount > 0
    && Has(fields, 3, d.treeRoot) && Has(fields, 4, Little(d.versionCounter, 8))
    && (match d.footerOffset case None => Lookup(fields, 5).None? case Some(n) => Has(fields, 5, Little(n, 8)))
    && (match d.editor case None => Lookup(fields, 6).None?
                       case Some(e) => Lookup(fields, 6).Some? && Content.DecodeEditor(Lookup(fields, 6).value) == Ok(e))
  }

  lemma {:induction false} Number64(v: bytes, n: u64)
    ensures |v| == 8 && FromLe64(v) == n <==> v == Little(n, 8)
  {
    hide Little, Le64, FromLe64;
    WordsAre(0, n);
    Le64RoundTrip(n);
    if |v| == 8 { FromLe64RoundTrip(v); }
  }

  lemma {:induction false} Number32(v: bytes, n: u32)
    ensures |v| == 4 && FromLe32(v) == n <==> v == Little(n, 4)
  {
    hide Little, Le32, FromLe32;
    HalfIs(n);
    Le32RoundTrip(n);
    if |v| == 4 { FromLe32RoundTrip(v); }
  }

  lemma {:induction false} DescriptionBuilt(version: u16, fields: seq<Field>, d: Content.ContentDesc)
    requires Passes(fields, Content.DescCheckAt(version)) && Content.BuildDesc(version, fields) == Ok(d)
    ensures DescriptionMeans(version, fields, d)
  {
    hide Lookup, Little, FromLe64, FromLe32, Content.DecodeEditor;
    var check := Content.DescCheckAt(version);
    LookupChecked(fields, check, 1);
    LookupChecked(fields, check, 2);
    LookupChecked(fields, check, 3);
    LookupChecked(fields, check, 4);
    LookupChecked(fields, check, 5);
    LookupChecked(fields, check, 6);
    Number64(Lookup(fields, 1).value, d.totalLen);
    Number32(Lookup(fields, 2).value, d.chunkCount);
    Number64(Lookup(fields, 4).value, d.versionCounter);
    if d.footerOffset.Some? { Number64(Lookup(fields, 5).value, d.footerOffset.value); }
    forall i | 0 <= i < |fields|
      ensures KnownOrOptional(fields[i], 1, if version >= 4 then 6 else 5)
    {
      assert check(fields[i]) == None;
    }
  }

  lemma {:induction false} DescriptionBuilds(version: u16, fields: seq<Field>, d: Content.ContentDesc)
    requires Increasing(None, fields) && DescriptionMeans(version, fields, d)
    ensures Passes(fields, Content.DescCheckAt(version)) && Content.BuildDesc(version, fields) == Ok(d)
  {
    hide Lookup, Increasing, Little, FromLe64, FromLe32, Content.DecodeEditor;
    Number64(Lookup(fields, 1).value, d.totalLen);
    Number32(Lookup(fields, 2).value, d.chunkCount);
    Number64(Lookup(fields, 4).value, d.versionCounter);
    if d.footerOffset.Some? { Number64(Lookup(fields, 5).value, d.footerOffset.value); }
    if version < 4 { LookupAbsent(fields, 6); }
    forall i | 0 <= i < |fields|
      ensures Content.DescCheckAt(version)(fields[i]) == None
    {
      LookupFound(fields, i);
    }
  }

  /** The description of the content. */
  lemma {:induction false} DescriptionRead(version: u16, buf: bytes, d: Content.ContentDesc)
    ensures Content.DecodeBody(buf, version) == Ok(d) <==> exists fields :: Spells(buf, fields) && DescriptionMeans(version, fields, d)
  {
    hide Checked, Content.BuildDesc, Emit, Increasing, DescriptionMeans, Passes, Content.DescCheckAt;
    if Content.DecodeBody(buf, version) == Ok(d) {
      var fields := Checked(buf, Content.DescCheckAt(version)).value;
      CheckedMeans(buf, Content.DescCheckAt(version), fields);
      DescriptionBuilt(version, fields, d);
    }
    forall fields | Spells(buf, fields) && DescriptionMeans(version, fields, d)
      ensures Content.DecodeBody(buf, version) == Ok(d)
    {
      DescriptionBuilds(version, fields, d);
      CheckedMeans(buf, Content.DescCheckAt(version), fields);
    }
  }

  /** The region: a length of at most 64 KiB, so many bytes, and their tag for this file under this key. */
  lemma {:induction false} RegionRead(region: bytes, key: digest, fileId: id16, version: u16, mac: Content.Mac, read: Content.Verified)
    ensures Content.DecodeRegion(region, key, fileId, version, mac) == Ok(read) <==>
            && |read.body| <= 65536 && read.length == 4 + |read.body| + 32 <= |region|
            && region[..read.length] == Little(|read.body|, 4) + read.body + mac(key, Content.MacTranscript(fileId, read.body))
            && Content.DecodeBody(read.body, version) == Ok(read.desc)
  {
    hide Little, FromLe32, Content.DecodeBody, Content.MacTranscript;
    if |region| >= 4 {
      var declared := FromLe32(region[..4]);
      Number32(region[..4], declared);
      if 4 + declared + 32 <= |region| {
        assert region[..4 + declared + 32] == region[..4] + region[4..4 + declared] + region[4 + declared..4 + declared + 32];
      }
    }
    if |read.body| <= 65536 && read.length == 4 + |read.body| + 32 <= |region|
       && region[..read.length] == Little(|read.body|, 4) + read.body + mac(key, Content.MacTranscript(fileId, read.body)) {
      var n := |read.body|;
      Number32(region[..4], n);
      var whole := Little(n, 4) + read.body + mac(key, Content.MacTranscript(fileId, read.body));
      assert whole[..4] == Little(n, 4) && whole[4..4 + n] == read.body && whole[4 + n..] == mac(key, Content.MacTranscript(fileId, read.body));
      assert region[..4] == whole[..4] && region[4..4 + n] == whole[4..4 + n];
      SliceOfSlice(region, 0, read.length, 4 + n, read.length);
      SliceOfSlice(region, 0, read.length, 4, 4 + n);
      SliceOfSlice(region, 0, read.length, 0, 4);
    }
  }
}
