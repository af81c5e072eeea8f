/**
  The type-support tables that the IDL compiler writes for structs.

  A table lists a type and, after each entry, the entries of its parts.  An entry holds
  a type code and an element count; the reader rebuilds the nesting from these alone.
 */
module Tsm {

  import opened Options
  import opened IdlTypes

  // ----- table entries

  datatype Code = Plain(kind: Primitive) | CString | EnumCode | ArrayCode | SequenceCode | UnionCode | StructCode | TypeRef

  /** A number of bytes, or the size of a C struct. */
  datatype Size = Bytes(n: nat) | SizeOf(owner: string)

  datatype Offset = Zero | OffsetOf(owner: string, field: string)

  datatype Entry = Entry(code: Code, key: bool, dynamic: bool, name: string, size: Size, offset: Offset,
                         count: nat, value: int, ref: Option<string>)

  /** What is written: entries and the commas between them. */
  datatype Token = Item(entry: Entry) | Comma

  // ----- the parts of an entry

  /** tsm_dump_type_pre; `registered` are the names in the type list. */
  function CodeOf(t: Type, registered: set<string>): Code {
    match t
    case Primitive(kind) => Plain(kind)
    case String(_) => CString
    case Enum(_, _) => EnumCode
    case Alias(_, base) => if base.Struct? then TypeRef else CodeOf(base, registered)
    case Array(_, _, _) => ArrayCode
    case Sequence(_, _) => SequenceCode
    case Union(_, _) => UnionCode
    case Struct(name, _) => if name in registered then TypeRef else StructCode
  }

  /** tsm_dump_type_ref */
  function RefOf(t: Type, registered: set<string>): Option<string> {
    match t
    case Alias(_, base) => if base.Struct? then Some(base.name) else RefOf(base, registered)
    case Struct(name, _) => if name in registered then Some(name) else None
    case _ => None
  }

  /** tsm_dump_type_size */
  function SizeOfType(t: Type, registered: set<string>): Size {
    match t
    case Alias(_, base) => if base.Struct? then Bytes(0) else SizeOfType(base, registered)
    case Struct(name, _) => if name in registered then Bytes(0) else SizeOf(name)
    case String(bound) => Bytes(bound)
    case Union(name, _) => SizeOf(name)
    case _ => Bytes(0)
  }

  /** tsm_dump_type_bound */
  function CountOf(t: Type, registered: set<string>): nat {
    match t
    case Enum(_, consts) => |consts|
    case Struct(name, members) => if name in registered then 0 else |members|
    case Union(_, cases) => |cases|
    case Array(bound, _, _) => bound
    case Sequence(bound, _) => bound
    case Alias(_, base) => if base.Struct? then 0 else CountOf(base, registered)
    case _ => 0
  }

  // ----- the entries of a type, in the order they are written

  function ConstEntry(c: EnumConst): Entry {
    Entry(Plain(Long), false, false, c.name, Bytes(0), Zero, 0, c.value, None)
  }

  function DimensionEntry(bound: nat): Entry {
    Entry(ArrayCode, false, false, "noname", Bytes(0), Zero, bound, 0, None)
  }

  function ElementEntry(t: Type, registered: set<string>): Entry {
    Entry(CodeOf(t, registered), false, false, "no name", SizeOfType(t, registered), Zero, CountOf(t, registered), 0,
          RefOf(t, registered))
  }

  function MemberEntry(parent: string, m: Member, registered: set<string>): Entry {
    Entry(CodeOf(m.typ, registered), MemberHasKeys(m, registered), MemberIsDynamic(m), m.name,
          SizeOfType(m.typ, registered), OffsetOf(parent, m.name), CountOf(m.typ, registered), 0,
          RefOf(m.typ, registered))
  }

  function CaseEntry(parent: string, c: UnionMember, value: int, registered: set<string>): Entry {
    Entry(CodeOf(c.typ, registered), false, false, c.name, SizeOfType(c.typ, registered), OffsetOf(parent, "u"),
          CountOf(c.typ, registered), value, None)
  }

  function StructEntry(name: string, ms: seq<Member>, registered: set<string>): Entry {
    Entry(StructCode, MembersHaveKeys(ms, registered), MembersAreDynamic(ms), name, SizeOf(name), Zero, |ms|, 0, None)
  }

  function ConstEntries(cs: seq<EnumConst>): seq<Entry> {
    if cs == [] then [] else [ConstEntry(cs[0])] + ConstEntries(cs[1..])
  }

  function DimensionEntries(bounds: seq<nat>): seq<Entry> {
    if bounds == [] then [] else [DimensionEntry(bounds[0])] + DimensionEntries(bounds[1..])
  }

  /** The entries after that of a type: its parts.  An alias has none. */
  function Parts(t: Type, registered: set<string>): seq<Entry>
    decreases t, 1
  {
    match t
    case Struct(name, members) => if name in registered then [] else MemberEntries(name, members, registered)
    case Enum(_, consts) => ConstEntries(consts)
    case Union(name, cases) => CaseEntries(name, cases, registered)
    case Array(_, more, elem) => DimensionEntries(more) + [ElementEntry(elem, registered)] + Parts(elem, registered)
    case Sequence(_, elem) => [ElementEntry(elem, registered)] + Parts(elem, registered)
    case _ => []
  }

  function MemberEntries(parent: string, ms: seq<Member>, registered: set<string>): seq<Entry>
    decreases ms, 0
  {
    if ms == [] then []
    else [MemberEntry(parent, ms[0], registered)] + Parts(ms[0].typ, registered) + MemberEntries(parent, ms[1..], registered)
  }

  function CaseEntries(parent: string, cs: seq<UnionMember>, registered: set<string>): seq<Entry>
    decreases cs, 0
  {
    if cs == [] then []
    else LabelEntries(parent, cs[0], cs[0].labels, registered) + CaseEntries(parent, cs[1..], registered)
  }

  /** A union member is written once per label. */
  function LabelEntries(parent: string, c: UnionMember, labels: seq<int>, registered: set<string>): seq<Entry>
    decreases c, 2, labels
  {
    if labels == [] then []
    else [CaseEntry(parent, c, labels[0], registered)] + Parts(c.typ, registered)
         + LabelEntries(parent, c, labels[1..], registered)
  }

  /** The whole table of a struct. */
  function Table(name: string, ms: seq<Member>, registered: set<string>): seq<Entry> {
    [StructEntry(name, ms, registered)] + MemberEntries(name, ms, registered)
  }

  // ----- reading a table

  /** A type as a table shows it: aliases are gone, array ranks are nested arrays of one rank, and
      registered structs are references. */
  datatype View =
    | VPrimitive(kind: Primitive)
    | VString(bound: nat)
    | VEnum(consts: seq<EnumConst>)
    | VArray(bound: nat, elem: View)
    | VSequence(bound: nat, elem: View)
    | VUnion(name: string, cases: seq<ViewCase>)
    | VStruct(name: string, members: seq<ViewMember>)
    | VRef(name: string)

  /** A member: whether it holds keys and dynamic data, where it is in its struct, and its type. */
  datatype ViewMember = ViewMember(name: string, key: bool, dynamic: bool, offset: Offset, view: View)
  datatype ViewCase = ViewCase(name: string, value: int, offset: Offset, view: View)

  function ShownMember(e: Entry, view: View): ViewMember {
    ViewMember(e.name, e.key, e.dynamic, e.offset, view)
  }

  function ShownCase(e: Entry, view: View): ViewCase {
    ViewCase(e.name, e.value, e.offset, view)
  }

  /** Something read from the front of a table, and the entries left. */
  datatype Parsed<+T> = Fail | Ok(value: T, rest: seq<Entry>)

  function Decode(es: seq<Entry>): (r: Parsed<View>)
    ensures r.Ok? ==> |r.rest| < |es|
    decreases |es|, 0
  {
    if es == [] then Fail
    else
      var e, rest := es[0], es[1..];
      match e.code
      case Plain(kind) => Ok(VPrimitive(kind), rest)
      case CString => if e.size.Bytes? then Ok(VString(e.size.n), rest) else Fail
      case TypeRef => if e.ref.Some? then Ok(VRef(e.ref.value), rest) else Fail
      case EnumCode =>
        var cs := DecodeConsts(e.count, rest);
        if cs.Ok? then Ok(VEnum(cs.value), cs.rest) else Fail
      case ArrayCode =>
        var v := Decode(rest);
        if v.Ok? then Ok(VArray(e.count, v.value), v.rest) else Fail
      case SequenceCode =>
        var v := Decode(rest);
        if v.Ok? then Ok(VSequence(e.count, v.value), v.rest) else Fail
      case UnionCode =>
        var cs := DecodeCases(e.count, rest);
        if cs.Ok? && e.size.SizeOf? then Ok(VUnion(e.size.owner, cs.value), cs.rest) else Fail
      case StructCode =>
        var ms := DecodeMembers(e.count, rest);
        if ms.Ok? && e.size.SizeOf? then Ok(VStruct(e.size.owner, ms.value), ms.rest) else Fail
  }

  function DecodeConsts(n: nat, es: seq<Entry>): (r: Parsed<seq<EnumConst>>)
    ensures r.Ok? ==> |r.rest| <= |es|
    decreases n
  {
    if n == 0 then Ok([], es)
    else if es == [] || es[0].code != Plain(Long) then Fail
    else
      var more := DecodeConsts(n - 1, es[1..]);
      if more.Ok? then Ok([EnumConst(es[0].name, es[0].value)] + more.value, more.rest) else Fail
  }

  function DecodeMembers(n: nat, es: seq<Entry>): (r: Parsed<seq<ViewMember>>)
    ensures r.Ok? ==> |r.rest| <= |es|
    decreases |es|, 1, n
  {
    if n == 0 then Ok([], es)
    else
      var v := Decode(es);
      if v.Fail? then Fail
      else
        var more := DecodeMembers(n - 1, v.rest);
        if more.Ok? then Ok([ShownMember(es[0], v.value)] + more.value, more.rest) else Fail
  }

  function DecodeCases(n: nat, es: seq<Entry>): (r: Parsed<seq<ViewCase>>)
    ensures r.Ok? ==> |r.rest| <= |es|
    decreases |es|, 1, n
  {
    if n == 0 then Ok([], es)
    else
      var v := Decode(es);
      if v.Fail? then Fail
      else
        var more := DecodeCases(n - 1, v.rest);
        if more.Ok? then Ok([ShownCase(es[0], v.value)] + more.value, more.rest) else Fail
  }

  // ----- what a table should show

  function ArrayView(bound: nat, more: seq<nat>, elem: View): View
    decreases more
  {
    VArray(bound, if more == [] then elem else ArrayView(more[0], more[1..], elem))
  }

  ghost function ViewOf(t: Type, registered: set<string>): View
    decreases t, 1
  {
    match t
    case Primitive(kind) => VPrimitive(kind)
    case String(bound) => VString(bound)
    case Enum(_, consts) => VEnum(consts)
    case Alias(_, base) => if base.Struct? then VRef(base.name) else ViewOf(base, registered)
    case Array(bound, more, elem) => ArrayView(bound, more, ViewOf(elem, registered))
    case Sequence(bound, elem) => VSequence(bound, ViewOf(elem, registered))
    case Union(name, cases) => VUnion(name, CaseViews(name, cases, registered))
    case Struct(name, members) =>
      if name in registered then VRef(name) else VStruct(name, MemberViews(name, members, registered))
  }

  ghost function MemberViews(parent: string, ms: seq<Member>, registered: set<string>): seq<ViewMember>
    decreases ms, 0
  {
    if ms == [] then []
    else
      var m := ms[0];
      [ViewMember(m.name, HoldsKey([m], registered), HoldsUnboundedData([m]), OffsetOf(parent, m.name),
                  ViewOf(m.typ, registered))]
      + MemberViews(parent, ms[1..], registered)
  }

  ghost function CaseViews(parent: string, cs: seq<UnionMember>, registered: set<string>): seq<ViewCase>
    decreases cs, 0
  {
    if cs == [] then []
    else
      var c := cs[0];
      [ViewCase(c.name, if c.labels == [] then 0 else c.labels[0], OffsetOf(parent, "u"), ViewOf(c.typ, registered))]
      + CaseViews(parent, cs[1..], registered)
  }

  /** Every union member has exactly one label. */
  predicate SingleLabels(t: Type, registered: set<string>)
    decreases t, 1
  {
    match t
    case Array(_, _, elem) => SingleLabels(elem, registered)
    case Sequence(_, elem) => SingleLabels(elem, registered)
    case Union(_, cases) => CasesSingle(cases, registered)
    case Struct(name, members) => name in registered || MembersSingle(members, registered)
    case _ => true
  }

  predicate MembersSingle(ms: seq<Member>, registered: set<string>)
    decreases ms, 0
  {
    ms == [] || (SingleLabels(ms[0].typ, registered) && MembersSingle(ms[1..], registered))
  }

  predicate CasesSingle(cs: seq<UnionMember>, registered: set<string>)
    decreases cs, 0
  {
    cs == [] || (|cs[0].labels| == 1 && SingleLabels(cs[0].typ, registered) && CasesSingle(cs[1..], registered))
  }

  /** The types a table can show: an alias ends in a type without parts, and a union member is not
      a reference, because its entry has no room for the referenced name. */
  predicate Showable(t: Type, registered: set<string>)
    decreases t, 1
  {
    match t
    case Alias(_, base) => PartCount(CodeOf(t, registered), CountOf(t, registered)) == 0
    case Array(_, _, elem) => Showable(elem, registered)
    case Sequence(_, elem) => Showable(elem, registered)
    case Union(_, cases) => CasesShowable(cases, registered)
    case Struct(name, members) => name in registered || MembersShowable(members, registered)
    case _ => true
  }

  predicate MembersShowable(ms: seq<Member>, registered: set<string>)
    decreases ms, 0
  {
    ms == [] || (Showable(ms[0].typ, registered) && MembersShowable(ms[1..], registered))
  }

  predicate CasesShowable(cs: seq<UnionMember>, registered: set<string>)
    decreases cs, 0
  {
    cs == []
    || (CodeOf(cs[0].typ, registered) != TypeRef && Showable(cs[0].typ, registered) && CasesShowable(cs[1..], registered))
  }

  /** How many parts follow an entry. */
  function PartCount(code: Code, count: nat): nat {
    match code
    case EnumCode => count
    case UnionCode => count
    case StructCode => count
    case ArrayCode => 1
    case SequenceCode => 1
    case _ => 0
  }

  // ----- a table shows its type

  /** The entry of a type, as a member, an element or a union member. */
  predicate Describes(e: Entry, t: Type, registered: set<string>) {
    && e.code == CodeOf(t, registered) && e.count == CountOf(t, registered)
    && e.size == SizeOfType(t, registered) && e.ref == RefOf(t, registered)
  }

  lemma {:induction false} NoRef(t: Type, registered: set<string>)
    requires CodeOf(t, registered) != TypeRef
    ensures RefOf(t, registered) == None
  {
    if t.Alias? && !t.base.Struct? { NoRef(t.base, registered); }
  }

  lemma {:induction false} DecodeConstEntries(cs: seq<EnumConst>, rest: seq<Entry>)
    ensures DecodeConsts(|cs|, ConstEntries(cs) + rest) == Ok(cs, rest)
    decreases cs
  {
    if cs == [] {
      assert ConstEntries(cs) + rest == rest;
    } else {
      DecodeConstEntries(cs[1..], rest);
      var more := ConstEntries(cs[1..]) + rest;
      assert ConstEntries(cs) + rest == [ConstEntry(cs[0])] + more;
      hide ConstEntries, DecodeConsts;
      DecodeConst(cs[0], |cs| - 1, more);
      assert [cs[0]] + cs[1..] == cs;
    }
  }

  lemma DecodeConst(c: EnumConst, n: nat, more: seq<Entry>)
    requires DecodeConsts(n, more).Ok?
    ensures var r := DecodeConsts(n, more);
      DecodeConsts(n + 1, [ConstEntry(c)] + more) == Ok([c] + r.value, r.rest)
  {
    assert ([ConstEntry(c)] + more)[1..] == more;
  }

  lemma {:induction false} DecodeDimensions(e: Entry, more: seq<nat>, tail: seq<Entry>)
    requires e.code == ArrayCode && Decode(tail).Ok?
    ensures Decode([e] + DimensionEntries(more) + tail)
         == Ok(ArrayView(e.count, more, Decode(tail).value), Decode(tail).rest)
    decreases more
  {
    var es := [e] + DimensionEntries(more) + tail;
    assert es[0] == e && es[1..] == DimensionEntries(more) + tail;
    if more == [] {
      assert es[1..] == tail;
    } else {
      assert es[1..] == [DimensionEntry(more[0])] + DimensionEntries(more[1..]) + tail;
      DecodeDimensions(DimensionEntry(more[0]), more[1..], tail);
    }
  }

  /** An alias that a table can show, all of whose types are primitives, strings, references or empty. */
  lemma {:induction false} DecodeAlias(t: Type, e: Entry, rest: seq<Entry>, registered: set<string>)
    requires Describes(e, t, registered) && PartCount(CodeOf(t, registered), CountOf(t, registered)) == 0
    ensures Decode([e] + rest) == Ok(ViewOf(t, registered), rest)
  {
    var es := [e] + rest;
    assert es[0] == e && es[1..] == rest;
    if t.Alias? && !t.base.Struct? {
      DecodeAlias(t.base, e, rest, registered);
    }
  }

  lemma DecodeArray(t: Type, e: Entry, rest: seq<Entry>, registered: set<string>)
    requires t.Array? && Describes(e, t, registered)
    requires Decode([ElementEntry(t.elem, registered)] + Parts(t.elem, registered) + rest)
          == Ok(ViewOf(t.elem, registered), rest)
    ensures Decode([e] + Parts(t, registered) + rest) == Ok(ViewOf(t, registered), rest)
  {
    hide Decode;
    var tail := [ElementEntry(t.elem, registered)] + Parts(t.elem, registered) + rest;
    assert [e] + Parts(t, registered) + rest == [e] + DimensionEntries(t.more) + tail;
    DecodeDimensions(e, t.more, tail);
  }

  /** The entry of a type, its parts, and then anything: reading gives the type and leaves the rest. */
  lemma {:induction false} DecodeType(t: Type, e: Entry, rest: seq<Entry>, registered: set<string>)
    requires Showable(t, registered) && SingleLabels(t, registered) && Describes(e, t, registered)
    ensures Decode([e] + Parts(t, registered) + rest) == Ok(ViewOf(t, registered), rest)
    decreases t, 1
  {
    hide DecodeMembers, DecodeCases, DecodeConsts, MemberEntries, CaseEntries, ConstEntries;
    var parts := Parts(t, registered);
    var es := [e] + parts + rest;
    assert es[0] == e && es[1..] == parts + rest;
    match t
    case Struct(name, members) =>
      if name !in registered { DecodeMemberEntries(name, members, rest, registered); }
      else { assert parts + rest == rest; }
    case Enum(_, consts) => DecodeConstEntries(consts, rest);
    case Union(name, cases) => DecodeCaseEntries(name, cases, rest, registered);
    case Sequence(_, elem) =>
      DecodeType(elem, ElementEntry(elem, registered), rest, registered);
    case Array(_, _, elem) =>
      DecodeType(elem, ElementEntry(elem, registered), rest, registered);
      DecodeArray(t, e, rest, registered);
    case _ =>
      assert [e] + [] + rest == [e] + rest;
      DecodeAlias(t, e, rest, registered);
  }

  lemma {:induction false} DecodeMemberEntries(parent: string, ms: seq<Member>, rest: seq<Entry>, registered: set<string>)
    requires MembersShowable(ms, registered) && MembersSingle(ms, registered)
    ensures DecodeMembers(|ms|, MemberEntries(parent, ms, registered) + rest) == Ok(MemberViews(parent, ms, registered), rest)
    decreases ms, 0
  {
    hide Decode, DecodeMembers, Parts, Showable, SingleLabels, ViewOf, HoldsKey, HoldsUnboundedData, MemberHasKeys,
         MemberIsDynamic;
    DecodeMembersSteps(|ms|, MemberEntries(parent, ms, registered) + rest);
    if ms == [] {
      assert MemberEntries(parent, ms, registered) + rest == rest;
    } else {
      var e := MemberEntry(parent, ms[0], registered);
      var more := MemberEntries(parent, ms[1..], registered) + rest;
      var es := MemberEntries(parent, ms, registered) + rest;
      assert es == [e] + Parts(ms[0].typ, registered) + more;
      assert es[0] == e;
      MemberFlags(ms[0], registered);
      DecodeType(ms[0].typ, e, more, registered);
      DecodeMemberEntries(parent, ms[1..], rest, registered);
    }
  }

  lemma DecodeMembersSteps(n: nat, es: seq<Entry>)
    ensures n == 0 ==> DecodeMembers(n, es) == Ok([], es)
    ensures n > 0 && Decode(es).Ok? && es != [] && DecodeMembers(n - 1, Decode(es).rest).Ok? ==>
      var more := DecodeMembers(n - 1, Decode(es).rest);
      DecodeMembers(n, es) == Ok([ShownMember(es[0], Decode(es).value)] + more.value, more.rest)
  {
  }

  lemma {:induction false} DecodeCaseEntries(parent: string, cs: seq<UnionMember>, rest: seq<Entry>, registered: set<string>)
    requires CasesShowable(cs, registered) && CasesSingle(cs, registered)
    ensures DecodeCases(|cs|, CaseEntries(parent, cs, registered) + rest) == Ok(CaseViews(parent, cs, registered), rest)
    decreases cs, 0
  {
    hide Decode, DecodeCases, Parts, Showable, SingleLabels, ViewOf, LabelEntries;
    DecodeCasesSteps(|cs|, CaseEntries(parent, cs, registered) + rest);
    if cs == [] {
      assert CaseEntries(parent, cs, registered) + rest == rest;
    } else {
      var c := cs[0];
      var e := CaseEntry(parent, c, c.labels[0], registered);
      var more := CaseEntries(parent, cs[1..], registered) + rest;
      var es := CaseEntries(parent, cs, registered) + rest;
      OneLabel(parent, c, registered);
      assert es == [e] + Parts(c.typ, registered) + more;
      assert es[0] == e;
      NoRef(c.typ, registered);
      DecodeType(c.typ, e, more, registered);
      DecodeCaseEntries(parent, cs[1..], rest, registered);
    }
  }

  lemma DecodeCasesSteps(n: nat, es: seq<Entry>)
    ensures n == 0 ==> DecodeCases(n, es) == Ok([], es)
    ensures n > 0 && Decode(es).Ok? && es != [] && DecodeCases(n - 1, Decode(es).rest).Ok? ==>
      var more := DecodeCases(n - 1, Decode(es).rest);
      DecodeCases(n, es) == Ok([ShownCase(es[0], Decode(es).value)] + more.value, more.rest)
  {
    hide Decode;
  }

  lemma OneLabel(parent: string, c: UnionMember, registered: set<string>)
    requires |c.labels| == 1
    ensures LabelEntries(parent, c, c.labels, registered)
         == [CaseEntry(parent, c, c.labels[0], registered)] + Parts(c.typ, registered)
  {
    assert c.labels[1..] == [];
  }

  /** The table of a struct shows the struct, with its keys, its dynamic data and its offset. */
  lemma TableShows(name: string, ms: seq<Member>, registered: set<string>)
    requires MembersShowable(ms, registered) && MembersSingle(ms, registered)
    ensures Decode(Table(name, ms, registered)) == Ok(VStruct(name, MemberViews(name, ms, registered)), [])
    ensures ShownTable(Table(name, ms, registered)) == Ok(
      ViewMember(name, HoldsKey(ms, registered), HoldsUnboundedData(ms), Zero,
                 VStruct(name, MemberViews(name, ms, registered))), [])
  {
    hide HoldsKey, HoldsUnboundedData, MembersHaveKeys, MembersAreDynamic;
    var es := Table(name, ms, registered);
    assert es[1..] == MemberEntries(name, ms, registered) + [];
    DecodeMemberEntries(name, ms, [], registered);
    KeyFlag(ms, registered);
    DynamicFlag(ms);
  }

  /** A table as the one member of nothing. */
  function ShownTable(es: seq<Entry>): Parsed<ViewMember> {
    var v := Decode(es);
    if v.Ok? then Ok(ShownMember(es[0], v.value), v.rest) else Fail
  }

  // ----- a table that can be read shows its type

  /** How many parts the entries ask for. */
  function Wanted(es: seq<Entry>): nat {
    if es == [] then 0 else PartCount(es[0].code, es[0].count) + Wanted(es[1..])
  }

  /** Every reference has a name. */
  ghost predicate RefsNamed(es: seq<Entry>) {
    forall k :: 0 <= k < |es| ==> es[k].code == TypeRef ==> es[k].ref.Some?
  }

  lemma {:induction false} WantedConcat(a: seq<Entry>, b: seq<Entry>)
    ensures Wanted(a + b) == Wanted(a) + Wanted(b)
    decreases a
  {
    if a == [] {
      assert a + b == b;
    } else {
      assert (a + b)[1..] == a[1..] + b;
      WantedConcat(a[1..], b);
    }
  }

  /** `used` reads as `n` things: it asks for all but `n` of its own entries. */
  ghost predicate Balanced(es: seq<Entry>, n: nat, rest: seq<Entry>) {
    && |rest| <= |es| && es == es[..|es| - |rest|] + rest
    && Wanted(es[..|es| - |rest|]) == |es| - |rest| - n && RefsNamed(es[..|es| - |rest|])
  }

  lemma BalancedNone(es: seq<Entry>)
    ensures Balanced(es, 0, es)
  {
    assert es[..0] == [] && es == es[..0] + es;
  }

  lemma BalancedJoin(es: seq<Entry>, n: nat, mid: seq<Entry>, m: nat, rest: seq<Entry>)
    requires Balanced(es, n, mid) && Balanced(mid, m, rest)
    ensures Balanced(es, n + m, rest)
  {
    var a, b := es[..|es| - |mid|], mid[..|mid| - |rest|];
    assert es == a + b + rest;
    assert es[..|es| - |rest|] == a + b;
    WantedConcat(a, b);
  }

  lemma BalancedEntry(es: seq<Entry>, n: nat, rest: seq<Entry>)
    requires es != [] && Balanced(es[1..], n, rest) && n == PartCount(es[0].code, es[0].count)
    requires es[0].code == TypeRef ==> es[0].ref.Some?
    ensures Balanced(es, 1, rest)
  {
    var tail := es[1..];
    var b := tail[..|tail| - |rest|];
    assert es == [es[0]] + b + rest;
    assert es[..|es| - |rest|] == [es[0]] + b;
    assert ([es[0]] + b)[1..] == b;
  }

  lemma {:induction false} DecodeBalanced(es: seq<Entry>)
    requires Decode(es).Ok?
    ensures Balanced(es, 1, Decode(es).rest)
    decreases |es|, 0
  {
    hide Balanced;
    var e, rest := es[0], es[1..];
    var left := Decode(es).rest;
    match e.code
    case EnumCode => ConstsBalanced(e.count, rest); BalancedEntry(es, e.count, left);
    case ArrayCode => DecodeBalanced(rest); BalancedEntry(es, 1, left);
    case SequenceCode => DecodeBalanced(rest); BalancedEntry(es, 1, left);
    case UnionCode => CasesBalanced(e.count, rest); BalancedEntry(es, e.count, left);
    case StructCode => MembersBalanced(e.count, rest); BalancedEntry(es, e.count, left);
    case _ => BalancedNone(rest); BalancedEntry(es, 0, left);
  }

  lemma {:induction false} ConstsBalanced(n: nat, es: seq<Entry>)
    requires DecodeConsts(n, es).Ok?
    ensures Balanced(es, n, DecodeConsts(n, es).rest)
    decreases n
  {
    hide Balanced, DecodeConsts;
    DecodeConstsStep(n, es);
    if n == 0 {
      BalancedNone(es);
    } else {
      ConstsBalanced(n - 1, es[1..]);
      ConstBalanced(es);
      BalancedJoin(es, 1, es[1..], n - 1, DecodeConsts(n, es).rest);
    }
  }

  lemma ConstBalanced(es: seq<Entry>)
    requires es != [] && es[0].code == Plain(Long)
    ensures Balanced(es, 1, es[1..])
  {
    hide Balanced;
    BalancedNone(es[1..]);
    BalancedEntry(es, 0, es[1..]);
  }

  lemma DecodeConstsStep(n: nat, es: seq<Entry>)
    requires DecodeConsts(n, es).Ok?
    ensures n == 0 ==> DecodeConsts(n, es).rest == es
    ensures n > 0 ==> es != [] && es[0].code == Plain(Long) && DecodeConsts(n - 1, es[1..]).Ok?
                      && DecodeConsts(n, es).rest == DecodeConsts(n - 1, es[1..]).rest
  {
  }

  lemma {:induction false} MembersBalanced(n: nat, es: seq<Entry>)
    requires DecodeMembers(n, es).Ok?
    ensures Balanced(es, n, DecodeMembers(n, es).rest)
    decreases |es|, 1, n
  {
    hide Balanced;
    if n == 0 {
      BalancedNone(es);
    } else {
      DecodeBalanced(es);
      MembersBalanced(n - 1, Decode(es).rest);
      BalancedJoin(es, 1, Decode(es).rest, n - 1, DecodeMembers(n, es).rest);
    }
  }

  lemma {:induction false} CasesBalanced(n: nat, es: seq<Entry>)
    requires DecodeCases(n, es).Ok?
    ensures Balanced(es, n, DecodeCases(n, es).rest)
    decreases |es|, 1, n
  {
    hide Balanced;
    if n == 0 {
      BalancedNone(es);
    } else {
      DecodeBalanced(es);
      CasesBalanced(n - 1, Decode(es).rest);
      BalancedJoin(es, 1, Decode(es).rest, n - 1, DecodeCases(n, es).rest);
    }
  }

  /** How many parts are asked for and not written: those of aliases. */
  function Missing(t: Type, registered: set<string>): nat
    decreases t, 1
  {
    match t
    case Alias(_, _) => PartCount(CodeOf(t, registered), CountOf(t, registered))
    case Array(_, _, elem) => Missing(elem, registered)
    case Sequence(_, elem) => Missing(elem, registered)
    case Union(_, cases) => CasesMissing(cases, registered)
    case Struct(name, members) => if name in registered then 0 else MembersMissing(members, registered)
    case _ => 0
  }

  function MembersMissing(ms: seq<Member>, registered: set<string>): nat
    decreases ms, 0
  {
    if ms == [] then 0 else Missing(ms[0].typ, registered) + MembersMissing(ms[1..], registered)
  }

  function CasesMissing(cs: seq<UnionMember>, registered: set<string>): nat
    decreases cs, 0
  {
    if cs == [] then 0 else Missing(cs[0].typ, registered) + CasesMissing(cs[1..], registered)
  }

  lemma {:induction false} ConstsWanted(cs: seq<EnumConst>)
    ensures Wanted(ConstEntries(cs)) == 0 && |ConstEntries(cs)| == |cs|
    decreases cs
  {
    if cs != [] {
      assert ConstEntries(cs)[1..] == ConstEntries(cs[1..]);
      ConstsWanted(cs[1..]);
    }
  }

  lemma {:induction false} DimensionsWanted(bounds: seq<nat>)
    ensures Wanted(DimensionEntries(bounds)) == |DimensionEntries(bounds)|
    decreases bounds
  {
    if bounds != [] {
      assert DimensionEntries(bounds)[1..] == DimensionEntries(bounds[1..]);
      DimensionsWanted(bounds[1..]);
    }
  }

  lemma WantedOne(e: Entry)
    ensures Wanted([e]) == PartCount(e.code, e.count)
  {
    assert [e][1..] == [];
  }

  /** The entry of a type and its parts ask for one fewer part than there are entries, plus the
      missing ones. */
  ghost predicate PartsAsked(t: Type, registered: set<string>) {
    PartCount(CodeOf(t, registered), CountOf(t, registered)) + Wanted(Parts(t, registered))
    == |Parts(t, registered)| + Missing(t, registered)
  }

  lemma SequenceWanted(t: Type, registered: set<string>)
    requires t.Sequence? && PartsAsked(t.elem, registered)
    ensures PartsAsked(t, registered)
  {
    ElementWanted(t.elem, registered);
  }

  lemma ArrayWanted(t: Type, registered: set<string>)
    requires t.Array? && PartsAsked(t.elem, registered)
    ensures PartsAsked(t, registered)
  {
    hide Wanted, DimensionEntries;
    var dims, parts := DimensionEntries(t.more), [ElementEntry(t.elem, registered)] + Parts(t.elem, registered);
    ElementWanted(t.elem, registered);
    DimensionsWanted(t.more);
    assert Parts(t, registered) == dims + parts;
    WantedConcat(dims, parts);
  }

  lemma {:induction false} PartsWanted(t: Type, registered: set<string>)
    requires SingleLabels(t, registered)
    ensures PartsAsked(t, registered)
    decreases t, 1
  {
    match t
    case Struct(name, members) => if name !in registered { MembersWanted(name, members, registered); }
    case Enum(_, consts) => ConstsWanted(consts);
    case Union(name, cases) => CasesWanted(name, cases, registered);
    case Sequence(_, elem) => PartsWanted(elem, registered); hide PartsAsked; SequenceWanted(t, registered);
    case Array(_, _, elem) => PartsWanted(elem, registered); hide PartsAsked; ArrayWanted(t, registered);
    case _ =>
  }

  lemma ElementWanted(elem: Type, registered: set<string>)
    ensures Wanted([ElementEntry(elem, registered)] + Parts(elem, registered))
         == PartCount(CodeOf(elem, registered), CountOf(elem, registered)) + Wanted(Parts(elem, registered))
  {
    WantedConcat([ElementEntry(elem, registered)], Parts(elem, registered));
    WantedOne(ElementEntry(elem, registered));
  }

  lemma {:induction false} MembersWanted(parent: string, ms: seq<Member>, registered: set<string>)
    requires MembersSingle(ms, registered)
    ensures |ms| + Wanted(MemberEntries(parent, ms, registered))
         == |MemberEntries(parent, ms, registered)| + MembersMissing(ms, registered)
    decreases ms, 0
  {
    if ms != [] {
      var e, parts := MemberEntry(parent, ms[0], registered), Parts(ms[0].typ, registered);
      PartsWanted(ms[0].typ, registered);
      MembersWanted(parent, ms[1..], registered);
      WantedConcat([e] + parts, MemberEntries(parent, ms[1..], registered));
      WantedConcat([e], parts);
      WantedOne(e);
    }
  }

  lemma {:induction false} CasesWanted(parent: string, cs: seq<UnionMember>, registered: set<string>)
    requires CasesSingle(cs, registered)
    ensures |cs| + Wanted(CaseEntries(parent, cs, registered))
         == |CaseEntries(parent, cs, registered)| + CasesMissing(cs, registered)
    decreases cs, 0
  {
    if cs != [] {
      var e, parts := CaseEntry(parent, cs[0], cs[0].labels[0], registered), Parts(cs[0].typ, registered);
      OneLabel(parent, cs[0], registered);
      PartsWanted(cs[0].typ, registered);
      CasesWanted(parent, cs[1..], registered);
      WantedConcat([e] + parts, CaseEntries(parent, cs[1..], registered));
      WantedConcat([e], parts);
      WantedOne(e);
    }
  }

  lemma {:induction false} ShownParts(t: Type, registered: set<string>)
    requires SingleLabels(t, registered) && Missing(t, registered) == 0 && RefsNamed(Parts(t, registered))
    ensures Showable(t, registered)
    decreases t, 1
  {
    match t
    case Struct(name, members) => if name !in registered { ShownMembers(name, members, registered); }
    case Union(name, cases) => ShownCases(name, cases, registered);
    case Sequence(_, elem) =>
      RefsNamedSuffix([ElementEntry(elem, registered)], Parts(elem, registered));
      ShownParts(elem, registered);
    case Array(_, more, elem) =>
      RefsNamedSuffix(DimensionEntries(more) + [ElementEntry(elem, registered)], Parts(elem, registered));
      ShownParts(elem, registered);
    case _ =>
  }

  lemma RefsNamedSuffix(a: seq<Entry>, b: seq<Entry>)
    requires RefsNamed(a + b)
    ensures RefsNamed(a) && RefsNamed(b)
  {
    assert forall k :: 0 <= k < |a| ==> a[k] == (a + b)[k];
    assert forall k :: 0 <= k < |b| ==> b[k] == (a + b)[|a| + k];
  }

  lemma {:induction false} ShownMembers(parent: string, ms: seq<Member>, registered: set<string>)
    requires MembersSingle(ms, registered) && MembersMissing(ms, registered) == 0
    requires RefsNamed(MemberEntries(parent, ms, registered))
    ensures MembersShowable(ms, registered)
    decreases ms, 0
  {
    hide RefsNamed;
    if ms != [] {
      var e, parts := MemberEntry(parent, ms[0], registered), Parts(ms[0].typ, registered);
      RefsNamedSuffix([e] + parts, MemberEntries(parent, ms[1..], registered));
      RefsNamedSuffix([e], parts);
      ShownParts(ms[0].typ, registered);
      ShownMembers(parent, ms[1..], registered);
    }
  }

  lemma {:induction false} ShownCases(parent: string, cs: seq<UnionMember>, registered: set<string>)
    requires CasesSingle(cs, registered) && CasesMissing(cs, registered) == 0
    requires RefsNamed(CaseEntries(parent, cs, registered))
    ensures CasesShowable(cs, registered)
    decreases cs, 0
  {
    if cs != [] {
      var e, parts := CaseEntry(parent, cs[0], cs[0].labels[0], registered), Parts(cs[0].typ, registered);
      OneLabel(parent, cs[0], registered);
      RefsNamedSuffix([e] + parts, CaseEntries(parent, cs[1..], registered));
      RefsNamedSuffix([e], parts);
      assert [e][0].code != TypeRef;
      ShownParts(cs[0].typ, registered);
      ShownCases(parent, cs[1..], registered);
    }
  }

  /** With one label per union member, a table can be read to its end exactly when its struct is
      showable, and it then shows exactly that struct. */
  lemma TableReadable(name: string, ms: seq<Member>, registered: set<string>)
    requires MembersSingle(ms, registered)
    ensures Decode(Table(name, ms, registered)).Ok? && Decode(Table(name, ms, registered)).rest == []
            <==> MembersShowable(ms, registered)
  {
    hide Decode, Wanted, MemberEntries;
    var es := Table(name, ms, registered);
    if MembersShowable(ms, registered) {
      TableShows(name, ms, registered);
    }
    var r := Decode(es);
    if r.Ok? && r.rest == [] {
      DecodeBalanced(es);
      assert es[..|es|] == es;
      var head := StructEntry(name, ms, registered);
      WantedConcat([head], MemberEntries(name, ms, registered));
      WantedOne(head);
      MembersWanted(name, ms, registered);
      RefsNamedSuffix([head], MemberEntries(name, ms, registered));
      ShownMembers(name, ms, registered);
    }
  }

  /** Two structs with the same table are the same, as far as tables show, if one of them is showable. */
  lemma TableDetermines(name: string, ms: seq<Member>, name': string, ms': seq<Member>, registered: set<string>)
    requires MembersShowable(ms, registered) && MembersSingle(ms, registered) && MembersSingle(ms', registered)
    requires Table(name, ms, registered) == Table(name', ms', registered)
    ensures MembersShowable(ms', registered)
    ensures name == name' && MemberViews(name, ms, registered) == MemberViews(name, ms', registered)
    ensures HoldsKey(ms, registered) == HoldsKey(ms', registered) && HoldsUnboundedData(ms) == HoldsUnboundedData(ms')
  {
    hide Decode, Table, MemberViews, MembersShowable, MembersSingle, HoldsKey, HoldsUnboundedData;
    TableReadable(name, ms, registered);
    TableReadable(name', ms', registered);
    TableShows(name, ms, registered);
    TableShows(name', ms', registered);
  }

  // ----- union members with several labels

  /** Every union member has a label. */
  predicate Labelled(t: Type, registered: set<string>)
    decreases t, 1
  {
    match t
    case Array(_, _, elem) => Labelled(elem, registered)
    case Sequence(_, elem) => Labelled(elem, registered)
    case Union(_, cases) => CasesLabelled(cases, registered)
    case Struct(name, members) => name in registered || MembersLabelled(members, registered)
    case _ => true
  }

  predicate MembersLabelled(ms: seq<Member>, registered: set<string>)
    decreases ms, 0
  {
    ms == [] || (Labelled(ms[0].typ, registered) && MembersLabelled(ms[1..], registered))
  }

  predicate CasesLabelled(cs: seq<UnionMember>, registered: set<string>)
    decreases cs, 0
  {
    cs == [] || (cs[0].labels != [] && Labelled(cs[0].typ, registered) && CasesLabelled(cs[1..], registered))
  }

  /** Entries that are not asked for. */
  function Excess(es: seq<Entry>): int {
    |es| - Wanted(es)
  }

  /** The parts of a type are at least as many as are asked for, and as many exactly when every
      union member has one label. */
  ghost predicate PartsSupplied(t: Type, registered: set<string>) {
    var asked := PartCount(CodeOf(t, registered), CountOf(t, registered));
    && Excess(Parts(t, registered)) >= asked
    && (Excess(Parts(t, registered)) == asked <==> SingleLabels(t, registered))
  }

  lemma SequenceSupplied(t: Type, registered: set<string>)
    requires t.Sequence? && PartsSupplied(t.elem, registered)
    ensures PartsSupplied(t, registered)
  {
    ElementWanted(t.elem, registered);
  }

  lemma ArraySupplied(t: Type, registered: set<string>)
    requires t.Array? && PartsSupplied(t.elem, registered)
    ensures PartsSupplied(t, registered)
  {
    hide Wanted, DimensionEntries;
    var dims, parts := DimensionEntries(t.more), [ElementEntry(t.elem, registered)] + Parts(t.elem, registered);
    ElementWanted(t.elem, registered);
    DimensionsWanted(t.more);
    assert Parts(t, registered) == dims + parts;
    WantedConcat(dims, parts);
  }

  lemma {:induction false} SuppliedParts(t: Type, registered: set<string>)
    requires Labelled(t, registered) && Missing(t, registered) == 0
    ensures PartsSupplied(t, registered)
    decreases t, 1
  {
    match t
    case Struct(name, members) => if name !in registered { SuppliedMembers(name, members, registered); }
    case Enum(_, consts) => ConstsWanted(consts);
    case Union(name, cases) => SuppliedCases(name, cases, registered);
    case Sequence(_, elem) => SuppliedParts(elem, registered); hide PartsSupplied; SequenceSupplied(t, registered);
    case Array(_, _, elem) => SuppliedParts(elem, registered); hide PartsSupplied; ArraySupplied(t, registered);
    case _ =>
  }

  lemma {:induction false} SuppliedMembers(parent: string, ms: seq<Member>, registered: set<string>)
    requires MembersLabelled(ms, registered) && MembersMissing(ms, registered) == 0
    ensures Excess(MemberEntries(parent, ms, registered)) >= |ms|
    ensures Excess(MemberEntries(parent, ms, registered)) == |ms| <==> MembersSingle(ms, registered)
    decreases ms, 0
  {
    if ms != [] {
      var e, parts := MemberEntry(parent, ms[0], registered), Parts(ms[0].typ, registered);
      SuppliedParts(ms[0].typ, registered);
      SuppliedMembers(parent, ms[1..], registered);
      WantedConcat([e] + parts, MemberEntries(parent, ms[1..], registered));
      WantedConcat([e], parts);
      WantedOne(e);
    }
  }

  lemma {:induction false} SuppliedCases(parent: string, cs: seq<UnionMember>, registered: set<string>)
    requires CasesLabelled(cs, registered) && CasesMissing(cs, registered) == 0
    ensures Excess(CaseEntries(parent, cs, registered)) >= |cs|
    ensures Excess(CaseEntries(parent, cs, registered)) == |cs| <==> CasesSingle(cs, registered)
    decreases cs, 0
  {
    if cs != [] {
      SuppliedParts(cs[0].typ, registered);
      SuppliedLabels(parent, cs[0], cs[0].labels, registered);
      SuppliedCases(parent, cs[1..], registered);
      WantedConcat(LabelEntries(parent, cs[0], cs[0].labels, registered), CaseEntries(parent, cs[1..], registered));
    }
  }

  lemma {:induction false} SuppliedLabels(parent: string, c: UnionMember, labels: seq<int>, registered: set<string>)
    requires PartsSupplied(c.typ, registered)
    ensures Excess(LabelEntries(parent, c, labels, registered)) >= |labels|
    ensures Excess(LabelEntries(parent, c, labels, registered)) == |labels|
            <==> labels == [] || SingleLabels(c.typ, registered)
    decreases labels
  {
    if labels != [] {
      var e, parts := CaseEntry(parent, c, labels[0], registered), Parts(c.typ, registered);
      SuppliedLabels(parent, c, labels[1..], registered);
      WantedConcat([e] + parts, LabelEntries(parent, c, labels[1..], registered));
      WantedConcat([e], parts);
      WantedOne(e);
    }
  }

  /** Where no alias hides parts, a table can be read to its end exactly when every union member has
      one label and the struct is showable: a member with several labels is written once per label
      and counted once. */
  lemma TableReadableLabels(name: string, ms: seq<Member>, registered: set<string>)
    requires MembersLabelled(ms, registered) && MembersMissing(ms, registered) == 0
    ensures Decode(Table(name, ms, registered)).Ok? && Decode(Table(name, ms, registered)).rest == []
            <==> MembersSingle(ms, registered) && MembersShowable(ms, registered)
  {
    hide Decode, Wanted, MemberEntries;
    var es := Table(name, ms, registered);
    if MembersSingle(ms, registered) {
      TableReadable(name, ms, registered);
    }
    var r := Decode(es);
    if r.Ok? && r.rest == [] {
      DecodeBalanced(es);
      assert es[..|es|] == es;
      var head := StructEntry(name, ms, registered);
      WantedConcat([head], MemberEntries(name, ms, registered));
      WantedOne(head);
      SuppliedMembers(name, ms, registered);
    }
  }

  // ----- miscounts that cancel

  /** A sequence alias, whose part is not written, and a union member with two labels. */
  const CANCELLING := [
    Member("a", false, Alias("A", Sequence(0, Primitive(Long)))),
    Member("u", false, Union("U", [UnionMember("m", [1, 2], Primitive(Long))]))
  ]

  /** With both kinds of miscount a table can be read to its end and show another type: the union is
      taken for the element of the sequence and the second label for the second member. */
  lemma MiscountsCancel()
    ensures !MembersSingle(CANCELLING, {}) && !MembersShowable(CANCELLING, {})
    ensures Decode(Table("S", CANCELLING, {})) == Ok(VStruct("S", [
      ViewMember("a", false, false, OffsetOf("S", "a"),
                 VSequence(0, VUnion("U", [ViewCase("m", 1, OffsetOf("U", "u"), VPrimitive(Long))]))),
      ViewMember("m", false, false, OffsetOf("U", "u"), VPrimitive(Long))]), [])
  {
    hide Decode, DecodeMembers, DecodeCases, MembersSingle, MembersShowable, MemberEntries;
    var ms := CANCELLING;
    var c := UnionMember("m", [1, 2], Primitive(Long));
    CancellingFaults();
    CancellingEntries();
    var e1, e2 := CaseEntry("U", c, 1, {}), CaseEntry("U", c, 2, {});
    var a, u := MemberEntry("S", ms[0], {}), MemberEntry("S", ms[1], {});
    assert [e2] + [] == [e2] && [e1] + [e2] == [e1, e2];
    DecodeOpens(e2, []);
    DecodeOpens(e1, [e2]);
    DecodeCasesOne([e1, e2]);
    DecodeOpens(u, [e1, e2]);
    var es := [a] + ([u] + [e1, e2]);
    DecodeOpens(a, [u] + [e1, e2]);
    DecodeMembersSteps(0, []);
    DecodeMembersSteps(1, [e2]);
    DecodeMembersSteps(2, es);
    var c1 := ViewCase("m", 1, OffsetOf("U", "u"), VPrimitive(Long));
    var v1 := ViewMember("a", false, false, OffsetOf("S", "a"), VSequence(0, VUnion("U", [c1])));
    var v2 := ViewMember("m", false, false, OffsetOf("U", "u"), VPrimitive(Long));
    assert [v2] + [] == [v2] && [v1] + [v2] == [v1, v2];
    DecodeOpens(StructEntry("S", ms, {}), es);
  }

  /** What the first entry asks for is read from those after it. */
  lemma DecodeOpens(e: Entry, rest: seq<Entry>)
    ensures e.code.Plain? ==> Decode([e] + rest) == Ok(VPrimitive(e.code.kind), rest)
    ensures e.code.SequenceCode? && Decode(rest).Ok? ==>
      Decode([e] + rest) == Ok(VSequence(e.count, Decode(rest).value), Decode(rest).rest)
    ensures e.code.UnionCode? && e.size.SizeOf? && DecodeCases(e.count, rest).Ok? ==>
      var cs := DecodeCases(e.count, rest);
      Decode([e] + rest) == Ok(VUnion(e.size.owner, cs.value), cs.rest)
    ensures e.code.StructCode? && e.size.SizeOf? && DecodeMembers(e.count, rest).Ok? ==>
      var ms := DecodeMembers(e.count, rest);
      Decode([e] + rest) == Ok(VStruct(e.size.owner, ms.value), ms.rest)
  {
    hide DecodeCases, DecodeMembers, DecodeConsts;
    assert ([e] + rest)[1..] == rest;
  }

  lemma CancellingFaults()
    ensures !MembersSingle(CANCELLING, {}) && !MembersShowable(CANCELLING, {})
  {
    var c := UnionMember("m", [1, 2], Primitive(Long));
    var a, u := CANCELLING[0], CANCELLING[1];
    assert CANCELLING == [a] + [u] && CANCELLING[1..] == [u];
    assert CodeOf(a.typ, {}) == SequenceCode && !Showable(a.typ, {});
    assert !CasesSingle([c], {}) && !SingleLabels(u.typ, {}) && !MembersSingle([u], {});
  }

  lemma CancellingEntries()
    ensures var c := UnionMember("m", [1, 2], Primitive(Long));
      MemberEntries("S", CANCELLING, {}) == [MemberEntry("S", CANCELLING[0], {})]
        + ([MemberEntry("S", CANCELLING[1], {})] + [CaseEntry("U", c, 1, {}), CaseEntry("U", c, 2, {})])
  {
    var ms := CANCELLING;
    var c := UnionMember("m", [1, 2], Primitive(Long));
    var one, two: seq<int> := [1, 2], [2];
    assert [c][1..] == [] && one[1..] == two && two[1..] == [];
    assert LabelEntries("U", c, [2], {}) == [CaseEntry("U", c, 2, {})];
    assert LabelEntries("U", c, [1, 2], {}) == [CaseEntry("U", c, 1, {}), CaseEntry("U", c, 2, {})];
    assert CaseEntries("U", [c], {}) == LabelEntries("U", c, [1, 2], {}) + [];
    assert ms[1..] == [ms[1]] && [ms[1]][1..] == [];
    assert MemberEntries("S", [ms[1]], {}) == [MemberEntry("S", ms[1], {})] + CaseEntries("U", [c], {}) + [];
  }

  lemma DecodeCasesOne(es: seq<Entry>)
    requires es != [] && Decode(es).Ok?
    ensures DecodeCases(1, es) == Ok([ShownCase(es[0], Decode(es).value)], Decode(es).rest)
  {
    hide Decode, DecodeCases;
    DecodeCasesSteps(0, Decode(es).rest);
    DecodeCasesSteps(1, es);
    var v := ShownCase(es[0], Decode(es).value);
    assert [v] + [] == [v];
  }
}
