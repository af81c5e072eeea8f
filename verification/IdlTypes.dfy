/**
  The types of an IDL file, and where the keys and the dynamic data of their members are.
 */
module IdlTypes {

  // ----- IDL types

  datatype Primitive =
    | NoType | Boolean | Octet | Short | UShort | Long | ULong | LongLong | ULongLong
    | Float | Double | LongDouble | Char | WChar | Bitset | MapTodo | AnnotationTodo

  datatype EnumConst = EnumConst(name: string, value: int)

  datatype Member = Member(name: string, isKey: bool, typ: Type)

  datatype UnionMember = UnionMember(name: string, labels: seq<int>, typ: Type)

  /** A bound of 0 is no bound. */
  datatype Type =
    | Primitive(kind: Primitive)
    | String(bound: nat)
    | Enum(name: string, consts: seq<EnumConst>)
    | Alias(name: string, base: Type)
    | Array(bound: nat, more: seq<nat>, elem: Type)
    | Sequence(bound: nat, elem: Type)
    | Union(name: string, cases: seq<UnionMember>)
    | Struct(name: string, members: seq<Member>)

  // ----- keys and dynamic data

  /** member_contains_keys */
  predicate MemberHasKeys(m: Member, registered: set<string>)
    decreases m, 1
  {
    m.isKey || (m.typ.Struct? && m.typ.name !in registered && MembersHaveKeys(m.typ.members, registered))
  }

  /** structure_contains_keys, over the members left */
  predicate MembersHaveKeys(ms: seq<Member>, registered: set<string>)
    decreases ms, 0
  {
    ms != [] && (MemberHasKeys(ms[0], registered) || MembersHaveKeys(ms[1..], registered))
  }

  /** tsm_member_has_dyndata */
  predicate MemberIsDynamic(m: Member)
    decreases m, 1
  {
    match m.typ
    case String(bound) => bound == 0
    case Sequence(bound, _) => bound == 0
    case Struct(_, members) => MembersAreDynamic(members)
    case _ => false
  }

  predicate MembersAreDynamic(ms: seq<Member>)
    decreases ms, 0
  {
    ms != [] && (MemberIsDynamic(ms[0]) || MembersAreDynamic(ms[1..]))
  }

  // ----- what the flags say

  /** Member indices that lead, through structs of any kind, to an unbounded string or sequence. */
  ghost predicate ReachesDynamic(ms: seq<Member>, path: seq<nat>)
    decreases path
  {
    path != [] && path[0] < |ms| &&
    var t := ms[path[0]].typ;
    if |path| == 1 then (t.String? || t.Sequence?) && t.bound == 0
    else t.Struct? && ReachesDynamic(t.members, path[1..])
  }

  /** Member indices that lead, through unregistered structs, to a key member. */
  ghost predicate ReachesKey(ms: seq<Member>, path: seq<nat>, registered: set<string>)
    decreases path
  {
    path != [] && path[0] < |ms| &&
    var m := ms[path[0]];
    if |path| == 1 then m.isKey
    else m.typ.Struct? && m.typ.name !in registered && ReachesKey(m.typ.members, path[1..], registered)
  }

  lemma {:induction false} DynamicFound(ms: seq<Member>) returns (path: seq<nat>)
    requires MembersAreDynamic(ms)
    ensures ReachesDynamic(ms, path)
    decreases ms
  {
    if MemberIsDynamic(ms[0]) {
      if ms[0].typ.Struct? {
        var inner := DynamicFound(ms[0].typ.members);
        path := [0] + inner;
        assert path[1..] == inner && inner != [];
      } else {
        path := [0];
      }
    } else {
      var later := DynamicFound(ms[1..]);
      path := later[0 := later[0] + 1];
      assert path[1..] == later[1..];
    }
  }

  lemma {:induction false} DynamicReached(ms: seq<Member>, path: seq<nat>)
    requires ReachesDynamic(ms, path)
    ensures MembersAreDynamic(ms)
    decreases |path|, path[0]
  {
    if path[0] > 0 {
      var path' := path[0 := path[0] - 1];
      assert path'[1..] == path[1..] && ms[1..][path[0] - 1] == ms[path[0]];
      DynamicReached(ms[1..], path');
    } else if |path| > 1 {
      DynamicReached(ms[0].typ.members, path[1..]);
    }
  }

  ghost predicate HoldsUnboundedData(ms: seq<Member>) {
    exists path: seq<nat> :: ReachesDynamic(ms, path)
  }

  ghost predicate HoldsKey(ms: seq<Member>, registered: set<string>) {
    exists path: seq<nat> :: ReachesKey(ms, path, registered)
  }

  /** The dynamic flag of a struct is set exactly when nesting reaches unbounded data. */
  lemma DynamicFlag(ms: seq<Member>)
    ensures MembersAreDynamic(ms) <==> HoldsUnboundedData(ms)
  {
    if MembersAreDynamic(ms) {
      var path := DynamicFound(ms);
      assert ReachesDynamic(ms, path);
    }
    if HoldsUnboundedData(ms) {
      var path: seq<nat> :| ReachesDynamic(ms, path);
      DynamicReached(ms, path);
    }
  }

  lemma {:induction false} KeyFound(ms: seq<Member>, registered: set<string>) returns (path: seq<nat>)
    requires MembersHaveKeys(ms, registered)
    ensures ReachesKey(ms, path, registered)
    decreases ms
  {
    if MemberHasKeys(ms[0], registered) {
      if ms[0].isKey {
        path := [0];
      } else {
        var inner := KeyFound(ms[0].typ.members, registered);
        path := [0] + inner;
        assert path[1..] == inner && inner != [];
      }
    } else {
      var later := KeyFound(ms[1..], registered);
      path := later[0 := later[0] + 1];
      assert path[1..] == later[1..];
    }
  }

  lemma {:induction false} KeyReached(ms: seq<Member>, path: seq<nat>, registered: set<string>)
    requires ReachesKey(ms, path, registered)
    ensures MembersHaveKeys(ms, registered)
    decreases |path|, path[0]
  {
    if path[0] > 0 {
      var path' := path[0 := path[0] - 1];
      assert path'[1..] == path[1..] && ms[1..][path[0] - 1] == ms[path[0]];
      KeyReached(ms[1..], path', registered);
    } else if |path| > 1 {
      KeyReached(ms[0].typ.members, path[1..], registered);
    }
  }

  /** The key flag of a struct is set exactly when unregistered nesting reaches a key member. */
  lemma KeyFlag(ms: seq<Member>, registered: set<string>)
    ensures MembersHaveKeys(ms, registered) <==> HoldsKey(ms, registered)
  {
    if MembersHaveKeys(ms, registered) {
      var path := KeyFound(ms, registered);
      assert ReachesKey(ms, path, registered);
    }
    if HoldsKey(ms, registered) {
      var path: seq<nat> :| ReachesKey(ms, path, registered);
      KeyReached(ms, path, registered);
    }
  }

  /** The same of one member. */
  lemma MemberFlags(m: Member, registered: set<string>)
    ensures MemberHasKeys(m, registered) <==> HoldsKey([m], registered)
    ensures MemberIsDynamic(m) <==> HoldsUnboundedData([m])
  {
    hide HoldsKey, HoldsUnboundedData;
    KeyFlag([m], registered);
    DynamicFlag([m]);
    assert [m][1..] == [];
  }
}
