/**
  Struct members: the order in which the IDL parser collects them.
 */
module TsmMembers {
  import opened Sequences
  import opened IdlTypes

  // ----- declaration order

  datatype Declarator = Declarator(name: string, sizes: seq<nat>, annotated: bool)

  /** `type a, b[2];` — the annotation of the first declarator counts for all. */
  datatype Declaration = Declaration(typ: Type, decls: seq<Declarator>)

  function Declared(t: Type, d: Declarator, key: bool): Member {
    Member(d.name, key, if d.sizes == [] then t else Array(d.sizes[0], d.sizes[1..], t))
  }

  function DeclaredAll(t: Type, ds: seq<Declarator>, key: bool): seq<Member> {
    if ds == [] then [] else [Declared(t, ds[0], key)] + DeclaredAll(t, ds[1..], key)
  }

  /** The members of a declaration, in the order they are written. */
  function MembersOf(d: Declaration): seq<Member> {
    if d.decls == [] then [] else DeclaredAll(d.typ, d.decls, d.decls[0].annotated)
  }

  lemma {:induction false} DeclaredAt(t: Type, ds: seq<Declarator>, key: bool, j: nat)
    requires j < |ds|
    ensures |DeclaredAll(t, ds, key)| == |ds| && DeclaredAll(t, ds, key)[j] == Declared(t, ds[j], key)
    decreases ds
  {
    if |ds| > 1 {
      DeclaredAt(t, ds[1..], key, if j > 0 then j - 1 else 0);
    } else {
      assert ds[1..] == [];
    }
  }

  /** Every declarator is one member: its name, the key flag of the first annotation, and the type, as an
      array of all its sizes if it has some. */
  lemma MemberDeclared(d: Declaration, j: nat)
    requires j < |d.decls|
    ensures |MembersOf(d)| == |d.decls|
    ensures MembersOf(d)[j].name == d.decls[j].name && MembersOf(d)[j].isKey == d.decls[0].annotated
    ensures var t := MembersOf(d)[j].typ;
      if d.decls[j].sizes == [] then t == d.typ
      else t.Array? && [t.bound] + t.more == d.decls[j].sizes && t.elem == d.typ
  {
    DeclaredAt(d.typ, d.decls, d.decls[0].annotated, j);
  }

  function AllMembers(ds: seq<Declaration>): seq<Member> {
    if ds == [] then [] else MembersOf(ds[0]) + AllMembers(ds[1..])
  }

  /** member_list_from_declarator_list: each new member goes in front. */
  method MemberListFromDeclarators(d: Declaration) returns (list: seq<Member>)
    ensures list == Reverse(MembersOf(d))
  {
    list := [];
    if d.decls == [] { return; }
    var key := d.decls[0].annotated;
    var i := 0;
    assert d.decls[0..] == d.decls;
    while i < |d.decls|
      invariant 0 <= i <= |d.decls|
      invariant Reverse(MembersOf(d)) == Reverse(DeclaredAll(d.typ, d.decls[i..], key)) + list
    {
      assert d.decls[i..][1..] == d.decls[i + 1..];
      ghost var m := Declared(d.typ, d.decls[i], key);
      ghost var more := DeclaredAll(d.typ, d.decls[i + 1..], key);
      assert DeclaredAll(d.typ, d.decls[i..], key) == [m] + more && ([m] + more)[1..] == more;
      assert Reverse(more) + [m] + list == Reverse(more) + ([m] + list);
      list := [Declared(d.typ, d.decls[i], key)] + list;
      i := i + 1;
    }
  }

  /** The grammar's member_list: the list of the first declaration is joined behind that of the rest. */
  method CollectMembers(ds: seq<Declaration>) returns (list: seq<Member>)
    ensures list == Reverse(AllMembers(ds))
    decreases ds
  {
    if ds == [] { return []; }
    var first := MemberListFromDeclarators(ds[0]);
    var rest := CollectMembers(ds[1..]);
    list := rest + first;
    ReverseConcat(MembersOf(ds[0]), AllMembers(ds[1..]));
  }

  /** struct_set_members: the list fills the member array from its end. */
  method StructSetMembers(list: seq<Member>) returns (members: seq<Member>)
    ensures members == Reverse(list)
  {
    var nmembers := |list|;
    var omembers := new Member[nmembers];
    var i := nmembers - 1;
    var k := 0;
    while k < |list|
      invariant 0 <= k <= |list| == nmembers == omembers.Length && i == nmembers - 1 - k
      invariant forall j :: i < j < nmembers ==> omembers[j] == list[nmembers - 1 - j]
    {
      omembers[i] := list[k];
      i := i - 1;
      k := k + 1;
    }
    members := omembers[..];
    forall j | 0 <= j < nmembers ensures members[j] == Reverse(list)[j] {
      ReverseAt(list, j);
    }
  }

  /** The struct gets its members in the order in which they are declared. */
  method BuildMembers(ds: seq<Declaration>) returns (members: seq<Member>)
    ensures members == AllMembers(ds)
  {
    var list := CollectMembers(ds);
    members := StructSetMembers(list);
    ReverseTwice(AllMembers(ds));
  }
}
