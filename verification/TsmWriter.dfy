/**
  The functions `tsm_dump_*` that write a table to the output file.
 */
module TsmWriter {
  import opened IdlTypes
  import opened Tsm

  function EntriesOf(t: Token): seq<Entry> {
    if t.Item? then [t.entry] else []
  }

  /** The entries of a token list, without the commas. */
  function Entries(ts: seq<Token>): seq<Entry> {
    if ts == [] then [] else Entries(ts[..|ts| - 1]) + EntriesOf(ts[|ts| - 1])
  }

  /** Entries with a comma before each. */
  function Led(es: seq<Entry>): seq<Token> {
    if es == [] then [] else [Comma, Item(es[0])] + Led(es[1..])
  }

  /** Entries with a comma between each two. */
  function Separated(es: seq<Entry>): seq<Token> {
    if es == [] then [] else [Item(es[0])] + Led(es[1..])
  }

  lemma {:induction false} LedConcat(a: seq<Entry>, b: seq<Entry>)
    ensures Led(a + b) == Led(a) + Led(b)
    decreases a
  {
    if a == [] {
      assert a + b == b;
    } else {
      assert (a + b)[1..] == a[1..] + b;
      LedConcat(a[1..], b);
    }
  }

  lemma LedIsSeparated(es: seq<Entry>)
    requires es != []
    ensures Led(es) == [Comma] + Separated(es)
  {
  }

  /** What follows an entry: its parts, each after a comma. */
  lemma SeparatedConcat(a: seq<Entry>, b: seq<Entry>)
    requires a != []
    ensures Separated(a + b) == Separated(a) + Led(b)
  {
    assert (a + b)[1..] == a[1..] + b;
    LedConcat(a[1..], b);
  }

  lemma SeparatedOne(e: Entry)
    ensures Separated([e]) == [Item(e)]
  {
    assert [e][1..] == [];
  }

  /** One item of a list, with the comma after it unless it is the last. */
  lemma SeparatedNext(first: seq<Entry>, more: seq<Entry>)
    requires first != []
    ensures Separated(first + more) == Separated(first) + (if more == [] then [] else [Comma]) + Separated(more)
  {
    SeparatedConcat(first, more);
    if more == [] {
      assert Separated(first) + [] + Separated(more) == Separated(first);
    } else {
      LedIsSeparated(more);
      assert Separated(first) + ([Comma] + Separated(more)) == Separated(first) + [Comma] + Separated(more);
    }
  }

  /** The output file. */
  class Writer {
    const registered: set<string>
    var out: seq<Token>

    constructor (names: set<string>)
      ensures registered == names && out == []
    {
      registered, out := names, [];
    }

    method Put(e: Entry)
      modifies this
      ensures out == old(out) + [Item(e)] && Entries(out) == Entries(old(out)) + [e]
    {
      out := out + [Item(e)];
      assert out[..|out| - 1] == old(out);
    }

    method PutComma()
      modifies this
      ensures out == old(out) + [Comma] && Entries(out) == Entries(old(out))
    {
      out := out + [Comma];
      assert out[..|out| - 1] == old(out);
    }

    /** tsm_dump_collection_type */
    method DumpCollectionType(t: Type)
      modifies this
      ensures Entries(out) == Entries(old(out)) + ([ElementEntry(t, registered)] + Parts(t, registered))
      ensures SingleLabels(t, registered) ==>
                out == old(out) + Separated([ElementEntry(t, registered)] + Parts(t, registered))
      decreases t, 2
    {
      hide ElementEntry, Parts, Entries, SingleLabels;
      Put(ElementEntry(t, registered));
      DumpTypePost(t);
      SeparatedConcat([ElementEntry(t, registered)], Parts(t, registered));
      SeparatedOne(ElementEntry(t, registered));
    }

    /** The constants of an enumeration. */
    method DumpConsts(cs: seq<EnumConst>)
      modifies this
      ensures Entries(out) == Entries(old(out)) + ConstEntries(cs)
      ensures out == old(out) + Separated(ConstEntries(cs))
    {
      hide Entries, Separated;
      var i := 0;
      assert cs[0..] == cs;
      while i < |cs|
        invariant 0 <= i <= |cs|
        invariant Entries(old(out)) + ConstEntries(cs) == Entries(out) + ConstEntries(cs[i..])
        invariant old(out) + Separated(ConstEntries(cs)) == out + Separated(ConstEntries(cs[i..]))
      {
        ghost var more := ConstEntries(cs[i + 1..]);
        assert cs[i..][1..] == cs[i + 1..];
        assert ConstEntries(cs[i..]) == [ConstEntry(cs[i])] + more;
        SeparatedNext([ConstEntry(cs[i])], more);
        SeparatedOne(ConstEntry(cs[i]));
        Put(ConstEntry(cs[i]));
        if i != |cs| - 1 {
          PutComma();
        }
        i := i + 1;
      }
      SeparatedNone();
    }

    /** The dimensions of an array after the first. */
    method DumpDimensions(bounds: seq<nat>)
      modifies this
      ensures Entries(out) == Entries(old(out)) + DimensionEntries(bounds)
      ensures out == old(out) + Trailed(DimensionEntries(bounds))
    {
      hide Entries, Trailed, DimensionEntries;
      var i := 0;
      assert bounds[0..] == bounds;
      while i < |bounds|
        invariant 0 <= i <= |bounds|
        invariant Entries(old(out)) + DimensionEntries(bounds) == Entries(out) + DimensionEntries(bounds[i..])
        invariant old(out) + Trailed(DimensionEntries(bounds)) == out + Trailed(DimensionEntries(bounds[i..]))
      {
        DimensionsStep(bounds, i);
        Put(DimensionEntry(bounds[i]));
        PutComma();
        i := i + 1;
      }
      DimensionsNone();
      assert bounds[i..] == [] && Entries(out) + [] == Entries(out) && out + [] == out;
    }

    /** tsm_dump_member */
    method DumpMember(parent: string, m: Member)
      modifies this
      ensures Entries(out) == Entries(old(out)) + ([MemberEntry(parent, m, registered)] + Parts(m.typ, registered))
      ensures SingleLabels(m.typ, registered) ==>
                out == old(out) + Separated([MemberEntry(parent, m, registered)] + Parts(m.typ, registered))
      decreases m, 2
    {
      hide MemberEntry, Parts, Entries, SingleLabels;
      Put(MemberEntry(parent, m, registered));
      DumpTypePost(m.typ);
      SeparatedConcat([MemberEntry(parent, m, registered)], Parts(m.typ, registered));
      SeparatedOne(MemberEntry(parent, m, registered));
    }

    /** The members of a struct. */
    method DumpMembers(parent: string, ms: seq<Member>)
      modifies this
      ensures Entries(out) == Entries(old(out)) + MemberEntries(parent, ms, registered)
      ensures MembersSingle(ms, registered) ==> out == old(out) + Separated(MemberEntries(parent, ms, registered))
      decreases ms, 0
    {
      hide Entries, Separated, MemberEntry, Parts, SingleLabels, MemberEntries, MembersSingle;
      var i := 0;
      assert ms[0..] == ms;
      while i < |ms|
        invariant 0 <= i <= |ms|
        invariant MembersSingle(ms, registered) ==> MembersSingle(ms[i..], registered)
        invariant Entries(old(out)) + MemberEntries(parent, ms, registered)
               == Entries(out) + MemberEntries(parent, ms[i..], registered)
        invariant MembersSingle(ms, registered) ==>
                    old(out) + Separated(MemberEntries(parent, ms, registered))
                    == out + Separated(MemberEntries(parent, ms[i..], registered))
      {
        ghost var first := [MemberEntry(parent, ms[i], registered)] + Parts(ms[i].typ, registered);
        ghost var more := MemberEntries(parent, ms[i + 1..], registered);
        assert ms[i..][1..] == ms[i + 1..];
        MembersStep(parent, ms[i..], registered);
        MembersNone(parent, ms[i + 1..], registered);
        SeparatedNext(first, more);
        DumpMember(parent, ms[i]);
        if i != |ms| - 1 {
          PutComma();
        }
        i := i + 1;
      }
      MembersNone(parent, ms[i..], registered);
      SeparatedNone();
    }

    /** tsm_dump_unionmember */
    method DumpUnionMember(parent: string, c: UnionMember)
      modifies this
      ensures Entries(out) == Entries(old(out)) + LabelEntries(parent, c, c.labels, registered)
      ensures |c.labels| == 1 && SingleLabels(c.typ, registered) ==>
                out == old(out) + Separated(LabelEntries(parent, c, c.labels, registered))
      decreases c, 2
    {
      hide Entries, Separated, CaseEntry, Parts, SingleLabels;
      var i := 0;
      assert c.labels[0..] == c.labels;
      while i < |c.labels|
        invariant 0 <= i <= |c.labels|
        invariant Entries(old(out)) + LabelEntries(parent, c, c.labels, registered)
               == Entries(out) + LabelEntries(parent, c, c.labels[i..], registered)
        invariant |c.labels| == 1 && SingleLabels(c.typ, registered) ==>
                    if i == 0 then out == old(out)
                    else out == old(out) + Separated(LabelEntries(parent, c, c.labels, registered))
      {
        assert c.labels[i..][1..] == c.labels[i + 1..];
        Put(CaseEntry(parent, c, c.labels[i], registered));
        if i != |c.labels| - 1 {
          PutComma();
        }
        DumpTypePost(c.typ);
        if |c.labels| == 1 {
          OneLabel(parent, c, registered);
          SeparatedConcat([CaseEntry(parent, c, c.labels[0], registered)], Parts(c.typ, registered));
          SeparatedOne(CaseEntry(parent, c, c.labels[0], registered));
        }
        i := i + 1;
      }
    }

    /** The members of a union. */
    method DumpCases(parent: string, cs: seq<UnionMember>)
      modifies this
      ensures Entries(out) == Entries(old(out)) + CaseEntries(parent, cs, registered)
      ensures CasesSingle(cs, registered) ==> out == old(out) + Separated(CaseEntries(parent, cs, registered))
      decreases cs, 0
    {
      hide Entries, Separated, LabelEntries, SingleLabels, CaseEntries, CasesSingle;
      var i := 0;
      assert cs[0..] == cs;
      while i < |cs|
        invariant 0 <= i <= |cs|
        invariant CasesSingle(cs, registered) ==> CasesSingle(cs[i..], registered)
        invariant Entries(old(out)) + CaseEntries(parent, cs, registered)
               == Entries(out) + CaseEntries(parent, cs[i..], registered)
        invariant CasesSingle(cs, registered) ==>
                    old(out) + Separated(CaseEntries(parent, cs, registered))
                    == out + Separated(CaseEntries(parent, cs[i..], registered))
      {
        ghost var first := LabelEntries(parent, cs[i], cs[i].labels, registered);
        ghost var more := CaseEntries(parent, cs[i + 1..], registered);
        assert cs[i..][1..] == cs[i + 1..];
        CasesStep(parent, cs[i..], registered);
        if CasesSingle(cs, registered) {
          CasesNone(parent, cs[i + 1..], registered);
          SeparatedNext(first, more);
        }
        DumpUnionMember(parent, cs[i]);
        if i != |cs| - 1 {
          PutComma();
        }
        i := i + 1;
      }
      assert cs[i..] == [];
      CasesNone(parent, cs[i..], registered);
      SeparatedNone();
    }

    /** The array case of tsm_dump_type_post. */
    method DumpArrayParts(more: seq<nat>, elem: Type)
      modifies this
      ensures var rest := [ElementEntry(elem, registered)] + Parts(elem, registered);
              && Entries(out) == Entries(old(out)) + (DimensionEntries(more) + rest)
              && (SingleLabels(elem, registered) ==> out == old(out) + Led(DimensionEntries(more) + rest))
      decreases elem, 3
    {
      hide Entries, Separated, Led, Trailed, DimensionEntries, ElementEntry, Parts, SingleLabels;
      PutComma();
      DumpDimensions(more);
      DumpCollectionType(elem);
      ArrayLed(DimensionEntries(more), [ElementEntry(elem, registered)] + Parts(elem, registered));
    }

    /** tsm_dump_type_post */
    method DumpTypePost(t: Type)
      modifies this
      ensures Entries(out) == Entries(old(out)) + Parts(t, registered)
      ensures SingleLabels(t, registered) ==> out == old(out) + Led(Parts(t, registered))
      decreases t, 1
    {
      hide Entries, Separated, Led, MemberEntries, CaseEntries, ConstEntries, DimensionEntries, ElementEntry;
      LedNone();
      SeparatedNone();
      match t
      case Struct(name, members) =>
        if name !in registered {
          if |members| > 0 { PutComma(); }
          DumpMembers(name, members);
          MembersLed(name, members, registered);
        }
      case Enum(_, consts) =>
        if |consts| > 0 { PutComma(); }
        DumpConsts(consts);
        ConstsLed(consts);
      case Union(name, cases) =>
        if |cases| > 0 { PutComma(); }
        DumpCases(name, cases);
        if CasesSingle(cases, registered) { CasesLed(name, cases, registered); }
      case Array(_, more, elem) =>
        DumpArrayParts(more, elem);
        ghost var rest := [ElementEntry(elem, registered)] + Parts(elem, registered);
        assert Parts(t, registered) == DimensionEntries(more) + rest;
      case Sequence(_, elem) =>
        PutComma();
        DumpCollectionType(elem);
        LedIsSeparated([ElementEntry(elem, registered)] + Parts(elem, registered));
      case _ =>
    }

    /** tsm_dump_struct_type: the whole table. */
    method DumpStructType(name: string, members: seq<Member>)
      modifies this
      ensures Entries(out) == Entries(old(out)) + Table(name, members, registered)
      ensures MembersSingle(members, registered) ==> out == old(out) + Separated(Table(name, members, registered))
    {
      hide Entries, Separated, MemberEntries, StructEntry, MembersSingle;
      Put(StructEntry(name, members, registered));
      if |members| > 0 { PutComma(); }
      DumpMembers(name, members);
      SeparatedNext([StructEntry(name, members, registered)], MemberEntries(name, members, registered));
      SeparatedOne(StructEntry(name, members, registered));
      MembersNone(name, members, registered);
    }
  }

  lemma DimensionsStep(bounds: seq<nat>, i: nat)
    requires i < |bounds|
    ensures DimensionEntries(bounds[i..]) == [DimensionEntry(bounds[i])] + DimensionEntries(bounds[i + 1..])
    ensures Trailed(DimensionEntries(bounds[i..])) ==
      [Item(DimensionEntry(bounds[i])), Comma] + Trailed(DimensionEntries(bounds[i + 1..]))
  {
    assert bounds[i..][1..] == bounds[i + 1..];
    var es := DimensionEntries(bounds[i + 1..]);
    assert ([DimensionEntry(bounds[i])] + es)[1..] == es;
  }

  lemma DimensionsNone()
    ensures DimensionEntries([]) == [] && Trailed([]) == []
  {
  }

  lemma SeparatedNone()
    ensures Separated([]) == []
  {
  }

  lemma LedNone()
    ensures Led([]) == []
  {
  }

  /** Entries with a comma after each. */
  function Trailed(es: seq<Entry>): seq<Token> {
    if es == [] then [] else [Item(es[0]), Comma] + Trailed(es[1..])
  }

  lemma {:induction false} LedTrailed(es: seq<Entry>)
    ensures [Comma] + Trailed(es) == Led(es) + [Comma]
    decreases es
  {
    if es != [] {
      LedTrailed(es[1..]);
      assert [Comma] + Trailed(es) == [Comma, Item(es[0])] + ([Comma] + Trailed(es[1..]));
    }
  }

  lemma ArrayLed(dims: seq<Entry>, rest: seq<Entry>)
    requires rest != []
    ensures Led(dims + rest) == [Comma] + Trailed(dims) + Separated(rest)
  {
    hide Led, Separated, Trailed;
    LedConcat(dims, rest);
    LedIsSeparated(rest);
    LedTrailed(dims);
    assert Led(dims) + ([Comma] + Separated(rest)) == (Led(dims) + [Comma]) + Separated(rest);
  }

  lemma MembersStep(parent: string, ms: seq<Member>, registered: set<string>)
    requires ms != []
    ensures MemberEntries(parent, ms, registered)
         == [MemberEntry(parent, ms[0], registered)] + Parts(ms[0].typ, registered) + MemberEntries(parent, ms[1..], registered)
    ensures MembersSingle(ms, registered) <==> SingleLabels(ms[0].typ, registered) && MembersSingle(ms[1..], registered)
  {
  }

  lemma MembersNone(parent: string, ms: seq<Member>, registered: set<string>)
    ensures MemberEntries(parent, ms, registered) == [] <==> ms == []
  {
  }

  lemma CasesStep(parent: string, cs: seq<UnionMember>, registered: set<string>)
    requires cs != []
    ensures CaseEntries(parent, cs, registered)
         == LabelEntries(parent, cs[0], cs[0].labels, registered) + CaseEntries(parent, cs[1..], registered)
    ensures CasesSingle(cs, registered)
            <==> |cs[0].labels| == 1 && SingleLabels(cs[0].typ, registered) && CasesSingle(cs[1..], registered)
    ensures |cs[0].labels| == 1 ==> LabelEntries(parent, cs[0], cs[0].labels, registered) != []
  {
  }

  lemma CasesNone(parent: string, cs: seq<UnionMember>, registered: set<string>)
    requires cs == [] || CasesSingle(cs, registered)
    ensures CaseEntries(parent, cs, registered) == [] <==> cs == []
  {
    if cs != [] {
      OneLabel(parent, cs[0], registered);
    }
  }

  lemma MembersLed(parent: string, ms: seq<Member>, registered: set<string>)
    ensures Led(MemberEntries(parent, ms, registered))
         == (if |ms| > 0 then [Comma] else []) + Separated(MemberEntries(parent, ms, registered))
  {
    MembersNone(parent, ms, registered);
    if ms != [] { LedIsSeparated(MemberEntries(parent, ms, registered)); }
  }

  lemma CasesLed(parent: string, cs: seq<UnionMember>, registered: set<string>)
    requires CasesSingle(cs, registered)
    ensures Led(CaseEntries(parent, cs, registered))
         == (if |cs| > 0 then [Comma] else []) + Separated(CaseEntries(parent, cs, registered))
  {
    CasesNone(parent, cs, registered);
    if cs != [] { LedIsSeparated(CaseEntries(parent, cs, registered)); }
  }

  lemma ConstsLed(cs: seq<EnumConst>)
    ensures Led(ConstEntries(cs)) == (if |cs| > 0 then [Comma] else []) + Separated(ConstEntries(cs))
  {
    if cs != [] { LedIsSeparated(ConstEntries(cs)); }
  }
}
