/**
  A callback state machine run over the calls of a document.
 */
module CallFold {
  import opened Xml
  import opened XmlDocument

  function Fold<S>(handle: (S, Call) -> S, s: S, calls: seq<Call>): S
    decreases calls
  {
    if calls == [] then s else Fold(handle, handle(s, calls[0]), calls[1..])
  }

  lemma {:induction false} FoldConcat<S>(handle: (S, Call) -> S, s: S, a: seq<Call>, b: seq<Call>)
    ensures Fold(handle, s, a + b) == Fold(handle, Fold(handle, s, a), b)
    decreases a
  {
    if a == [] {
      assert a + b == b;
    } else {
      assert (a + b)[1..] == a[1..] + b;
      FoldConcat(handle, handle(s, a[0]), a[1..], b);
    }
  }

  lemma FoldCons<S>(handle: (S, Call) -> S, s: S, calls: seq<Call>)
    requires calls != []
    ensures Fold(handle, s, calls) == Fold(handle, handle(s, calls[0]), calls[1..])
  {
  }

  lemma FoldNone<S>(handle: (S, Call) -> S, s: S)
    ensures Fold(handle, s, []) == s
  {
  }

  lemma FoldOne<S>(handle: (S, Call) -> S, s: S, c: Call)
    ensures Fold(handle, s, [c]) == handle(s, c)
  {
    assert [c][1..] == [];
  }

  /** No attribute callback is set. */
  ghost predicate IgnoresAttributes<S(!new)>(handle: (S, Call) -> S) {
    forall s, name, value :: handle(s, Attribute(name, value)) == s
  }

  lemma {:induction false} FoldAtts<S(!new)>(handle: (S, Call) -> S, s: S, atts: seq<Attr>)
    requires IgnoresAttributes(handle)
    ensures Fold(handle, s, AttCalls(atts)) == s
    decreases atts
  {
    if atts != [] {
      var calls := AttCalls(atts);
      assert calls[0] == Attribute(atts[0].name, atts[0].value) && calls[1..] == AttCalls(atts[1..]);
      FoldAtts(handle, s, atts[1..]);
    }
  }

  /** An element: its start, its content, its end. */
  lemma FoldNode<S(!new)>(handle: (S, Call) -> S, s: S, n: Node)
    requires IgnoresAttributes(handle)
    ensures Fold(handle, s, Calls(n))
         == Fold(handle, Fold(handle, handle(s, Open(n.name)), BodyCalls(n.body)), EndCalls(n))
  {
    hide Fold, IgnoresAttributes, BodyCalls, EndCalls, AttCalls;
    FoldConcat(handle, s, [Open(n.name)] + AttCalls(n.atts) + BodyCalls(n.body), EndCalls(n));
    FoldConcat(handle, s, [Open(n.name)] + AttCalls(n.atts), BodyCalls(n.body));
    FoldConcat(handle, s, [Open(n.name)], AttCalls(n.atts));
    FoldOne(handle, s, Open(n.name));
    FoldAtts(handle, handle(s, Open(n.name)), n.atts);
  }

  /** A leaf: one data call when it has any text, then the end call. */
  lemma FoldLeaf<S(!new)>(handle: (S, Call) -> S, s: S, n: Node)
    requires IgnoresAttributes(handle) && (n.body.Leaf? || n.body.CData?)
    ensures var inTag := handle(s, Open(n.name));
            var read := if n.body.text == "" then inTag else handle(inTag, Data(n.body.text));
            Fold(handle, s, Calls(n)) == handle(read, Close(QName(n) + n.body.endClose))
  {
    hide Fold, IgnoresAttributes, QName, Calls;
    FoldNode(handle, s, n);
    var inTag := handle(s, Open(n.name));
    FoldNone(handle, inTag);
    FoldOne(handle, inTag, Data(n.body.text));
    var read := if n.body.text == "" then inTag else handle(inTag, Data(n.body.text));
    assert Fold(handle, inTag, BodyCalls(n.body)) == read;
    FoldOne(handle, read, Close(QName(n) + n.body.endClose));
  }

  lemma FoldEmptyTag<S(!new)>(handle: (S, Call) -> S, s: S, n: Node)
    requires IgnoresAttributes(handle) && n.body.EmptyTag?
    ensures Fold(handle, s, Calls(n)) == handle(s, Open(n.name))
  {
    FoldNode(handle, s, n);
    FoldNone(handle, handle(s, Open(n.name)));
  }

  lemma FoldParent<S(!new)>(handle: (S, Call) -> S, s: S, n: Node)
    requires IgnoresAttributes(handle) && n.body.Children?
    ensures var read := Fold(handle, handle(s, Open(n.name)), KidsCalls(n.body.kids));
            Fold(handle, s, Calls(n)) == handle(read, Close(QName(n) + n.body.endClose))
  {
    hide Fold, IgnoresAttributes, QName, Calls, KidsCalls;
    FoldNode(handle, s, n);
    FoldOne(handle, Fold(handle, handle(s, Open(n.name)), KidsCalls(n.body.kids)), Close(QName(n) + n.body.endClose));
  }

  lemma FoldKids<S>(handle: (S, Call) -> S, s: S, k: Kids)
    ensures var first := Fold(handle, s, Calls(k.node));
            Fold(handle, s, KidsCalls(k)) == if k.Last? then first else Fold(handle, first, KidsCalls(k.rest))
  {
    hide Fold, Calls;
    if k.Cons? {
      FoldConcat(handle, s, Calls(k.node), KidsCalls(k.rest));
    } else {
      assert Calls(k.node) + [] == Calls(k.node);
    }
  }

  lemma CallsOfCons(buf: string, evs: seq<Event>)
    requires evs != []
    ensures CallsOf(buf, evs) != [] && CallsOf(buf, evs)[0] == CallOf(buf, evs[0])
    ensures CallsOf(buf, evs)[1..] == CallsOf(buf, evs[1..])
  {
  }
}
