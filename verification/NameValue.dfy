/**
  The name/value list that `ParseNameValue` builds from the parser's callbacks.
 */
module NameValue {
  import opened Options
  import opened Sequences
  import opened Text
  import opened Xml
  import opened XmlDocument
  import opened CallFold

  const NEW_PORT_LISTING := "NewPortListing"

  datatype NameValue = NameValue(name: string, value: string)

  /** struct NameValueParserData; `list` starts at the list head. */
  datatype State = State(curelt: string, topelt: bool, cdata: Option<string>, list: seq<NameValue>,
                         portListing: Option<string>)

  function TextOrEmpty(cdata: Option<string>): string {
    if cdata.None? then "" else cdata.value
  }

  /** The list entry of a leaf element; a port listing is kept apart. */
  function Entry(name: string, text: string): seq<NameValue> {
    if CStr(Cut(name, 63)) == NEW_PORT_LISTING then [] else [NameValue(CStr(Cut(name, 63)), Cut(text, 127))]
  }

  function Handle(s: State, c: Call): State {
    match c
    case Open(name) => s.(curelt := Cut(name, 63), topelt := true, cdata := None)
    case Attribute(_, _) => s
    case Data(text) =>
      if CStr(s.curelt) == NEW_PORT_LISTING then s.(portListing := Some(text)) else s.(cdata := Some(text))
    case Close(_) =>
      if !s.topelt then s
      else
        var list := if CStr(s.curelt) == NEW_PORT_LISTING then s.list
                    else [NameValue(CStr(s.curelt), Cut(TextOrEmpty(s.cdata), 127))] + s.list;
        s.(topelt := false, cdata := None, list := list)
  }

  function HandleAll(s: State, calls: seq<Call>): State {
    Fold(Handle, s, calls)
  }

  lemma HandleCons(s: State, calls: seq<Call>)
    requires calls != []
    ensures HandleAll(s, calls) == HandleAll(Handle(s, calls[0]), calls[1..])
  {
  }

  lemma HandleNone(s: State)
    ensures HandleAll(s, []) == s
  {
  }

  lemma HandleAttribute(s: State, name: string, value: string)
    ensures Handle(s, Attribute(name, value)) == s
  {
  }

  /** The parser data and its callbacks. */
  class ParserData {
    var curelt: string
    var topelt: bool
    var cdata: Option<string>
    var list: seq<NameValue>
    var portListing: Option<string>

    function Value(): State
      reads this
    {
      State(curelt, topelt, cdata, list, portListing)
    }

    method StartElt(name: string)
      modifies this
      ensures Value() == Handle(old(Value()), Open(name))
    {
      topelt := true;
      var l := if |name| > 63 then 63 else |name|;
      curelt := name[..l];
      cdata := None;
    }

    method EndElt(name: string)
      modifies this
      ensures Value() == Handle(old(Value()), Close(name))
    {
      if !topelt { return; }
      if CStr(curelt) != NEW_PORT_LISTING {
        var value := "";
        if cdata.Some? {
          var l := if |cdata.value| >= 128 then 127 else |cdata.value|;
          value := cdata.value[..l];
          assert |cdata.value| <= 127 ==> value == cdata.value;
        }
        list := [NameValue(CStr(curelt), value)] + list;
      }
      cdata := None;
      topelt := false;
    }

    method GetData(datas: string)
      modifies this
      ensures Value() == Handle(old(Value()), Data(datas))
    {
      if CStr(curelt) == NEW_PORT_LISTING {
        portListing := Some(datas);
      } else {
        cdata := Some(datas);
      }
    }

    /** Parses `buffer`; `curelt`, `topelt` and `cdata` start as they are. */
    method ParseNameValue(buffer: string)
      modifies this
      ensures Value() == HandleAll(old(Value()).(list := [], portListing := None), Read(buffer, 0))
    {
      hide Handle, HandleAll, Parse, CallsOf;
      list := [];
      portListing := None;
      var parser := new Parser(buffer);
      parser.ParseXml();
      assert [] + Parse(buffer, 0) == Parse(buffer, 0);
      RunCallbacks(buffer, parser.events);
    }

    /** The handlers called for the events in turn. */
    method RunCallbacks(buffer: string, events: seq<Event>)
      modifies this
      ensures Value() == HandleAll(old(Value()), CallsOf(buffer, events))
    {
      hide Handle, HandleAll, CallOf, CallsOf;
      var i := 0;
      assert events[0..] == events;
      while i < |events|
        invariant 0 <= i <= |events|
        invariant HandleAll(old(Value()), CallsOf(buffer, events)) == HandleAll(Value(), CallsOf(buffer, events[i..]))
      {
        assert events[i..][1..] == events[i + 1..];
        var call := CallOf(buffer, events[i]);
        CallsOfCons(buffer, events[i..]);
        HandleCons(Value(), CallsOf(buffer, events[i..]));
        match call {
          case Open(name) => StartElt(name);
          case Attribute(name, value) => HandleAttribute(Value(), name, value);
          case Data(text) => GetData(text);
          case Close(name) => EndElt(name);
        }
        i := i + 1;
      }
      NoCalls(buffer, events[i..]);
      HandleNone(Value());
    }

    /** The first entry of that name from the list head. */
    method GetValueFromNameValueList(name: string) returns (value: Option<string>)
      ensures value == Lookup(list, name)
    {
      var i := 0;
      value := None;
      assert list[0..] == list;
      while i < |list| && value.None?
        invariant 0 <= i <= |list|
        invariant value.None? ==> Lookup(list, name) == Lookup(list[i..], name)
        invariant value.Some? ==> Lookup(list, name) == value
      {
        assert list[i..][1..] == list[i + 1..];
        if list[i].name == name {
          value := Some(list[i].value);
        }
        i := i + 1;
      }
    }
  }

  function Lookup(list: seq<NameValue>, name: string): Option<string> {
    if list == [] then None
    else if list[0].name == name then Some(list[0].value)
    else Lookup(list[1..], name)
  }

  // ----- what the list holds

  /** Whether the last child is an empty-element tag, and the name of the last child. */
  function LastKid(k: Kids): Node {
    if k.Last? then k.node else LastKid(k.rest)
  }

  /** The entries of a document, in document order.  An empty-element tag has no end call: as the
      last child of an element it is taken for a leaf when its parent ends. */
  function Leaves(n: Node): seq<NameValue> {
    match n.body
    case EmptyTag => []
    case Leaf(text, _) => Entry(n.name, text)
    case CData(_, text, _, _) => Entry(n.name, text)
    case Children(_, kids, _) =>
      KidsLeaves(kids) + if LastKid(kids).body.EmptyTag? then Entry(LastKid(kids).name, "") else []
  }

  function KidsLeaves(k: Kids): seq<NameValue> {
    Leaves(k.node) + if k.Cons? then KidsLeaves(k.rest) else []
  }

  /** The port listing after `n`, given the one before: the last one with any data. */
  function Listing(n: Node, before: Option<string>): Option<string> {
    match n.body
    case EmptyTag => before
    case Leaf(text, _) => ListingOf(n.name, text, before)
    case CData(_, text, _, _) => ListingOf(n.name, text, before)
    case Children(_, kids, _) => KidsListing(kids, before)
  }

  function ListingOf(name: string, text: string, before: Option<string>): Option<string> {
    if CStr(Cut(name, 63)) == NEW_PORT_LISTING && text != "" then Some(text) else before
  }

  function KidsListing(k: Kids, before: Option<string>): Option<string> {
    if k.Last? then Listing(k.node, before) else KidsListing(k.rest, Listing(k.node, before))
  }

  /** The list after `n` has been read with `s.list` before it; an empty-element tag stays open. */
  ghost predicate Listed(s: State, n: Node, s': State) {
    && s'.list == Reverse(Leaves(n)) + s.list
    && s'.portListing == Listing(n, s.portListing)
    && s'.topelt == n.body.EmptyTag?
    && (n.body.EmptyTag? ==> s'.curelt == Cut(n.name, 63) && s'.cdata == None)
  }

  lemma LeafListed(s: State, n: Node)
    requires n.body.Leaf? || n.body.CData?
    ensures Listed(s, n, HandleAll(s, Calls(n)))
  {
    hide CStr, Fold, Calls;
    FoldLeaf(Handle, s, n);
    ReverseEntry(n.name, n.body.text);
  }

  lemma ReverseEntry(name: string, text: string)
    ensures Reverse(Entry(name, text)) == Entry(name, text)
  {
    var e := Entry(name, text);
    if e != [] {
      assert e[1..] == [] && Reverse(e[1..]) == [];
    }
  }

  /** For every document, well formed or not, reading its calls lists its leaves. */
  lemma {:induction false} NodeListed(s: State, n: Node)
    ensures Listed(s, n, HandleAll(s, Calls(n)))
    decreases n, 1
  {
    match n.body
    case EmptyTag => EmptyTagListed(s, n);
    case Leaf(_, _) => LeafListed(s, n);
    case CData(_, _, _, _) => LeafListed(s, n);
    case Children(_, kids, _) =>
      KidsListed(Handle(s, Open(n.name)), kids);
      ParentListed(s, n);
  }

  lemma EmptyTagListed(s: State, n: Node)
    requires n.body.EmptyTag?
    ensures Listed(s, n, HandleAll(s, Calls(n)))
  {
    FoldEmptyTag(Handle, s, n);
  }

  ghost predicate KidsRead(s: State, k: Kids, s': State) {
    && s'.list == Reverse(KidsLeaves(k)) + s.list
    && s'.portListing == KidsListing(k, s.portListing)
    && s'.topelt == LastKid(k).body.EmptyTag?
    && (s'.topelt ==> s'.curelt == Cut(LastKid(k).name, 63) && s'.cdata == None)
  }

  /** The end of an element with children. */
  lemma ParentListed(s: State, n: Node)
    requires n.body.Children?
    requires KidsRead(Handle(s, Open(n.name)), n.body.kids, HandleAll(Handle(s, Open(n.name)), KidsCalls(n.body.kids)))
    ensures Listed(s, n, HandleAll(s, Calls(n)))
  {
    AttributesIgnored();
    hide CStr, Fold, KidsLeaves, KidsListing, KidsCalls, LastKid, Entry, Handle, Reverse, Calls;
    FoldParent(Handle, s, n);
    var kids := n.body.kids;
    var read := HandleAll(Handle(s, Open(n.name)), KidsCalls(kids));
    var extra := if LastKid(kids).body.EmptyTag? then Entry(LastKid(kids).name, "") else [];
    CloseLists(read, LastKid(kids), QName(n) + n.body.endClose);
    OpenKeepsList(s, n);
    ReverseConcat(KidsLeaves(kids), extra);
    ReverseEntry(LastKid(kids).name, "");
    ReverseNone();
    assert extra + (Reverse(KidsLeaves(kids)) + s.list) == (extra + Reverse(KidsLeaves(kids))) + s.list;
  }

  lemma AttributesIgnored()
    ensures IgnoresAttributes(Handle)
  {
  }

  lemma ReverseNone()
    ensures Reverse<NameValue>([]) == []
  {
  }

  lemma OpenKeepsList(s: State, n: Node)
    ensures Handle(s, Open(n.name)).list == s.list && Handle(s, Open(n.name)).portListing == s.portListing
  {
  }

  lemma CloseLists(read: State, last: Node, name: string)
    requires read.topelt == last.body.EmptyTag?
    requires read.topelt ==> read.curelt == Cut(last.name, 63) && read.cdata == None
    ensures var extra := if last.body.EmptyTag? then Entry(last.name, "") else [];
            Handle(read, Close(name)).list == extra + read.list && !Handle(read, Close(name)).topelt
            && Handle(read, Close(name)).portListing == read.portListing
  {
    hide CStr;
  }

  lemma {:induction false} KidsListed(s: State, k: Kids)
    ensures KidsRead(s, k, HandleAll(s, KidsCalls(k)))
    decreases k, 0
  {
    hide Fold, Calls, KidsCalls, Leaves, Listing;
    FoldKids(Handle, s, k);
    var first := HandleAll(s, Calls(k.node));
    NodeListed(s, k.node);
    if k.Cons? {
      KidsListed(first, k.rest);
      ReverseConcat(Leaves(k.node), KidsLeaves(k.rest));
    } else {
      assert Leaves(k.node) + [] == Leaves(k.node);
    }
  }

  // ----- the main results

  /** Parsing any written document lists its leaves from the last to the first, cut to the sizes
      of the name and value arrays, whatever the parser data held before. */
  lemma DocumentListed(s: State, prolog: string, root: Node, epilog: string)
    requires Prolog(prolog) && Valid(root) && Plain(epilog)
    ensures var parsed := HandleAll(s.(list := [], portListing := None), Read(prolog + Print(root) + epilog, 0));
            parsed.list == Reverse(Leaves(root)) && parsed.portListing == Listing(root, None)
  {
    hide Valid, Print, Read, HandleAll, Reverse, Leaves, Listing;
    DocumentParsed(prolog, root, epilog);
    NodeListed(s.(list := [], portListing := None), root);
    assert Reverse(Leaves(root)) + [] == Reverse(Leaves(root));
  }

  /** The last entry of that name. */
  function LastOf(list: seq<NameValue>, name: string): Option<string> {
    if list == [] then None
    else if list[|list| - 1].name == name then Some(list[|list| - 1].value)
    else LastOf(list[..|list| - 1], name)
  }

  /** Looking a name up gives the last leaf of that name in the document. */
  lemma {:induction false} LookupIsLast(leaves: seq<NameValue>, name: string)
    ensures Lookup(Reverse(leaves), name) == LastOf(leaves, name)
    decreases |leaves|
  {
    if leaves != [] {
      var front, last := leaves[..|leaves| - 1], leaves[|leaves| - 1];
      assert leaves == front + [last];
      ReverseConcat(front, [last]);
      assert [last][1..] == [] && Reverse([last]) == [last];
      assert ([last] + Reverse(front))[1..] == Reverse(front);
      LookupIsLast(front, name);
    }
  }

  /** The leaf elements proper: those with a start and an end tag and no child element. */
  function ProperLeaves(n: Node): seq<NameValue> {
    match n.body
    case EmptyTag => []
    case Leaf(text, _) => Entry(n.name, text)
    case CData(_, text, _, _) => Entry(n.name, text)
    case Children(_, kids, _) => KidsProperLeaves(kids)
  }

  function KidsProperLeaves(k: Kids): seq<NameValue> {
    ProperLeaves(k.node) + if k.Cons? then KidsProperLeaves(k.rest) else []
  }

  /** The elements whose last child is an empty-element tag, other than a port listing. */
  function TrailingEmptyTags(n: Node): nat {
    if !n.body.Children? then 0
    else
      var last := LastKid(n.body.kids);
      KidsTrailingEmptyTags(n.body.kids) + if last.body.EmptyTag? then |Entry(last.name, "")| else 0
  }

  function KidsTrailingEmptyTags(k: Kids): nat {
    TrailingEmptyTags(k.node) + if k.Cons? then KidsTrailingEmptyTags(k.rest) else 0
  }

  /** The list is exactly the leaf elements proper if and only if no element ends in an
      empty-element tag. */
  lemma {:induction false} ExactlyTheLeaves(n: Node)
    ensures Leaves(n) == ProperLeaves(n) <==> TrailingEmptyTags(n) == 0
    ensures |Leaves(n)| == |ProperLeaves(n)| + TrailingEmptyTags(n)
    decreases n, 1
  {
    hide Entry;
    if n.body.Children? {
      KidsExactlyTheLeaves(n.body.kids);
    }
  }

  lemma {:induction false} KidsExactlyTheLeaves(k: Kids)
    ensures KidsTrailingEmptyTags(k) == 0 ==> KidsLeaves(k) == KidsProperLeaves(k)
    ensures |KidsLeaves(k)| == |KidsProperLeaves(k)| + KidsTrailingEmptyTags(k)
    decreases k, 0
  {
    ExactlyTheLeaves(k.node);
    if k.Cons? {
      KidsExactlyTheLeaves(k.rest);
    }
  }
}
