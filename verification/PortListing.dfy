/**
  The list of port mappings that `ParsePortListing` builds (IGD version 2).
 */
module PortListing {
  import opened Sequences
  import opened Text
  import opened Xml
  import opened XmlDocument
  import opened CallFold

  const INTEGER_RANGE := 0x1_0000_0000_0000_0000      // unsigned long long

  datatype Elt =
    | NoElt
    | PortMappingEntry
    | NewRemoteHost
    | NewExternalPort
    | NewProtocol
    | NewInternalPort
    | NewInternalClient
    | NewEnabled
    | NewDescription
    | NewLeaseTime

  const ELEMENTS: seq<(Elt, string)> := [
    (PortMappingEntry, "PortMappingEntry"),
    (NewRemoteHost, "NewRemoteHost"),
    (NewExternalPort, "NewExternalPort"),
    (NewProtocol, "NewProtocol"),
    (NewInternalPort, "NewInternalPort"),
    (NewInternalClient, "NewInternalClient"),
    (NewEnabled, "NewEnabled"),
    (NewDescription, "NewDescription"),
    (NewLeaseTime, "NewLeaseTime")
  ]

  /** struct PortMapping; the texts are C strings. */
  datatype Mapping = Mapping(leaseTime: nat, externalPort: nat, internalPort: nat, remoteHost: string,
                             internalClient: string, description: string, protocol: string, enabled: nat)

  const NO_MAPPING := Mapping(0, 0, 0, "", "", "", "", 0)

  /** memcmp (name, str, |name|) == 0: every name that starts a known name matches it. */
  predicate Matches(name: string, str: string) {
    forall k :: 0 <= k < |name| ==> name[k] == At(str, k)
  }

  function Recognize(name: string, i: nat): Elt
    requires i <= |ELEMENTS|
    decreases |ELEMENTS| - i
  {
    if i == |ELEMENTS| then NoElt
    else if Matches(name, ELEMENTS[i].1) then ELEMENTS[i].0
    else Recognize(name, i + 1)
  }

  function Atoui(s: string, acc: nat): nat {
    if s == "" || !('0' <= s[0] <= '9') then acc
    else Atoui(s[1..], (acc * 10 + (s[0] as int - '0' as int)) % INTEGER_RANGE)
  }

  method ParseInteger(s: string) returns (r: nat)
    ensures r == Atoui(s, 0)
  {
    r := 0;
    var i := 0;
    assert s[0..] == s;
    while i < |s| && s[i] != '\0'
      invariant 0 <= i <= |s| && Atoui(s, 0) == Atoui(s[i..], r)
    {
      assert s[i..][1..] == s[i + 1..];
      if '0' <= s[i] <= '9' {
        r := (r * 10 + (s[i] as int - '0' as int)) % INTEGER_RANGE;
      } else {
        break;
      }
      i := i + 1;
    }
  }

  function Store(m: Mapping, elt: Elt, data: string): Mapping {
    var d := Cut(data, 63);
    match elt
    case NewRemoteHost => m.(remoteHost := CStr(d))
    case NewExternalPort => m.(externalPort := Atoui(d, 0) % 65536)
    case NewProtocol => m.(protocol := CStr(Cut(d, 3)))
    case NewInternalPort => m.(internalPort := Atoui(d, 0) % 65536)
    case NewInternalClient => m.(internalClient := CStr(d))
    case NewEnabled => m.(enabled := Atoui(d, 0) % 256)
    case NewDescription => m.(description := CStr(d))
    case NewLeaseTime => m.(leaseTime := Atoui(d, 0))
    case _ => m
  }

  function StoreFirst(list: seq<Mapping>, elt: Elt, data: string): seq<Mapping> {
    if list == [] then list else [Store(list[0], elt, data)] + list[1..]
  }

  function StartList(list: seq<Mapping>, elt: Elt): seq<Mapping> {
    if elt.PortMappingEntry? then [NO_MAPPING] + list else list
  }

  /** struct PortMappingParserData; `list` starts at the list head. */
  datatype State = State(list: seq<Mapping>, curelt: Elt)

  function Handle(s: State, c: Call): State {
    match c
    case Open(name) => State(StartList(s.list, Recognize(name, 0)), Recognize(name, 0))
    case Attribute(_, _) => s
    case Data(text) => s.(list := StoreFirst(s.list, s.curelt, text))
    case Close(_) => s.(curelt := NoElt)
  }

  class ParserData {
    var list: seq<Mapping>
    var curelt: Elt

    function Value(): State
      reads this
    {
      State(list, curelt)
    }

    method StartElt(name: string)
      modifies this
      ensures Value() == Handle(old(Value()), Open(name))
    {
      curelt := NoElt;
      var i := 0;
      while i < |ELEMENTS|
        invariant 0 <= i <= |ELEMENTS| && curelt == NoElt && list == old(list)
        invariant Recognize(name, 0) == Recognize(name, i)
      {
        if Matches(name, ELEMENTS[i].1) {
          curelt := ELEMENTS[i].0;
          break;
        }
        i := i + 1;
      }
      assert curelt == Recognize(name, 0);
      if curelt == PortMappingEntry {
        list := [NO_MAPPING] + list;
      }
    }

    method EndElt(name: string)
      modifies this
      ensures Value() == Handle(old(Value()), Close(name))
    {
      curelt := NoElt;
    }

    method GotData(data: string)
      modifies this
      ensures Value() == Handle(old(Value()), Data(data))
    {
      if list == [] { return; }
      var l := if |data| > 63 then 63 else |data|;
      var d := data[..l];
      assert d == Cut(data, 63);
      var pm := list[0];
      var number := ParseInteger(d);
      match curelt {
        case NewRemoteHost => pm := pm.(remoteHost := CStr(d));
        case NewExternalPort => pm := pm.(externalPort := number % 65536);
        case NewProtocol =>
          if l > 3 { l := 3; }
          assert d[..l] == Cut(d, 3);
          pm := pm.(protocol := CStr(d[..l]));
        case NewInternalPort => pm := pm.(internalPort := number % 65536);
        case NewInternalClient => pm := pm.(internalClient := CStr(d));
        case NewEnabled => pm := pm.(enabled := number % 256);
        case NewDescription => pm := pm.(description := CStr(d));
        case NewLeaseTime => pm := pm.(leaseTime := number);
        case _ =>
      }
      list := [pm] + list[1..];
    }

    method RunCallbacks(buffer: string, events: seq<Event>)
      modifies this
      ensures Value() == Fold(Handle, old(Value()), CallsOf(buffer, events))
    {
      hide Handle, CallOf, CallsOf, Fold;
      var i := 0;
      assert events[0..] == events;
      while i < |events|
        invariant 0 <= i <= |events|
        invariant Fold(Handle, old(Value()), CallsOf(buffer, events))
               == Fold(Handle, Value(), CallsOf(buffer, events[i..]))
      {
        assert events[i..][1..] == events[i + 1..];
        var call := CallOf(buffer, events[i]);
        CallsOfCons(buffer, events[i..]);
        FoldCons(Handle, Value(), CallsOf(buffer, events[i..]));
        match call {
          case Open(name) => StartElt(name);
          case Attribute(name, value) => HandleAttribute(Value(), name, value);
          case Data(text) => GotData(text);
          case Close(name) => EndElt(name);
        }
        i := i + 1;
      }
      NoCalls(buffer, events[i..]);
      FoldNone(Handle, Value());
    }

    method ParsePortListing(buffer: string)
      modifies this
      ensures Value() == Fold(Handle, State([], NoElt), Read(buffer, 0))
    {
      hide Handle, CallsOf, Fold, Parse;
      list, curelt := [], NoElt;
      var parser := new Parser(buffer);
      parser.ParseXml();
      assert [] + Parse(buffer, 0) == Parse(buffer, 0);
      RunCallbacks(buffer, parser.events);
    }
  }

  lemma HandleAttribute(s: State, name: string, value: string)
    ensures Handle(s, Attribute(name, value)) == s
  {
  }

  lemma AttributesIgnored()
    ensures IgnoresAttributes(Handle)
  {
  }

  // ----- what a listing says

  /** The list after an element, given the list before. */
  function Listed(n: Node, list: seq<Mapping>): seq<Mapping> {
    var elt := Recognize(n.name, 0);
    var started := StartList(list, elt);
    match n.body
    case EmptyTag => started
    case Leaf(text, _) => LeafListed(elt, text, started)
    case CData(_, text, _, _) => LeafListed(elt, text, started)
    case Children(_, kids, _) => KidsListed(kids, started)
  }

  function LeafListed(elt: Elt, text: string, list: seq<Mapping>): seq<Mapping> {
    if text == "" then list else StoreFirst(list, elt, text)
  }

  function KidsListed(k: Kids, list: seq<Mapping>): seq<Mapping> {
    if k.Last? then Listed(k.node, list) else KidsListed(k.rest, Listed(k.node, list))
  }

  /** Reading an element, whatever its shape, has the effect its text says. */
  lemma {:induction false} NodeRead(s: State, n: Node)
    ensures Fold(Handle, s, Calls(n)).list == Listed(n, s.list)
    decreases n, 1
  {
    AttributesIgnored();
    hide Fold, Calls, KidsCalls, Recognize, StoreFirst, StartList;
    match n.body
    case EmptyTag => FoldEmptyTag(Handle, s, n);
    case Leaf(_, _) => FoldLeaf(Handle, s, n);
    case CData(_, _, _, _) => FoldLeaf(Handle, s, n);
    case Children(_, kids, _) =>
      FoldParent(Handle, s, n);
      KidsRead(Handle(s, Open(n.name)), kids);
  }

  lemma {:induction false} KidsRead(s: State, k: Kids)
    ensures Fold(Handle, s, KidsCalls(k)).list == KidsListed(k, s.list)
    decreases k, 0
  {
    hide Fold, Calls, KidsCalls, Listed;
    FoldKids(Handle, s, k);
    NodeRead(s, k.node);
    if k.Cons? {
      KidsRead(Fold(Handle, s, Calls(k.node)), k.rest);
    }
  }

  // ----- writing a listing

  function Pow10(k: nat): nat {
    if k == 0 then 1 else 10 * Pow10(k - 1)
  }

  lemma {:induction false} DecLength(n: nat, k: nat)
    requires k > 0 && n < Pow10(k)
    ensures |Dec(n)| <= k
  {
    if n >= 10 { DecLength(n / 10, k - 1); }
  }

  lemma {:induction false} AtouiAppend(s: string, c: char, acc: nat)
    requires forall k :: 0 <= k < |s| ==> '0' <= s[k] <= '9'
    requires '0' <= c <= '9'
    ensures Atoui(s + [c], acc) == (Atoui(s, acc) * 10 + (c as int - '0' as int)) % INTEGER_RANGE
    decreases s
  {
    if s == "" {
      assert s + [c] == [c] && [c][1..] == "";
    } else {
      assert (s + [c])[1..] == s[1..] + [c];
      AtouiAppend(s[1..], c, (acc * 10 + (s[0] as int - '0' as int)) % INTEGER_RANGE);
    }
  }

  /** Decimal digits read back as the number they were printed from. */
  lemma {:induction false} DecRoundTrip(n: nat)
    requires n < INTEGER_RANGE
    ensures Atoui(Dec(n), 0) == n
    ensures forall k :: 0 <= k < |Dec(n)| ==> '0' <= Dec(n)[k] <= '9'
  {
    DecDigits(n);
    var c := (n % 10 + '0' as int) as char;
    if n < 10 {
      assert Dec(n) == [c] && [c][1..] == "";
      assert n % INTEGER_RANGE == n;
    } else {
      DecRoundTrip(n / 10);
      AtouiAppend(Dec(n / 10), c, 0);
      assert n / 10 * 10 + n % 10 == n && n % INTEGER_RANGE == n;
    }
  }

  lemma DecFits(n: nat)
    requires n < INTEGER_RANGE
    ensures Cut(Dec(n), 63) == Dec(n) && Plain(Dec(n))
  {
    assert Pow10(5) == 100000 by { assert Pow10(2) == 100; assert Pow10(4) == 100 * Pow10(2); }
    assert Pow10(10) == 10000000000 by { assert Pow10(7) == 100 * Pow10(5); assert Pow10(9) == 100 * Pow10(7); }
    assert Pow10(15) == 1000000000000000 by { assert Pow10(12) == 100 * Pow10(10); assert Pow10(14) == 100 * Pow10(12); }
    assert Pow10(20) == 100000000000000000000 by { assert Pow10(17) == 100 * Pow10(15); assert Pow10(19) == 100 * Pow10(17); }
    DecLength(n, 20);
    DecRoundTrip(n);
  }

  function FieldNode(name: string, text: string): Node {
    Elem("p", name, [], "", Leaf(text, ""))
  }

  /** A mapping as an element; `gap` is the text between elements. */
  function EntryKids(m: Mapping, gap: string): Kids {
    Cons(FieldNode("NewRemoteHost", m.remoteHost), gap,
    Cons(FieldNode("NewExternalPort", Dec(m.externalPort)), gap,
    Cons(FieldNode("NewProtocol", m.protocol), gap,
    Cons(FieldNode("NewInternalPort", Dec(m.internalPort)), gap,
    Cons(FieldNode("NewInternalClient", m.internalClient), gap,
    Cons(FieldNode("NewEnabled", Dec(m.enabled)), gap,
    Cons(FieldNode("NewDescription", m.description), gap,
    Last(FieldNode("NewLeaseTime", Dec(m.leaseTime)), gap))))))))
  }

  function EntryNode(m: Mapping, gap: string): Node {
    Elem("p", "PortMappingEntry", [], "", Children(gap, EntryKids(m, gap), ""))
  }

  function ListingKids(ms: seq<Mapping>, gap: string): Kids
    requires ms != []
  {
    if |ms| == 1 then Last(EntryNode(ms[0], gap), gap) else Cons(EntryNode(ms[0], gap), gap, ListingKids(ms[1..], gap))
  }

  function ListingNode(ms: seq<Mapping>, gap: string): Node {
    Elem("p", "PortMappingList", [], "",
         if ms == [] then Leaf(gap, "") else Children(gap, ListingKids(ms, gap), ""))
  }

  /** Numbers that fit their fields, and texts without markup or NUL. */
  ghost predicate Writable(m: Mapping) {
    && m.leaseTime < INTEGER_RANGE && m.externalPort < 65536 && m.internalPort < 65536 && m.enabled < 256
    && WritableText(m.remoteHost) && WritableText(m.internalClient)
    && WritableText(m.description) && WritableText(m.protocol)
  }

  ghost predicate WritableText(s: string) {
    Plain(s) && '\0' !in s
  }

  /** The mapping with its texts cut to the sizes of the arrays. */
  function Fitted(m: Mapping): Mapping {
    m.(remoteHost := Cut(m.remoteHost, 63), internalClient := Cut(m.internalClient, 63),
       description := Cut(m.description, 63), protocol := Cut(m.protocol, 3))
  }

  // ----- the names are recognized

  lemma NotMatching(name: string, str: string, k: nat)
    requires k < |name| && name[k] != At(str, k)
    ensures !Matches(name, str)
  {
  }

  lemma RecognizeAt(name: string, j: nat)
    requires j < |ELEMENTS| && name == ELEMENTS[j].1
    requires forall i :: 0 <= i < j ==> !Matches(name, ELEMENTS[i].1)
    ensures Recognize(name, 0) == ELEMENTS[j].0
  {
    RecognizeFrom(name, j, 0);
  }

  lemma {:induction false} RecognizeFrom(name: string, j: nat, i: nat)
    requires i <= j < |ELEMENTS| && name == ELEMENTS[j].1
    requires forall k :: i <= k < j ==> !Matches(name, ELEMENTS[k].1)
    ensures Recognize(name, i) == ELEMENTS[j].0
    decreases j - i
  {
    if i < j { RecognizeFrom(name, j, i + 1); }
  }

  /** An index at which the names `i` and `j` of the table differ. */
  function Difference(i: nat, j: nat): nat {
    if i == 0 then 0 else if i == 2 && j == 6 then 4 else if i == 4 && j == 5 then 11 else 3
  }

  lemma NamesDiffer(i: nat, j: nat)
    requires i < j < |ELEMENTS|
    ensures !Matches(ELEMENTS[j].1, ELEMENTS[i].1)
  {
    assert ELEMENTS[i].1[0] == if i == 0 then 'P' else 'N';
    assert ELEMENTS[i].1[3] == ['t', 'R', 'E', 'P', 'I', 'I', 'E', 'D', 'L'][i];
    assert ELEMENTS[j].1[3] == ['t', 'R', 'E', 'P', 'I', 'I', 'E', 'D', 'L'][j];
    NotMatching(ELEMENTS[j].1, ELEMENTS[i].1, Difference(i, j));
  }

  lemma NameRecognized(j: nat)
    requires j < |ELEMENTS|
    ensures Recognize(ELEMENTS[j].1, 0) == ELEMENTS[j].0
  {
    forall i | 0 <= i < j ensures !Matches(ELEMENTS[j].1, ELEMENTS[i].1) {
      NamesDiffer(i, j);
    }
    RecognizeAt(ELEMENTS[j].1, j);
  }

  lemma ListNameUnknown()
    ensures Recognize("PortMappingList", 0) == NoElt
  {
    var name := "PortMappingList";
    assert !Matches(name, ELEMENTS[0].1) by { NotMatching(name, ELEMENTS[0].1, 11); }
    forall i | 0 < i < |ELEMENTS| ensures !Matches(name, ELEMENTS[i].1) {
      assert ELEMENTS[i].1[0] == 'N';
      NotMatching(name, ELEMENTS[i].1, 0);
    }
    hide Matches;
    RecognizeNone(name, 0);
  }

  lemma {:induction false} RecognizeNone(name: string, i: nat)
    requires i <= |ELEMENTS| && forall k :: i <= k < |ELEMENTS| ==> !Matches(name, ELEMENTS[k].1)
    ensures Recognize(name, i) == NoElt
    decreases |ELEMENTS| - i
  {
    if i < |ELEMENTS| { RecognizeNone(name, i + 1); }
  }

  // ----- the round trip

  function StoreText(m: Mapping, elt: Elt, text: string): Mapping {
    if text == "" then m else Store(m, elt, text)
  }

  lemma FieldListed(j: nat, text: string, m: Mapping, list: seq<Mapping>)
    requires 0 < j < |ELEMENTS|
    ensures Listed(FieldNode(ELEMENTS[j].1, text), [m] + list) == [StoreText(m, ELEMENTS[j].0, text)] + list
  {
    hide Recognize, Store;
    NameRecognized(j);
    assert ([m] + list)[1..] == list;
  }

  lemma KidsStep(k: Kids, list: seq<Mapping>)
    ensures KidsListed(k, list)
         == if k.Last? then Listed(k.node, list) else KidsListed(k.rest, Listed(k.node, list))
  {
  }

  /** Four fields in a row. */
  lemma FourFields(k: Kids, j: nat, texts: seq<string>, m: Mapping, list: seq<Mapping>)
    requires 0 < j && j + 3 < |ELEMENTS| && |texts| == 4
    requires k.Cons? && k.rest.Cons? && k.rest.rest.Cons?
    requires k.node == FieldNode(ELEMENTS[j].1, texts[0]) && k.rest.node == FieldNode(ELEMENTS[j + 1].1, texts[1])
    requires k.rest.rest.node == FieldNode(ELEMENTS[j + 2].1, texts[2])
    requires k.rest.rest.rest.node == FieldNode(ELEMENTS[j + 3].1, texts[3])
    ensures var m' := StoreText(StoreText(StoreText(StoreText(m, ELEMENTS[j].0, texts[0]), ELEMENTS[j + 1].0, texts[1]),
                                ELEMENTS[j + 2].0, texts[2]), ELEMENTS[j + 3].0, texts[3]);
            var k3 := k.rest.rest.rest;
            KidsListed(k, [m] + list) == if k3.Last? then [m'] + list else KidsListed(k3.rest, [m'] + list)
  {
    hide Listed, FieldNode, StoreText, KidsListed;
    var m1 := StoreText(m, ELEMENTS[j].0, texts[0]);
    var m2 := StoreText(m1, ELEMENTS[j + 1].0, texts[1]);
    var m3 := StoreText(m2, ELEMENTS[j + 2].0, texts[2]);
    FieldListed(j, texts[0], m, list);
    KidsStep(k, [m] + list);
    FieldListed(j + 1, texts[1], m1, list);
    KidsStep(k.rest, [m1] + list);
    FieldListed(j + 2, texts[2], m2, list);
    KidsStep(k.rest.rest, [m2] + list);
    FieldListed(j + 3, texts[3], m3, list);
    KidsStep(k.rest.rest.rest, [m3] + list);
  }

  lemma TextStored(m: Mapping, text: string)
    requires WritableText(text)
    ensures m.remoteHost == "" ==> StoreText(m, NewRemoteHost, text) == m.(remoteHost := Cut(text, 63))
    ensures m.internalClient == "" ==> StoreText(m, NewInternalClient, text) == m.(internalClient := Cut(text, 63))
    ensures m.description == "" ==> StoreText(m, NewDescription, text) == m.(description := Cut(text, 63))
    ensures m.protocol == "" ==> StoreText(m, NewProtocol, text) == m.(protocol := Cut(text, 3))
  {
    assert CStr(Cut(text, 63)) == Cut(text, 63);
    assert Cut(Cut(text, 63), 3) == Cut(text, 3);
    assert CStr(Cut(text, 3)) == Cut(text, 3);
  }

  lemma NumberStored(m: Mapping, n: nat)
    requires n < INTEGER_RANGE
    ensures n < 65536 ==> StoreText(m, NewExternalPort, Dec(n)) == m.(externalPort := n)
    ensures n < 65536 ==> StoreText(m, NewInternalPort, Dec(n)) == m.(internalPort := n)
    ensures n < 256 ==> StoreText(m, NewEnabled, Dec(n)) == m.(enabled := n)
    ensures StoreText(m, NewLeaseTime, Dec(n)) == m.(leaseTime := n)
  {
    hide Dec;
    DecRoundTrip(n);
    DecFits(n);
  }

  /** A written mapping is read as a new first mapping. */
  lemma EntryListed(m: Mapping, gap: string, list: seq<Mapping>)
    requires Writable(m)
    ensures Listed(EntryNode(m, gap), list) == [Fitted(m)] + list
  {
    hide KidsListed, StoreText, Dec, WritableText, Recognize, FieldNode;
    NameRecognized(0);
    var k := EntryKids(m, gap);
    assert Listed(EntryNode(m, gap), list) == KidsListed(k, [NO_MAPPING] + list);
    FourFields(k, 1, [m.remoteHost, Dec(m.externalPort), m.protocol, Dec(m.internalPort)], NO_MAPPING, list);
    var a1 := NO_MAPPING.(remoteHost := Cut(m.remoteHost, 63));
    TextStored(NO_MAPPING, m.remoteHost);
    var a2 := a1.(externalPort := m.externalPort);
    NumberStored(a1, m.externalPort);
    var a3 := a2.(protocol := Cut(m.protocol, 3));
    TextStored(a2, m.protocol);
    var a4 := a3.(internalPort := m.internalPort);
    NumberStored(a3, m.internalPort);
    assert KidsListed(k, [NO_MAPPING] + list) == KidsListed(k.rest.rest.rest.rest, [a4] + list);
    SecondHalf(m, gap, a4, list);
  }

  lemma SecondHalf(m: Mapping, gap: string, a4: Mapping, list: seq<Mapping>)
    requires Writable(m)
    requires a4 == Fitted(m).(internalClient := "", enabled := 0, description := "", leaseTime := 0)
    ensures KidsListed(EntryKids(m, gap).rest.rest.rest.rest, [a4] + list) == [Fitted(m)] + list
  {
    hide KidsListed, StoreText, Dec, WritableText, FieldNode;
    var k := EntryKids(m, gap).rest.rest.rest.rest;
    FourFields(k, 5, [m.internalClient, Dec(m.enabled), m.description, Dec(m.leaseTime)], a4, list);
    var a5 := a4.(internalClient := Cut(m.internalClient, 63));
    TextStored(a4, m.internalClient);
    var a6 := a5.(enabled := m.enabled);
    NumberStored(a5, m.enabled);
    var a7 := a6.(description := Cut(m.description, 63));
    TextStored(a6, m.description);
    NumberStored(a7, m.leaseTime);
  }

  function AllFitted(ms: seq<Mapping>): seq<Mapping> {
    if ms == [] then [] else [Fitted(ms[0])] + AllFitted(ms[1..])
  }

  lemma {:induction false} KidsAllListed(ms: seq<Mapping>, gap: string, list: seq<Mapping>)
    requires ms != [] && forall k :: 0 <= k < |ms| ==> Writable(ms[k])
    ensures KidsListed(ListingKids(ms, gap), list) == Reverse(AllFitted(ms)) + list
    decreases ms
  {
    hide Listed, EntryNode, Writable, Fitted, AllFitted, Reverse;
    EntryListed(ms[0], gap, list);
    FittedStep(ms, list);
    if |ms| == 1 {
      assert ms[1..] == [];
      NoneFitted();
    } else {
      KidsAllListed(ms[1..], gap, [Fitted(ms[0])] + list);
    }
  }

  lemma FittedStep(ms: seq<Mapping>, list: seq<Mapping>)
    requires ms != []
    ensures Reverse(AllFitted(ms)) + list == Reverse(AllFitted(ms[1..])) + ([Fitted(ms[0])] + list)
  {
    hide Fitted;
    assert AllFitted(ms)[1..] == AllFitted(ms[1..]);
  }

  // ----- the written listing is a valid document

  lemma FieldValid(j: nat, text: string)
    requires 0 < j < |ELEMENTS| && Plain(text)
    ensures Valid(FieldNode(ELEMENTS[j].1, text))
  {
    NameValid(j);
    PrefixValid();
    hide ValidName;
  }

  lemma PrefixValid()
    ensures ValidName("p") && ValidName("PortMappingList")
  {
  }

  lemma NameValid(j: nat)
    requires j < |ELEMENTS|
    ensures ValidName(ELEMENTS[j].1)
  {
    if
    case j == 0 => assert ValidName("PortMappingEntry");
    case j == 1 => assert ValidName("NewRemoteHost");
    case j == 2 => assert ValidName("NewExternalPort");
    case j == 3 => assert ValidName("NewProtocol");
    case j == 4 => assert ValidName("NewInternalPort");
    case j == 5 => assert ValidName("NewInternalClient");
    case j == 6 => assert ValidName("NewEnabled");
    case j == 7 => assert ValidName("NewDescription");
    case j == 8 => assert ValidName("NewLeaseTime");
  }

  lemma ConsValid(k: Kids)
    requires Valid(k.node) && Plain(k.tail) && (k.Cons? ==> ValidKids(k.rest))
    ensures ValidKids(k)
  {
  }

  lemma EntryValid(m: Mapping, gap: string)
    requires Writable(m) && Plain(gap)
    ensures Valid(EntryNode(m, gap))
  {
    hide Valid, ValidKids, Dec, FieldNode;
    DecFits(m.externalPort); DecFits(m.internalPort); DecFits(m.enabled); DecFits(m.leaseTime);
    var k := EntryKids(m, gap);
    var k5 := k.rest.rest.rest.rest;
    FieldValid(5, m.internalClient);
    FieldValid(6, Dec(m.enabled));
    FieldValid(7, m.description);
    FieldValid(8, Dec(m.leaseTime));
    ConsValid(k5.rest.rest.rest);
    ConsValid(k5.rest.rest);
    ConsValid(k5.rest);
    ConsValid(k5);
    FieldValid(1, m.remoteHost);
    FieldValid(2, Dec(m.externalPort));
    FieldValid(3, m.protocol);
    FieldValid(4, Dec(m.internalPort));
    ConsValid(k.rest.rest.rest);
    ConsValid(k.rest.rest);
    ConsValid(k.rest);
    ConsValid(k);
    ParentValid("PortMappingEntry", Children(gap, k, ""));
  }

  lemma ParentValid(name: string, body: Body)
    requires name == "PortMappingEntry" || name == "PortMappingList"
    requires body.Children? && Plain(body.lead) && ValidKids(body.kids) && body.endClose == ""
    ensures Valid(Elem("p", name, [], "", body))
  {
    NameValid(0);
    PrefixValid();
    hide ValidName, ValidKids;
  }

  lemma {:induction false} ListingKidsValid(ms: seq<Mapping>, gap: string)
    requires ms != [] && Plain(gap) && forall k :: 0 <= k < |ms| ==> Writable(ms[k])
    ensures ValidKids(ListingKids(ms, gap))
    decreases ms
  {
    hide Valid, EntryNode, Writable;
    EntryValid(ms[0], gap);
    if |ms| > 1 { ListingKidsValid(ms[1..], gap); }
  }

  /** Writing any list of mappings and parsing it gives the mappings from the last to the first,
      with texts cut to their arrays. */
  lemma ListingRoundTrip(prolog: string, ms: seq<Mapping>, gap: string, epilog: string)
    requires Prolog(prolog) && Plain(gap) && Plain(epilog)
    requires forall k :: 0 <= k < |ms| ==> Writable(ms[k])
    ensures Fold(Handle, State([], NoElt), Read(prolog + Print(ListingNode(ms, gap)) + epilog, 0)).list == Reverse(AllFitted(ms))
  {
    hide Fold, Read, Print, Valid, Calls, KidsListed, ValidKids, ListingKids, AllFitted, Reverse, Recognize, Writable;
    var root := ListingNode(ms, gap);
    ListNameUnknown();
    if ms == [] {
      assert Valid(root) by { EmptyListingValid(gap); }
      assert Reverse(AllFitted(ms)) == [] by { NoneFitted(); }
    } else {
      ListingKidsValid(ms, gap);
      ParentValid("PortMappingList", root.body);
      KidsAllListed(ms, gap, []);
      assert Reverse(AllFitted(ms)) + [] == Reverse(AllFitted(ms));
    }
    DocumentParsed(prolog, root, epilog);
    NodeRead(State([], NoElt), root);
  }

  lemma NoneFitted()
    ensures Reverse(AllFitted([])) == []
  {
  }

  lemma EmptyListingValid(gap: string)
    requires Plain(gap)
    ensures Valid(ListingNode([], gap))
  {
    PrefixValid();
    hide ValidName;
  }
}
