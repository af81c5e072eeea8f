/**
  The description of an Internet Gateway Device, as `parserootdesc` reads it.
 */
module IgdDescription {
  import opened Text
  import opened Xml
  import opened XmlDocument
  import opened CallFold

  const CIF_TYPE := "urn:schemas-upnp-org:service:WANCommonInterfaceConfig:1"
  const FC6_TYPE := "urn:schemas-upnp-org:service:WANIPv6FirewallControl:1"
  const IP_TYPE := "urn:schemas-upnp-org:service:WANIPConnection:1"
  const PPP_TYPE := "urn:schemas-upnp-org:service:WANPPPConnection:1"

  /** struct IGDdatas_service, as C strings. */
  datatype Service = Service(controlUrl: string, eventSubUrl: string, scpdUrl: string, serviceType: string)

  const NO_SERVICE := Service("", "", "", "")

  /** The services kept for later use. */
  datatype Kept = Kept(cif: Service, first: Service, second: Service, fc6: Service)

  /** struct IGDdatas */
  datatype Igd = Igd(curEltName: string, urlBase: string, presentationUrl: string, level: int, kept: Kept, tmp: Service)

  const NO_IGD := Igd("", "", "", 0, Kept(NO_SERVICE, NO_SERVICE, NO_SERVICE, NO_SERVICE), NO_SERVICE)

  predicate IsConnection(s: Service) {
    s.serviceType == IP_TYPE || s.serviceType == PPP_TYPE
  }

  /** A complete service is kept by its type. */
  function Keep(k: Kept, s: Service): Kept {
    if s.serviceType == CIF_TYPE then k.(cif := s)
    else if s.serviceType == FC6_TYPE then k.(fc6 := s)
    else if IsConnection(s) then
      if k.first.serviceType == "" then k.(first := s) else k.(second := s)
    else k
  }

  function FieldText(text: string): string {
    CStr(Cut(text, 127))
  }

  /** The data of an element that is part of a service. */
  function StoreField(tmp: Service, name: string, text: string): Service {
    if CStr(name) == "serviceType" then tmp.(serviceType := FieldText(text))
    else if CStr(name) == "controlURL" then tmp.(controlUrl := FieldText(text))
    else if CStr(name) == "eventSubURL" then tmp.(eventSubUrl := FieldText(text))
    else if CStr(name) == "SCPDURL" then tmp.(scpdUrl := FieldText(text))
    else tmp
  }

  function Handle(d: Igd, c: Call): Igd {
    match c
    case Open(name) =>
      d.(curEltName := name, level := d.level + 1, tmp := if name == "service" then NO_SERVICE else d.tmp)
    case Attribute(_, _) => d
    case Data(text) =>
      if CStr(d.curEltName) == "URLBase" then d.(urlBase := FieldText(text))
      else if CStr(d.curEltName) == "presentationURL" then d.(presentationUrl := FieldText(text))
      else d.(tmp := StoreField(d.tmp, d.curEltName, text))
    case Close(name) =>
      d.(level := d.level - 1, kept := if name == "service" then Keep(d.kept, d.tmp) else d.kept)
  }

  const MAX_NAME := 127          // sizeof (cureltname) - 1

  /** The memory of a struct IGDdatas. The name of an element is copied whole: a longer one than its
      array holds is written over the fields after it, and what the struct says then is undefined. */
  datatype Memory = Intact(igd: Igd) | Overrun

  function HandleIn(m: Memory, c: Call): Memory {
    match m
    case Overrun => Overrun
    case Intact(d) => if LongOpen(c) then Overrun else Intact(Handle(d, c))
  }

  predicate LongOpen(c: Call) {
    c.Open? && |c.name| > MAX_NAME
  }

  /** struct IGDdatas and the handlers that fill it. */
  class IgdData {
    var overrun: bool
    var curEltName: string
    var urlBase: string
    var presentationUrl: string
    var level: int
    var cif: Service
    var first: Service
    var second: Service
    var fc6: Service
    var tmp: Service

    function Value(): Igd
      reads this
    {
      Igd(curEltName, urlBase, presentationUrl, level, Kept(cif, first, second, fc6), tmp)
    }

    function Contents(): Memory
      reads this
    {
      if overrun then Overrun else Intact(Value())
    }

    /** memset 0 */
    constructor ()
      ensures Contents() == Intact(NO_IGD)
    {
      overrun := false;
      curEltName, urlBase, presentationUrl, level := "", "", "", 0;
      cif, first, second, fc6, tmp := NO_SERVICE, NO_SERVICE, NO_SERVICE, NO_SERVICE, NO_SERVICE;
    }

    method StartElt(name: string)
      modifies this
      ensures Contents() == HandleIn(old(Contents()), Open(name))
    {
      if |name| > MAX_NAME {
        overrun := true;
        return;
      }
      curEltName := name;
      level := level + 1;
      if name == "service" {
        tmp := NO_SERVICE;
      }
    }

    method EndElt(name: string)
      modifies this
      ensures Contents() == HandleIn(old(Contents()), Close(name))
    {
      level := level - 1;
      if name == "service" {
        if tmp.serviceType == CIF_TYPE {
          cif := tmp;
        } else if tmp.serviceType == FC6_TYPE {
          fc6 := tmp;
        } else if tmp.serviceType == IP_TYPE || tmp.serviceType == PPP_TYPE {
          if first.serviceType == "" {
            first := tmp;
          } else {
            second := tmp;
          }
        }
      }
    }

    method GotData(text: string)
      modifies this
      ensures Contents() == HandleIn(old(Contents()), Data(text))
    {
      var cur := CStr(curEltName);
      var l := if |text| >= 128 then 127 else |text|;
      assert |text| <= 127 ==> text[..l] == text;
      var field := CStr(text[..l]);
      assert field == FieldText(text);
      hide CStr, FieldText;
      if cur == "URLBase" {
        urlBase := field;
      } else if cur == "presentationURL" {
        presentationUrl := field;
      } else if cur == "serviceType" {
        tmp := tmp.(serviceType := field);
      } else if cur == "controlURL" {
        tmp := tmp.(controlUrl := field);
      } else if cur == "eventSubURL" {
        tmp := tmp.(eventSubUrl := field);
      } else if cur == "SCPDURL" {
        tmp := tmp.(scpdUrl := field);
      }
    }

    /** The callbacks, in the order the parser makes them. */
    method RunCallbacks(buffer: string, events: seq<Event>)
      modifies this
      ensures Contents() == Fold(HandleIn, old(Contents()), CallsOf(buffer, events))
    {
      hide Handle, HandleIn, CallOf, CallsOf, Fold;
      var i := 0;
      assert events[0..] == events;
      while i < |events|
        invariant 0 <= i <= |events|
        invariant Fold(HandleIn, old(Contents()), CallsOf(buffer, events))
               == Fold(HandleIn, Contents(), CallsOf(buffer, events[i..]))
      {
        assert events[i..][1..] == events[i + 1..];
        var call := CallOf(buffer, events[i]);
        CallsOfCons(buffer, events[i..]);
        FoldCons(HandleIn, Contents(), CallsOf(buffer, events[i..]));
        match call {
          case Open(name) => StartElt(name);
          case Attribute(name, value) => HandleAttribute(Contents(), name, value);
          case Data(text) => GotData(text);
          case Close(name) => EndElt(name);
        }
        i := i + 1;
      }
      NoCalls(buffer, events[i..]);
      FoldNone(HandleIn, Contents());
    }

    method ParseRootDesc(buffer: string)
      modifies this
      ensures Contents() == Fold(HandleIn, old(Contents()), Read(buffer, 0))
    {
      hide Handle, HandleIn, CallsOf, Fold, Parse;
      var parser := new Parser(buffer);
      parser.ParseXml();
      assert [] + Parse(buffer, 0) == Parse(buffer, 0);
      RunCallbacks(buffer, parser.events);
    }
  }

  lemma HandleAttribute(m: Memory, name: string, value: string)
    ensures HandleIn(m, Attribute(name, value)) == m
  {
  }

  lemma AttributesIgnored()
    ensures IgnoresAttributes(Handle)
  {
  }

  // ----- what a description says

  /** The service record after an element, given the one before. */
  function Record(n: Node, tmp: Service): Service {
    var inTag := if n.name == "service" then NO_SERVICE else tmp;
    match n.body
    case EmptyTag => inTag
    case Leaf(text, _) => LeafRecord(n.name, text, inTag)
    case CData(_, text, _, _) => LeafRecord(n.name, text, inTag)
    case Children(_, kids, _) => KidsRecord(kids, inTag)
  }

  function LeafRecord(name: string, text: string, tmp: Service): Service {
    if text == "" || CStr(name) == "URLBase" || CStr(name) == "presentationURL" then tmp
    else StoreField(tmp, name, text)
  }

  function KidsRecord(k: Kids, tmp: Service): Service {
    if k.Last? then Record(k.node, tmp) else KidsRecord(k.rest, Record(k.node, tmp))
  }

  /** The element ends as "service": its end tag has no prefix and no white space. */
  predicate EndsService(n: Node) {
    !n.body.EmptyTag? && QName(n) + n.body.endClose == "service"
  }

  /** The records completed inside an element, in document order. */
  function Services(n: Node, tmp: Service): seq<Service> {
    var inTag := if n.name == "service" then NO_SERVICE else tmp;
    (if n.body.Children? then KidsServices(n.body.kids, inTag) else [])
    + if EndsService(n) then [Record(n, tmp)] else []
  }

  function KidsServices(k: Kids, tmp: Service): seq<Service> {
    Services(k.node, tmp) + if k.Cons? then KidsServices(k.rest, Record(k.node, tmp)) else []
  }

  function KeepAll(k: Kept, services: seq<Service>): Kept
    decreases services
  {
    if services == [] then k else KeepAll(Keep(k, services[0]), services[1..])
  }

  lemma {:induction false} KeepConcat(k: Kept, a: seq<Service>, b: seq<Service>)
    ensures KeepAll(k, a + b) == KeepAll(KeepAll(k, a), b)
    decreases a
  {
    if a == [] {
      assert a + b == b;
    } else {
      assert (a + b)[1..] == a[1..] + b;
      KeepConcat(Keep(k, a[0]), a[1..], b);
    }
  }

  /** The text of the last non-empty leaf of that name, or what was there before. */
  function LastText(n: Node, elt: string, before: string): string {
    match n.body
    case EmptyTag => before
    case Leaf(text, _) => if CStr(n.name) == elt && text != "" then FieldText(text) else before
    case CData(_, text, _, _) => if CStr(n.name) == elt && text != "" then FieldText(text) else before
    case Children(_, kids, _) => KidsLastText(kids, elt, before)
  }

  function KidsLastText(k: Kids, elt: string, before: string): string {
    if k.Last? then LastText(k.node, elt, before) else KidsLastText(k.rest, elt, LastText(k.node, elt, before))
  }

  function EmptyTags(n: Node): nat {
    match n.body
    case EmptyTag => 1
    case Children(_, kids, _) => KidsEmptyTags(kids)
    case _ => 0
  }

  function KidsEmptyTags(k: Kids): nat {
    EmptyTags(k.node) + if k.Cons? then KidsEmptyTags(k.rest) else 0
  }

  /** The data after an element has been read, but for the current element name. */
  ghost predicate ReadInto(d: Igd, n: Node, d': Igd) {
    && d'.urlBase == LastText(n, "URLBase", d.urlBase)
    && d'.presentationUrl == LastText(n, "presentationURL", d.presentationUrl)
    && d'.level == d.level + EmptyTags(n)
    && d'.tmp == Record(n, d.tmp)
    && d'.kept == KeepAll(d.kept, Services(n, d.tmp))
  }

  ghost predicate KidsReadInto(d: Igd, k: Kids, d': Igd) {
    && d'.urlBase == KidsLastText(k, "URLBase", d.urlBase)
    && d'.presentationUrl == KidsLastText(k, "presentationURL", d.presentationUrl)
    && d'.level == d.level + KidsEmptyTags(k)
    && d'.tmp == KidsRecord(k, d.tmp)
    && d'.kept == KeepAll(d.kept, KidsServices(k, d.tmp))
  }

  lemma KeepOne(k: Kept, s: Service)
    ensures KeepAll(k, [s]) == Keep(k, s) && KeepAll(k, []) == k
  {
    assert [s][1..] == [];
  }

  lemma LeafRead(d: Igd, n: Node)
    requires n.body.Leaf? || n.body.CData?
    ensures ReadInto(d, n, Fold(Handle, d, Calls(n)))
  {
    AttributesIgnored();
    hide Fold, Calls, CStr, FieldText, Keep, KeepAll, QName;
    FoldLeaf(Handle, d, n);
    KeepOne(d.kept, Record(n, d.tmp));
    assert Services(n, d.tmp) == if EndsService(n) then [Record(n, d.tmp)] else [];
  }

  lemma EmptyTagRead(d: Igd, n: Node)
    requires n.body.EmptyTag?
    ensures ReadInto(d, n, Fold(Handle, d, Calls(n)))
  {
    AttributesIgnored();
    hide Fold, Calls;
    FoldEmptyTag(Handle, d, n);
  }

  lemma ParentRead(d: Igd, n: Node)
    requires n.body.Children?
    requires var inTag := Handle(d, Open(n.name));
             KidsReadInto(inTag, n.body.kids, Fold(Handle, inTag, KidsCalls(n.body.kids)))
    ensures ReadInto(d, n, Fold(Handle, d, Calls(n)))
  {
    AttributesIgnored();
    hide Fold, Calls, KidsCalls, Keep, KeepAll, QName, KidsServices, KidsRecord, KidsLastText, KidsEmptyTags;
    FoldParent(Handle, d, n);
    var inTag := Handle(d, Open(n.name));
    var inner := KidsServices(n.body.kids, inTag.tmp);
    KeepOne(KeepAll(d.kept, inner), Record(n, d.tmp));
    if EndsService(n) {
      KeepConcat(d.kept, inner, [Record(n, d.tmp)]);
    } else {
      assert inner + [] == inner;
    }
  }

  /** Reading an element, whatever its shape, has the effect its text says. */
  lemma {:induction false} NodeRead(d: Igd, n: Node)
    ensures ReadInto(d, n, Fold(Handle, d, Calls(n)))
    decreases n, 1
  {
    match n.body
    case EmptyTag => EmptyTagRead(d, n);
    case Leaf(_, _) => LeafRead(d, n);
    case CData(_, _, _, _) => LeafRead(d, n);
    case Children(_, kids, _) =>
      KidsRead(Handle(d, Open(n.name)), kids);
      ParentRead(d, n);
  }

  lemma {:induction false} KidsRead(d: Igd, k: Kids)
    ensures KidsReadInto(d, k, Fold(Handle, d, KidsCalls(k)))
    decreases k, 0
  {
    hide Fold, Calls, KidsCalls, Services, Record, LastText, EmptyTags, KeepAll;
    FoldKids(Handle, d, k);
    var d' := Fold(Handle, d, Calls(k.node));
    NodeRead(d, k.node);
    if k.Cons? {
      KidsRead(d', k.rest);
      KeepConcat(d.kept, Services(k.node, d.tmp), KidsServices(k.rest, d'.tmp));
    } else {
      assert Services(k.node, d.tmp) + [] == Services(k.node, d.tmp);
    }
  }

  // ----- which services are kept

  function Select(services: seq<Service>, keep: Service -> bool): seq<Service> {
    if services == [] then []
    else Select(services[..|services| - 1], keep) + if keep(services[|services| - 1]) then [services[|services| - 1]] else []
  }

  function LastOr(s: seq<Service>, otherwise: Service): Service {
    if s == [] then otherwise else s[|s| - 1]
  }

  /** The first connection service is kept as `first`, the last of the later ones as `second`, and
      the last service of each of the other two types. */
  ghost predicate KeptOf(k: Kept, services: seq<Service>, k': Kept) {
    var connections := Select(services, IsConnection);
    && k'.first == (if connections == [] then k.first else connections[0])
    && k'.second == (if |connections| < 2 then k.second else connections[|connections| - 1])
    && k'.cif == LastOr(Select(services, (s: Service) => s.serviceType == CIF_TYPE), k.cif)
    && k'.fc6 == LastOr(Select(services, (s: Service) => s.serviceType == FC6_TYPE), k.fc6)
  }

  lemma {:induction false} SelectHolds(services: seq<Service>, keep: Service -> bool)
    ensures forall i :: 0 <= i < |Select(services, keep)| ==> keep(Select(services, keep)[i])
    decreases |services|
  {
    if services != [] {
      SelectHolds(services[..|services| - 1], keep);
    }
  }

  lemma TypesDiffer(s: Service)
    ensures IsConnection(s) ==> s.serviceType != "" && s.serviceType != CIF_TYPE && s.serviceType != FC6_TYPE
    ensures CIF_TYPE != FC6_TYPE
  {
    assert |CIF_TYPE| == 55 && |FC6_TYPE| == 53 && |IP_TYPE| == 46 && |PPP_TYPE| == 47;
  }

  lemma KeepLast(k: Kept, front: seq<Service>, last: Service)
    ensures KeepAll(k, front + [last]) == Keep(KeepAll(k, front), last)
  {
    KeepConcat(k, front, [last]);
    KeepOne(KeepAll(k, front), last);
  }

  lemma {:induction false} KeptServices(k: Kept, services: seq<Service>)
    requires k.first.serviceType == ""
    ensures KeptOf(k, services, KeepAll(k, services))
    decreases |services|
  {
    if services != [] {
      var front, last := services[..|services| - 1], services[|services| - 1];
      assert services == front + [last];
      KeptServices(k, front);
      KeepLast(k, front, last);
      hide KeepAll;
      KeptStep(k, services, KeepAll(k, front));
    }
  }

  lemma KeptStep(k: Kept, services: seq<Service>, before: Kept)
    requires k.first.serviceType == "" && services != []
    requires KeptOf(k, services[..|services| - 1], before)
    ensures KeptOf(k, services, Keep(before, services[|services| - 1]))
  {
    hide CIF_TYPE, FC6_TYPE, IP_TYPE, PPP_TYPE, IsConnection;
    var front, last := services[..|services| - 1], services[|services| - 1];
    TypesDiffer(last);
    var connections := Select(front, IsConnection);
    if connections != [] {
      SelectHolds(front, IsConnection);
      TypesDiffer(connections[0]);
    }
  }

  // ----- the record of a service is its own

  lemma PrefixShows(n: Node, w: string)
    ensures n.prefix != "" ==> ':' in QName(n) + w
  {
    if n.prefix != "" {
      assert (QName(n) + w)[|n.prefix|] == ':';
    }
  }

  lemma WhiteShows(s: string, w: string)
    requires AllWhite(w)
    ensures w != "" ==> IsWhite((s + w)[|s + w| - 1])
  {
    if w != "" {
      assert (s + w)[|s + w| - 1] == w[|w| - 1];
    }
  }

  /** A service is kept exactly when its tags have no prefix and its end tag no white space. */
  lemma EndsServiceIff(n: Node)
    requires Valid(n)
    ensures EndsService(n) <==> n.name == "service" && n.prefix == "" && !n.body.EmptyTag? && n.body.endClose == ""
  {
    if !n.body.EmptyTag? {
      var w := n.body.endClose;
      PrefixShows(n, w);
      WhiteShows(QName(n), w);
      assert ':' !in "service" && !IsWhite("service"[6]);
      assert w == "" ==> QName(n) + w == QName(n);
    }
  }

  /** A service record never depends on what was read before the service. */
  lemma {:induction false} ServicesOwn(n: Node, tmp: Service, tmp': Service)
    requires Valid(n)
    ensures Services(n, tmp) == Services(n, tmp')
    decreases n, 1
  {
    if n.body.Children? && n.name != "service" {
      KidsServicesOwn(n.body.kids, tmp, tmp');
    }
    EndsServiceIff(n);
  }

  lemma {:induction false} KidsServicesOwn(k: Kids, tmp: Service, tmp': Service)
    requires ValidKids(k)
    ensures KidsServices(k, tmp) == KidsServices(k, tmp')
    decreases k, 0
  {
    ServicesOwn(k.node, tmp, tmp');
    if k.Cons? {
      KidsServicesOwn(k.rest, Record(k.node, tmp), Record(k.node, tmp'));
    }
  }

  // ----- the fields of a record

  /** The text of the last non-empty leaf of that name since the last start of a service. */
  function Latest(n: Node, elt: string, before: string): string {
    var inTag := if n.name == "service" then "" else before;
    match n.body
    case EmptyTag => inTag
    case Leaf(text, _) => if CStr(n.name) == elt && text != "" then FieldText(text) else inTag
    case CData(_, text, _, _) => if CStr(n.name) == elt && text != "" then FieldText(text) else inTag
    case Children(_, kids, _) => KidsLatest(kids, elt, inTag)
  }

  function KidsLatest(k: Kids, elt: string, before: string): string {
    if k.Last? then Latest(k.node, elt, before) else KidsLatest(k.rest, elt, Latest(k.node, elt, before))
  }

  /** Each field of a record has the text of its own element. */
  lemma {:induction false} RecordFields(n: Node, tmp: Service)
    ensures Record(n, tmp).serviceType == Latest(n, "serviceType", tmp.serviceType)
    ensures Record(n, tmp).controlUrl == Latest(n, "controlURL", tmp.controlUrl)
    ensures Record(n, tmp).eventSubUrl == Latest(n, "eventSubURL", tmp.eventSubUrl)
    ensures Record(n, tmp).scpdUrl == Latest(n, "SCPDURL", tmp.scpdUrl)
    decreases n, 1
  {
    hide CStr, FieldText;
    if n.body.Children? {
      KidsRecordFields(n.body.kids, if n.name == "service" then NO_SERVICE else tmp);
    }
  }

  lemma {:induction false} KidsRecordFields(k: Kids, tmp: Service)
    ensures KidsRecord(k, tmp).serviceType == KidsLatest(k, "serviceType", tmp.serviceType)
    ensures KidsRecord(k, tmp).controlUrl == KidsLatest(k, "controlURL", tmp.controlUrl)
    ensures KidsRecord(k, tmp).eventSubUrl == KidsLatest(k, "eventSubURL", tmp.eventSubUrl)
    ensures KidsRecord(k, tmp).scpdUrl == KidsLatest(k, "SCPDURL", tmp.scpdUrl)
    decreases k, 0
  {
    hide Record, Latest;
    RecordFields(k.node, tmp);
    if k.Cons? {
      KidsRecordFields(k.rest, Record(k.node, tmp));
    }
  }

  /** Children that are leaves without NUL, as the elements of a service are. */
  predicate LeavesOnly(k: Kids) {
    && (k.node.body.Leaf? || k.node.body.CData?) && '\0' !in k.node.name && '\0' !in k.node.body.text
    && k.node.name != "service" && (k.Cons? ==> LeavesOnly(k.rest))
  }

  /** The text of the last non-empty leaf of that name, or none. */
  function LastLeaf(k: Kids, elt: string): string
    requires LeavesOnly(k)
  {
    var later := if k.Cons? then LastLeaf(k.rest, elt) else "";
    if later == "" && k.node.name == elt then k.node.body.text else later
  }

  lemma {:induction false} LatestLeaf(k: Kids, elt: string, before: string)
    requires LeavesOnly(k)
    ensures KidsLatest(k, elt, before) == if LastLeaf(k, elt) == "" then before else Cut(LastLeaf(k, elt), 127)
    decreases k
  {
    FieldCut(k.node.body.text);
    hide FieldText;
    if k.Cons? {
      LatestLeaf(k.rest, elt, Latest(k.node, elt, before));
    }
  }

  lemma FieldCut(text: string)
    requires '\0' !in text
    ensures FieldText(text) == if |text| > 127 then text[..127] else text
  {
  }

  /** The record of a service written with leaves: each field is the text of the last leaf of its name
      with data, cut to its array, and empty without one. */
  lemma ServiceFields(n: Node, tmp: Service)
    requires n.name == "service" && n.body.Children? && LeavesOnly(n.body.kids)
    ensures Record(n, tmp).serviceType == Cut(LastLeaf(n.body.kids, "serviceType"), 127)
    ensures Record(n, tmp).controlUrl == Cut(LastLeaf(n.body.kids, "controlURL"), 127)
    ensures Record(n, tmp).eventSubUrl == Cut(LastLeaf(n.body.kids, "eventSubURL"), 127)
    ensures Record(n, tmp).scpdUrl == Cut(LastLeaf(n.body.kids, "SCPDURL"), 127)
  {
    hide Record, KidsLatest, LastLeaf, LeavesOnly;
    RecordFields(n, tmp);
    LatestLeaf(n.body.kids, "serviceType", "");
    LatestLeaf(n.body.kids, "controlURL", "");
    LatestLeaf(n.body.kids, "eventSubURL", "");
    LatestLeaf(n.body.kids, "SCPDURL", "");
  }

  // ----- element names and the array for them

  predicate HasLongOpen(calls: seq<Call>) {
    calls != [] && (LongOpen(calls[0]) || HasLongOpen(calls[1..]))
  }

  /** The memory stays intact exactly as long as no long name is opened. */
  lemma {:induction false} FoldIn(d: Igd, calls: seq<Call>)
    ensures Fold(HandleIn, Intact(d), calls) == if HasLongOpen(calls) then Overrun else Intact(Fold(Handle, d, calls))
    decreases |calls|
  {
    hide Handle;
    if calls != [] {
      if LongOpen(calls[0]) {
        FoldOverrun(calls[1..]);
      } else {
        FoldIn(Handle(d, calls[0]), calls[1..]);
      }
    }
  }

  lemma {:induction false} FoldOverrun(calls: seq<Call>)
    ensures Fold(HandleIn, Overrun, calls) == Overrun
    decreases |calls|
  {
    if calls != [] {
      FoldOverrun(calls[1..]);
    }
  }

  /** Every element name in a tree fits the array. */
  predicate NamesFit(n: Node) {
    |n.name| <= MAX_NAME && (n.body.Children? ==> KidsNamesFit(n.body.kids))
  }

  predicate KidsNamesFit(k: Kids) {
    NamesFit(k.node) && (k.Cons? ==> KidsNamesFit(k.rest))
  }

  lemma {:induction false} LongOpenConcat(a: seq<Call>, b: seq<Call>)
    ensures HasLongOpen(a + b) <==> HasLongOpen(a) || HasLongOpen(b)
    decreases |a|
  {
    if a == [] {
      assert a + b == b;
    } else {
      assert (a + b)[1..] == a[1..] + b;
      LongOpenConcat(a[1..], b);
    }
  }

  lemma {:induction false} AttsOpenNothing(atts: seq<Attr>)
    ensures !HasLongOpen(AttCalls(atts))
    decreases |atts|
  {
    if atts != [] {
      assert AttCalls(atts)[1..] == AttCalls(atts[1..]);
      AttsOpenNothing(atts[1..]);
    }
  }

  lemma {:induction false} NodeOpens(n: Node)
    ensures HasLongOpen(Calls(n)) <==> !NamesFit(n)
    decreases n, 1
  {
    hide QName, KidsCalls, AttCalls, KidsNamesFit;
    AttsOpenNothing(n.atts);
    var start := [Open(n.name)];
    LongOpenConcat(start + AttCalls(n.atts) + BodyCalls(n.body), EndCalls(n));
    LongOpenConcat(start + AttCalls(n.atts), BodyCalls(n.body));
    LongOpenConcat(start, AttCalls(n.atts));
    assert start[1..] == [];
    assert !HasLongOpen(EndCalls(n));
    if n.body.Children? {
      KidsOpen(n.body.kids);
    } else {
      assert !HasLongOpen(BodyCalls(n.body));
    }
  }

  lemma {:induction false} KidsOpen(k: Kids)
    ensures HasLongOpen(KidsCalls(k)) <==> !KidsNamesFit(k)
    decreases k, 0
  {
    hide Calls, NamesFit;
    NodeOpens(k.node);
    if k.Cons? {
      KidsOpen(k.rest);
      LongOpenConcat(Calls(k.node), KidsCalls(k.rest));
    } else {
      assert Calls(k.node) + [] == Calls(k.node);
    }
  }

  /** Reading any element from any intact data: its effect if all its names fit, an overrun if not. */
  lemma NodeReadIn(d: Igd, n: Node)
    ensures var m := Fold(HandleIn, Intact(d), Calls(n));
            if NamesFit(n) then m.Intact? && ReadInto(d, n, m.igd) else m == Overrun
  {
    hide Fold, Calls, ReadInto, NamesFit, HasLongOpen;
    NodeRead(d, n);
    FoldIn(d, Calls(n));
    NodeOpens(n);
  }

  /** What the data says after a description. */
  ghost predicate Describes(root: Node, d: Igd) {
    && KeptOf(NO_IGD.kept, Services(root, NO_SERVICE), d.kept)
    && d.level == EmptyTags(root)
    && d.urlBase == LastText(root, "URLBase", "")
    && d.presentationUrl == LastText(root, "presentationURL", "")
  }

  /** Parsing any written description from cleared data: the data describes the document if and only
      if every element name has at most 127 characters; otherwise the memory is overrun. */
  lemma DescriptionParsed(prolog: string, root: Node, epilog: string)
    requires Prolog(prolog) && Valid(root) && Plain(epilog)
    ensures var m := Fold(HandleIn, Intact(NO_IGD), Read(prolog + Print(root) + epilog, 0));
            if NamesFit(root) then m.Intact? && Describes(root, m.igd) else m == Overrun
  {
    hide Fold, Read, Print, Valid, Calls, LastText, EmptyTags, Services, KeptOf, KeepAll, HasLongOpen, NamesFit;
    DocumentParsed(prolog, root, epilog);
    NodeReadIn(NO_IGD, root);
    KeptServices(NO_IGD.kept, Services(root, NO_SERVICE));
  }

  /** A document with one element whose name has more than 127 characters overruns the data. */
  lemma LongNameOverruns(name: string)
    requires ValidName(name) && |name| > MAX_NAME
    ensures Fold(HandleIn, Intact(NO_IGD), Read(Print(Elem("", name, [], "", Leaf("", ""))), 0)) == Overrun
  {
    hide Fold, Read, Print, Describes;
    var root := Elem("", name, [], "", Leaf("", ""));
    DescriptionParsed("", root, "");
    assert "" + Print(root) + "" == Print(root);
  }
}
